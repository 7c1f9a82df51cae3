# Turnstile helper — a Dafny model

This project models the server-side helper class `Turnstile` of the Drupal
Turnstile module (Cloudflare's CAPTCHA replacement). The object does three things:

- **Widget markup.** The constructor merges the caller's attributes into a
  fixed, ordered array of nine defaults. `getAttributesString` drops every
  falsy attribute, space-joins array values, entity-escapes each value and
  emits the ` name="value"` pairs. `getWidget` wraps the result in an empty `div`.
- **Verification.** `validate` posts the truthy fields among `secret`,
  `response` and `remoteip` to the site-verify endpoint once and stores the
  reply. A field is truthy when it is neither `""` nor `"0"`. An accepted
  reply (`success` is strictly boolean `true`) sets the `success` flag. Any
  other reply replaces `errors`.
- **Error classification.** `getResponseErrors` maps each code of the
  reply through the seven-entry table of `getErrorCodes`. It redirects codes
  missing from the table to the key `unknown-error`.

Modules, one per file:

| file | module | contents |
|---|---|---|
| `wrappers.dfy` | `Wrappers` | `Option`, used for missing keys and absent reply fields |
| `php.dfy` | `Php` | PHP values and truthiness, the text `implode(' ', (array) $v)` gives, arrays as ordered key/value entries, `array_filter` |
| `html.dfy` | `Html` | `htmlspecialchars` with `ENT_QUOTES` (`&amp; &quot; &#039; &lt; &gt;`) and its inverse |
| `attributes.dfy` | `WidgetAttributes` | the constructor's merge, the attribute string, and a reader of that string used to state what the markup says |
| `defaults.dfy` | `WidgetDefaults` | the nine default attributes and what the widget renders from them |
| `verification.dfy` | `SiteVerify` | the request fields, the reply, the error-code table, the classification of codes and the verdict as a value |
| `turnstile.dfy` | `TurnstileClient` | class `Turnstile`, with the source's fields and methods |

The imperative parts of the source are methods:

- the constructor's merge loop is `WidgetAttributes.MergeAttributes`, called by the constructor of class `Turnstile`;
- the by-reference rewriting loop of `getAttributesString` is the class method `AttributesString`;
- the field updates of `validate` are the class method `Validate`;
- the accumulation loop of `getResponseErrors` is the class method `GetResponseErrors`.

Each method is proved against a function: `Merge`, `Render`, `AfterValidate` and `ResponseErrors`. The lemmas state the source's promises about those functions.

The transport (`RequestMethodInterface::submit`) is an input. `Validate`
receives the decoded reply as a parameter. It appends the submitted endpoint
and fields to a `submissions` log, so the request it sends can be stated.

## Model

| member | source | states |
|---|---|---|
| Php.TruthyString | web/modules/contrib/turnstile/src/Turnstile/Turnstile.php:141 | a string converts to `false` exactly when it is empty or is the one character `0` |
| Php.Truthy | web/modules/contrib/turnstile/src/Turnstile/Turnstile.php:219 | a value converts to `false` exactly when it is `""`, `"0"`, `0`, `false`, `null` or `[]` |
| Php.KeptMembers | web/modules/contrib/turnstile/src/Turnstile/Turnstile.php:219 | `array_filter` keeps an entry exactly when its value is truthy; `""`, `"0"`, `0`, `false`, `null` and `[]` are dropped |
| Php.Find | web/modules/contrib/turnstile/src/Turnstile/Turnstile.php:91-93 | the caller's value for a key is found exactly when some entry has that key, and it is that entry's value |
| Php.FindSnoc | web/modules/contrib/turnstile/src/Turnstile/Turnstile.php:91-93 | a later entry for a key wins: after appending an entry its key reads as its value, and every other key reads as before |
| Php.NatToStringValue | web/modules/contrib/turnstile/src/Turnstile/Turnstile.php:221 | the digits written for a natural number read back as that number |
| Php.Kept | web/modules/contrib/turnstile/src/Turnstile/Turnstile.php:219 | `array_filter` never lengthens the array; which entries it keeps is `Php.KeptMembers` |
| Php.IntToString | web/modules/contrib/turnstile/src/Turnstile/Turnstile.php:221 | the canonical decimal text of an integer: for `i >= 0` digits only, whose value (`Php.NatValue`) is `i`, with a leading `0` only in `"0"` itself; for `i < 0` a `-` followed by digits whose value is `-i` and whose first digit is not `0` |
| Php.ImplodeSnoc | web/modules/contrib/turnstile/src/Turnstile/Turnstile.php:221 | `Php.Implode` models `implode($sep, $parts)` at lines 221 and 224: appending a part to a non-empty list appends the separator and then the part, so the parts are joined in order |
| Php.Text | web/modules/contrib/turnstile/src/Turnstile/Turnstile.php:221 | `implode(' ', (array) $v)`: a string is itself, `true` is `"1"`, `false` and `null` are `""`, an integer is its decimal text, an array is its elements joined by single spaces (`""` when empty, the element itself when alone) |
| Html.Escape | web/modules/contrib/turnstile/src/Turnstile/Turnstile.php:222 | `htmlspecialchars` with `ENT_QUOTES`: each special character becomes its entity, so the text never gets shorter; its meaning is `Html.EscapeSafe` and `Html.UnescapeEscape` |
| Html.EscapeSafe | web/modules/contrib/turnstile/src/Turnstile/Turnstile.php:222 | an escaped value contains no raw `"`, `'`, `<` or `>`, and every `&` in it starts one of the five entities |
| Html.UnescapeEscape | web/modules/contrib/turnstile/src/Turnstile/Turnstile.php:222 | escaping loses nothing: decoding the five entities gives back the original text |
| Html.EscapePlain | web/modules/contrib/turnstile/src/Turnstile/Turnstile.php:222 | text without special characters is left unchanged by escaping |
| WidgetAttributes.Override | web/modules/contrib/turnstile/src/Turnstile/Turnstile.php:92-93 | one default entry after the merge keeps its key; it takes the caller's value when the caller passed the key and the default is set, and is unchanged otherwise |
| WidgetAttributes.Merge | web/modules/contrib/turnstile/src/Turnstile/Turnstile.php:90-96 | the merged array has exactly the default keys in the default order |
| WidgetAttributes.MergeAttributes | web/modules/contrib/turnstile/src/Turnstile/Turnstile.php:90-96 | the merge loop overwrites a default entry with the caller's value exactly when the caller passed that key and the entry is set |
| WidgetAttributes.OverrideStep | web/modules/contrib/turnstile/src/Turnstile/Turnstile.php:91-93 | one more caller entry overwrites the default entry with its key when that entry is set, and leaves every other entry as it was |
| WidgetAttributes.MergeNothing | web/modules/contrib/turnstile/src/Turnstile/Turnstile.php:90 | with no caller attributes the defaults are kept as they are |
| WidgetAttributes.MergeIgnoresUnknown | web/modules/contrib/turnstile/src/Turnstile/Turnstile.php:91-92 | a caller attribute whose key is not a default key has no effect, wherever it stands among the caller's attributes |
| WidgetAttributes.MergeUnique | web/modules/contrib/turnstile/src/Turnstile/Turnstile.php:91-95 | the merge keeps the keys distinct |
| WidgetAttributes.PairQuoted | web/modules/contrib/turnstile/src/Turnstile/Turnstile.php:222 | a rendered pair is the key, `="`, a quoted part that holds no `"` and decodes back to the value's text, then `"` |
| WidgetAttributes.Spaced | web/modules/contrib/turnstile/src/Turnstile/Turnstile.php:224 | joining the pairs gives `""` exactly when there are none, and otherwise starts with a space |
| WidgetAttributes.SpacedCons | web/modules/contrib/turnstile/src/Turnstile/Turnstile.php:224 | every pair is preceded by exactly one space: the joined string is a space, the first pair, then the rest joined the same way |
| WidgetAttributes.Render | web/modules/contrib/turnstile/src/Turnstile/Turnstile.php:218-225 | the attribute string is empty exactly when the filter keeps nothing, and otherwise starts with one space |
| WidgetAttributes.RenderEmpty | web/modules/contrib/turnstile/src/Turnstile/Turnstile.php:224 | the attribute string is empty exactly when no value is truthy; otherwise it starts with a space |
| WidgetAttributes.RenderSnoc | web/modules/contrib/turnstile/src/Turnstile/Turnstile.php:219-224 | appending an entry appends ` name="escaped text"` when its value is truthy and nothing otherwise, so pairs keep array order |
| WidgetAttributes.RenderParses | web/modules/contrib/turnstile/src/Turnstile/Turnstile.php:218-225 | the attribute string reads back as the truthy entries, in order, each with its unescaped text |
| WidgetAttributes.RenderedIffTruthy | web/modules/contrib/turnstile/src/Turnstile/Turnstile.php:219-223 | with distinct keys, an attribute appears in the markup exactly when its value is truthy |
| WidgetDefaults.Defaults | web/modules/contrib/turnstile/src/Turnstile/Turnstile.php:28-38 | the nine default attributes in declaration order, with their default values |
| WidgetDefaults.DefaultsUnique | web/modules/contrib/turnstile/src/Turnstile/Turnstile.php:28-38 | the nine default keys are distinct |
| WidgetDefaults.DefaultsSet | web/modules/contrib/turnstile/src/Turnstile/Turnstile.php:28-38 | every default value is set (not null), so the `isset` test of the merge holds for each default key |
| WidgetDefaults.DefaultKeysPlain | web/modules/contrib/turnstile/src/Turnstile/Turnstile.php:29-37 | no default key contains `=` |
| WidgetDefaults.DefaultRender | web/modules/contrib/turnstile/src/Turnstile/Turnstile.php:28-38 | with no caller attributes the attribute string is exactly ` class="cf-turnstile"`; tabindex 0, retry interval 0 and the empty strings are dropped |
| WidgetDefaults.SiteKeyOnlyFromAttributes | web/modules/contrib/turnstile/src/Turnstile/Turnstile.php:86-96 | `data-sitekey` is rendered exactly when the caller's attributes carry a truthy value for it; the stored site key plays no part |
| WidgetDefaults.DefaultKeyedReadBack | web/modules/contrib/turnstile/src/Turnstile/Turnstile.php:218-225 | an attribute array with the default keys renders a string that reads back as its truthy entries, naming only default keys |
| WidgetDefaults.MergedAttributesReadBack | web/modules/contrib/turnstile/src/Turnstile/Turnstile.php:90-96 | for any caller attributes the markup reads back as the truthy merged entries, and only default keys appear in it |
| SiteVerify.VerifyQuery | web/modules/contrib/turnstile/src/Turnstile/Turnstile.php:136-141 | the fields `secret`, `response`, `remoteip` passed through `array_filter`; their meaning is `SiteVerify.VerifyQueryFields` |
| SiteVerify.VerifyQueryOrder | web/modules/contrib/turnstile/src/Turnstile/Turnstile.php:136-141 | the posted fields are `secret`, `response`, `remoteip` in that order, each present exactly when its value is a truthy string |
| SiteVerify.VerifyQueryFields | web/modules/contrib/turnstile/src/Turnstile/Turnstile.php:136-141 | a field is posted exactly when its value is a truthy string, and no other field is posted |
| SiteVerify.NoRemoteIpWhenFalsy | web/modules/contrib/turnstile/src/Turnstile/Turnstile.php:135-141 | an empty (or `"0"`) remote address is never posted |
| SiteVerify.Accepted | web/modules/contrib/turnstile/src/Turnstile/Turnstile.php:143 | a reply is accepted exactly when its `success` property is set and is the boolean `true` |
| SiteVerify.ErrorCodes | web/modules/contrib/turnstile/src/Turnstile/Turnstile.php:199-210 | the seven documented codes mapped to their messages; what it holds is `SiteVerify.ErrorTableKeys` |
| SiteVerify.SourceText | web/modules/contrib/turnstile/src/Turnstile/Turnstile.php:201-207 | the English text each message is translated from |
| SiteVerify.Lookup | web/modules/contrib/turnstile/src/Turnstile/Turnstile.php:187 | reading the table gives the entry's message for a key in the table and nothing (PHP `null`) for any other key |
| SiteVerify.ErrorTableKeys | web/modules/contrib/turnstile/src/Turnstile/Turnstile.php:199-210 | the table has exactly the seven documented codes, and `unknown-error` is not one of them |
| SiteVerify.ClassifyCode | web/modules/contrib/turnstile/src/Turnstile/Turnstile.php:184-187 | a documented code yields its own message; any other code yields what the table holds under `unknown-error` |
| SiteVerify.Classify | web/modules/contrib/turnstile/src/Turnstile/Turnstile.php:183-188 | one entry per code, in order, carrying a message exactly when the code is documented |
| SiteVerify.ClassifyIsLookup | web/modules/contrib/turnstile/src/Turnstile/Turnstile.php:184-187 | redirecting unknown codes to `unknown-error` has no effect: every code classifies as its own table entry, and an unknown code as nothing |
| SiteVerify.ResponseErrors | web/modules/contrib/turnstile/src/Turnstile/Turnstile.php:178-191 | what `getResponseErrors` returns for a stored reply; its meaning is `SiteVerify.ResponseErrorsMeaning` |
| SiteVerify.ResponseErrorsMeaning | web/modules/contrib/turnstile/src/Turnstile/Turnstile.php:178-191 | one entry per reply code, in order, carrying the documented message exactly for documented codes; no entries when `error-codes` is absent or not an array |
| SiteVerify.Initial | web/modules/contrib/turnstile/src/Turnstile/Turnstile.php:59-73 | a fresh helper has `success` unset, no errors and no stored reply |
| SiteVerify.FromInitial | web/modules/contrib/turnstile/src/Turnstile/Turnstile.php:59-149 | on a fresh helper, after any sequence of calls `success` is set exactly when some reply was accepted, and `errors` are those of the last rejected reply, or empty when none was rejected |
| SiteVerify.AfterValidate | web/modules/contrib/turnstile/src/Turnstile/Turnstile.php:141-149 | one call stores the reply; an accepted reply sets `success` and keeps `errors`, any other keeps `success` and replaces `errors` by the reply's classified codes |
| SiteVerify.OnlyStrictTrueAccepts | web/modules/contrib/turnstile/src/Turnstile/Turnstile.php:143 | a `success` field holding `"true"`, `1` or `null`, or no field at all, does not verify |
| SiteVerify.SuccessIsSticky | web/modules/contrib/turnstile/src/Turnstile/Turnstile.php:143-146 | after any sequence of calls `success` is set exactly when it was set before or some reply was accepted; it is never reset |
| SiteVerify.LastRejected | web/modules/contrib/turnstile/src/Turnstile/Turnstile.php:143-149 | the last rejected reply of a sequence is a rejected reply from it, and there is none exactly when every reply was accepted |
| SiteVerify.LastRejectedIsLast | web/modules/contrib/turnstile/src/Turnstile/Turnstile.php:143-149 | every reply after the one `LastRejected` picks was accepted |
| SiteVerify.ErrorsOfLastRejection | web/modules/contrib/turnstile/src/Turnstile/Turnstile.php:143-149 | after any sequence of calls `errors` are those of the last rejected reply, or the earlier errors when every reply was accepted |
| SiteVerify.LastReplyKept | web/modules/contrib/turnstile/src/Turnstile/Turnstile.php:141 | after at least one call the stored reply is the last one |
| SiteVerify.RejectedWithKnownCode | web/modules/contrib/turnstile/src/Turnstile/Turnstile.php:204 | a rejected reply with `invalid-input-response` records that code's message and leaves `success` unset |
| SiteVerify.RejectedWithUnknownCode | web/modules/contrib/turnstile/src/Turnstile/Turnstile.php:184-187 | a rejected reply with an undocumented code records one entry with no message |
| TurnstileClient.Turnstile.constructor | web/modules/contrib/turnstile/src/Turnstile/Turnstile.php:85-97 | stores the keys and the transport and merges the caller's attributes into the defaults; the result has the default keys in order and no verdict yet |
| TurnstileClient.Turnstile.AttributesString | web/modules/contrib/turnstile/src/Turnstile/Turnstile.php:218-225 | the rewriting loop produces exactly the attribute string of the current attributes |
| TurnstileClient.Turnstile.Widget | web/modules/contrib/turnstile/src/Turnstile/Turnstile.php:123-125 | the markup is `<div`, the attribute string, then `></div>`; the string reads back as the truthy attributes and names only default keys |
| TurnstileClient.Turnstile.Validate | web/modules/contrib/turnstile/src/Turnstile/Turnstile.php:135-150 | submits once to the site-verify endpoint `SiteVerify.SiteVerifyUrl` (the `SITE_VERIFY_URL` constant of line 21) with the filtered fields, and steps the verdict as `AfterValidate` does; attributes and keys are unchanged |
| TurnstileClient.Turnstile.IsSuccess | web/modules/contrib/turnstile/src/Turnstile/Turnstile.php:158-160 | returns the success flag |
| TurnstileClient.Turnstile.GetErrors | web/modules/contrib/turnstile/src/Turnstile/Turnstile.php:168-170 | returns the recorded errors |
| TurnstileClient.Turnstile.GetResponseErrors | web/modules/contrib/turnstile/src/Turnstile/Turnstile.php:178-191 | the accumulation loop produces exactly the classification of the stored reply's codes |

### Behaviour worth knowing

- **An accepted reply does not clear `errors`.** On the accepted branch the code leaves `errors` alone, so errors from an earlier rejected call on the same object remain (`SiteVerify.AfterValidate`, `SiteVerify.ErrorsOfLastRejection`).
- **An unknown code gets no message.** The `unknown-error` fallback has no table entry. The redirected lookup therefore yields PHP `null`, which the model writes as `None` (`SiteVerify.ClassifyIsLookup`, `SiteVerify.RejectedWithUnknownCode`).
- **Five characters are escaped.** `htmlspecialchars` with `ENT_QUOTES` escapes `&`, `"`, `'`, `<` and `>`, writing `'` as `&#039;` (`Html.EscapeSafe`).
- **The site key is not rendered.** The constructor's `$site_key` is stored but never rendered. `data-sitekey` appears only when the caller passes it among the attributes (`WidgetDefaults.SiteKeyOnlyFromAttributes`, `WidgetDefaults.DefaultRender`).

## Left out

- The HTTP transport is an input. `RequestMethodInterface::submit` is not part of this model. `Validate` takes the decoded reply as a parameter, and there is no timeout, transport-failure or malformed-JSON path, because the source has none.
- The transport object is a flag, `hasRequestMethod`. `Validate` requires it, because calling `validate` without a transport is a PHP fatal error.
- The render-array plumbing of `getWidget` is not modelled. This covers library attachments, cache tags, `captcha_validate`, `cacheable`, and the hidden `captcha_response` field with its `EMPTY_CAPTCHA_RESPONSE` value (lines 16 and 107-121). It is Drupal framework data with no behaviour. Only the markup is modelled.
- Translation is not modelled. `t()` is represented by the enumeration `SiteVerify.Message`, with each message's English source text in `SiteVerify.SourceText`.
- Escaping is modelled over well-formed character sequences only. The model does not cover `htmlspecialchars` returning `''` on invalid UTF-8.
- TurnstileClient.Turnstile.constructor takes the caller's attributes as a list with distinct keys, i.e. a PHP array. The `is_array` guard, which ignores a non-array argument, is not modelled.
- TurnstileClient.Turnstile.Validate takes the response token and the remote address as strings, so other PHP types are not covered. The remote address has no default value, so a caller states `""` explicitly.
- Attribute values are strings, integers, booleans, null or lists of strings. Floats, objects and nested arrays are not modelled. Integers are unbounded, which matters only for their decimal text.
- Reply error codes are strings. A non-string element of `error-codes` is not modelled.
- The PHP warning emitted when reading the missing `unknown-error` key is not modelled. Only the resulting `null` is.
- The other files of the repository are not part of this model: the admin settings form, the Ajax event subscriber and the JavaScript widget glue.
