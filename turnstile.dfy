/**
 * The `Turnstile` helper object: it holds the merged widget attributes and
 * the keys, renders the widget markup, submits a response token for
 * verification and records the verdict.  The HTTP transport is not part of
 * the model: `Validate` receives the decoded reply as a parameter, and the
 * object logs each submission so that what was sent can be stated.
 */
module TurnstileClient {
  import opened Wrappers
  import opened Php
  import opened Html
  import opened WidgetAttributes
  import opened WidgetDefaults
  import opened SiteVerify

  /** One call of the transport's `submit`: the endpoint and the posted fields. */
  datatype Submission = Submission(url: string, query: seq<Entry>)

  class Turnstile {
    var attributes: seq<Entry>
    var siteKey: string
    var secretKey: string
    var errors: seq<Option<Message>>
    var success: bool
    var validated: Option<Reply>
    /** Whether a transport was injected; the constructor accepts none. */
    var hasRequestMethod: bool
    /** Every request handed to the transport, oldest first. */
    var submissions: seq<Submission>

    /** The attribute array always has the default keys, in the default order. */
    ghost predicate Valid()
      reads this
    {
      Names(attributes) == Names(Defaults())
    }

    /** The three fields `validate` writes, as a value. */
    function State(): Verdict
      reads this
    {
      Verdict(success, errors, validated)
    }

    /**
     * Stores the keys and the transport, and merges the caller's attributes
     * into the defaults.  The site key is only stored: it plays no part in
     * the attribute array.
     */
    constructor (siteKey: string, secretKey: string, attributes: seq<Entry>, hasRequestMethod: bool)
      requires UniqueNames(attributes)
      ensures Valid()
      ensures this.attributes == Merge(Defaults(), attributes)
      ensures this.siteKey == siteKey && this.secretKey == secretKey
      ensures this.hasRequestMethod == hasRequestMethod
      ensures State() == Initial() && submissions == []
    {
      DefaultsUnique();
      var merged := Defaults();
      if attributes != [] {
        merged := MergeAttributes(Defaults(), attributes);
      } else {
        MergeNothing(Defaults());
      }
      this.attributes := merged;
      this.siteKey := siteKey;
      this.secretKey := secretKey;
      this.hasRequestMethod := hasRequestMethod;
      errors := [];
      success := false;
      validated := None;
      submissions := [];
    }

    /**
     * `getAttributesString`: every truthy attribute as `name="value"`, its
     * value space-joined and entity-escaped, the pairs joined by single
     * spaces after one leading space; the empty string when none is truthy.
     */
    method AttributesString() returns (s: string)
      ensures s == Render(attributes)
    {
      var kept := Kept(attributes);
      var pairs: seq<string> := [];
      for i := 0 to |kept|
        invariant pairs == Pairs(kept[..i])
      {
        var data := Text(kept[i].value);
        var pair := kept[i].name + "=\"" + Escape(data) + "\"";
        assert pair == Pair(kept[i]);
        PairsSnoc(kept[..i], kept[i]);
        assert kept[..i + 1] == kept[..i] + [kept[i]];
        pairs := pairs + [pair];
      }
      assert kept[..|kept|] == kept;
      assert pairs == Pairs(kept);
      s := if kept != [] then " " + Implode(" ", pairs) else "";
      assert s == Spaced(pairs);
    }

    /**
     * The markup of the widget: an empty `div` carrying the attribute
     * string, which reads back as the truthy attributes and names only
     * default keys.
     */
    method Widget() returns (markup: string)
      requires Valid()
      ensures markup == "<div" + Render(attributes) + "></div>"
      ensures ParseAttributes(Render(attributes)) == Some(Visible(attributes))
      ensures forall p :: p in Visible(attributes) ==> p.0 in Names(Defaults())
    {
      DefaultKeyedReadBack(attributes);
      var s := AttributesString();
      markup := "<div" + s + "></div>";
    }

    /**
     * `validate`: posts the truthy fields of the request (those that are
     * neither `""` nor `"0"`) once to the
     * site-verify endpoint and records the reply; an accepted reply sets
     * `success`, any other reply replaces `errors`.
     */
    method Validate(responseToken: string, remoteIp: string, reply: Reply)
      requires hasRequestMethod
      modifies this
      ensures submissions == old(submissions) + [Submission(SiteVerifyUrl(), VerifyQuery(secretKey, responseToken, remoteIp))]
      ensures State() == AfterValidate(old(State()), reply)
      ensures attributes == old(attributes) && siteKey == old(siteKey) && secretKey == old(secretKey)
      ensures hasRequestMethod == old(hasRequestMethod)
    {
      var query := [Entry("secret", Str(secretKey)), Entry("response", Str(responseToken)), Entry("remoteip", Str(remoteIp))];
      submissions := submissions + [Submission(SiteVerifyUrl(), Kept(query))];
      validated := Some(reply);
      if reply.success.Some? && reply.success.value == Bool(true) {
        success := true;
      } else {
        errors := GetResponseErrors();
      }
    }

    /** `isSuccess`. */
    method IsSuccess() returns (r: bool)
      ensures r == success
    {
      r := success;
    }

    /** `getErrors`. */
    method GetErrors() returns (r: seq<Option<Message>>)
      ensures r == errors
    {
      r := errors;
    }

    /**
     * `getResponseErrors`: one entry per code of the stored reply, each
     * code missing from the table being looked up as `unknown-error`.
     */
    method GetResponseErrors() returns (errs: seq<Option<Message>>)
      ensures errs == ResponseErrors(validated)
    {
      errs := [];
      if validated.Some? && validated.value.errorCodes.Some? && validated.value.errorCodes.value.List? {
        var table := ErrorCodes();
        var codes := validated.value.errorCodes.value.items;
        for i := 0 to |codes|
          invariant errs == Classify(codes[..i])
        {
          var code := codes[i];
          if Lookup(table, code).None? {
            code := UnknownError();
          }
          errs := errs + [Lookup(table, code)];
          assert Classify(codes[..i + 1]) == Classify(codes[..i]) + [ClassifyCode(codes[i])];
        }
        assert codes[..|codes|] == codes;
      }
    }
  }
}
