/**
 * The site-verify side of the Turnstile helper: the request `validate`
 * sends, the reply it gets back, the fixed table of Cloudflare error codes,
 * the classification of the reply's codes, and the verdict the helper
 * records.  The verdict is kept here as a value, `Verdict`, so that a
 * sequence of `validate` calls can be reasoned about as a fold; the class
 * in module `TurnstileClient` holds the same three fields and is proved to
 * step exactly as `AfterValidate` does.
 */
module SiteVerify {
  import opened Wrappers
  import opened Php

  /** The endpoint every verification request is submitted to. */
  function SiteVerifyUrl(): string {
    "https://challenges.cloudflare.com/turnstile/v0/siteverify"
  }

  /** The key unknown codes are redirected to; the table has no entry for it. */
  function UnknownError(): string {
    "unknown-error"
  }

  // ----------------------------------------------------------------------
  // The request
  // ----------------------------------------------------------------------

  /**
   * The form fields posted to the endpoint: `secret`, `response` and
   * `remoteip` in that order, with every falsy field removed by
   * `array_filter`.
   */
  function VerifyQuery(secret: string, token: string, remoteIp: string): seq<Entry> {
    Kept([Entry("secret", Str(secret)), Entry("response", Str(token)), Entry("remoteip", Str(remoteIp))])
  }

  /** The posted fields keep their order, each present exactly when its value is a truthy string. */
  lemma VerifyQueryOrder(secret: string, token: string, remoteIp: string)
    ensures VerifyQuery(secret, token, remoteIp) ==
      (if TruthyString(secret) then [Entry("secret", Str(secret))] else []) +
      (if TruthyString(token) then [Entry("response", Str(token))] else []) +
      (if TruthyString(remoteIp) then [Entry("remoteip", Str(remoteIp))] else [])
  {
    var s, t, r := Entry("secret", Str(secret)), Entry("response", Str(token)), Entry("remoteip", Str(remoteIp));
    assert [s] == [] + [s];
    assert [s, t] == [s] + [t];
    assert [s, t, r] == [s, t] + [r];
    KeptSnoc([], s);
    KeptSnoc([s], t);
    KeptSnoc([s, t], r);
  }

  /** A field is posted exactly when its value is a truthy string. */
  lemma VerifyQueryFields(secret: string, token: string, remoteIp: string)
    ensures var q := VerifyQuery(secret, token, remoteIp);
      forall e :: e in q <==>
        (e == Entry("secret", Str(secret)) && TruthyString(secret)) ||
        (e == Entry("response", Str(token)) && TruthyString(token)) ||
        (e == Entry("remoteip", Str(remoteIp)) && TruthyString(remoteIp))
  {
    VerifyQueryOrder(secret, token, remoteIp);
  }

  /** Without a client address (the default `''`, or `'0'`), no `remoteip` field is posted. */
  lemma NoRemoteIpWhenFalsy(secret: string, token: string, remoteIp: string)
    requires !TruthyString(remoteIp)
    ensures forall e :: e in VerifyQuery(secret, token, remoteIp) ==> e.name != "remoteip"
  {
    VerifyQueryFields(secret, token, remoteIp);
  }

  // ----------------------------------------------------------------------
  // The reply and the error-code table
  // ----------------------------------------------------------------------

  /**
   * The decoded reply object; each property is absent (`None`) or holds a
   * PHP value, which need not have the type Cloudflare documents.
   */
  datatype Reply = Reply(success: Option<Value>, errorCodes: Option<Value>)

  /** `isset($reply->success) && $reply->success === TRUE`. */
  predicate Accepted(reply: Reply): (r: bool)
    ensures r <==> reply.success.Some? && reply.success.value.Bool? && reply.success.value.b
  {
    reply.success == Some(Bool(true))
  }

  /**
   * The seven messages of the table.  Each is the translatable markup that
   * `t()` builds from an English source text; translation is outside the
   * model, so a message is identified by that source text.
   */
  datatype Message =
    | MissingInputSecret | InvalidInputSecret | MissingInputResponse | InvalidInputResponse
    | BadRequest | TimeoutOrDuplicate | InternalError

  /** The English source text of each message. */
  function SourceText(m: Message): string {
    match m
    case MissingInputSecret => "The secret parameter was not passed."
    case InvalidInputSecret => "The secret parameter was invalid or did not exist."
    case MissingInputResponse => "The response parameter was not passed."
    case InvalidInputResponse => "The response parameter is invalid or has expired."
    case BadRequest => "The request was rejected because it was malformed."
    case TimeoutOrDuplicate => "The response parameter has already been validated before."
    case InternalError => "An internal error happened while validating the response. The request can be retried."
  }

  /** The seven documented error codes and their messages. */
  function ErrorCodes(): map<string, Message> {
    map[
      "missing-input-secret" := MissingInputSecret,
      "invalid-input-secret" := InvalidInputSecret,
      "missing-input-response" := MissingInputResponse,
      "invalid-input-response" := InvalidInputResponse,
      "bad-request" := BadRequest,
      "timeout-or-duplicate" := TimeoutOrDuplicate,
      "internal-error" := InternalError]
  }

  /** Reading `$table[$key]`: the entry's message, or `None` (PHP's `null`) for a missing key. */
  function Lookup(table: map<string, Message>, key: string): (r: Option<Message>)
    ensures r.None? <==> key !in table
    ensures r.Some? ==> key in table && table[key] == r.value
  {
    if key in table then Some(table[key]) else None
  }

  /** The table has exactly the seven documented codes; `unknown-error` is not one of them. */
  lemma ErrorTableKeys()
    ensures ErrorCodes().Keys == {"missing-input-secret", "invalid-input-secret", "missing-input-response",
      "invalid-input-response", "bad-request", "timeout-or-duplicate", "internal-error"}
    ensures UnknownError() !in ErrorCodes()
  {
    var u := UnknownError();
    forall k | k in ErrorCodes() ensures k != u {
      assert |k| != 13;
    }
  }

  // ----------------------------------------------------------------------
  // Classification of the reply's error codes
  // ----------------------------------------------------------------------

  /**
   * One code as `getResponseErrors` treats it: a code missing from the
   * table is replaced by `unknown-error`, and that key is then read from
   * the table.
   */
  function ClassifyCode(code: string): (r: Option<Message>)
    ensures code in ErrorCodes() ==> r == Some(ErrorCodes()[code])
    ensures code !in ErrorCodes() ==> r == Lookup(ErrorCodes(), UnknownError())
  {
    var key := if Lookup(ErrorCodes(), code).Some? then code else UnknownError();
    Lookup(ErrorCodes(), key)
  }

  /**
   * The redirection has no effect: a known code yields its own message and
   * an unknown code yields `None`, because `unknown-error` has no entry.
   */
  lemma ClassifyIsLookup(code: string)
    ensures ClassifyCode(code) == Lookup(ErrorCodes(), code)
  {
    ErrorTableKeys();
  }

  /** The classification of every code of the reply, in order. */
  function Classify(codes: seq<string>): (r: seq<Option<Message>>)
    ensures |r| == |codes|
    ensures forall i :: 0 <= i < |codes| ==> (r[i].Some? <==> codes[i] in ErrorCodes())
  {
    ErrorTableKeys();
    seq(|codes|, i requires 0 <= i < |codes| => ClassifyCode(codes[i]))
  }

  /** `getResponseErrors`: no errors unless `error-codes` is set and is an array. */
  function ResponseErrors(validated: Option<Reply>): seq<Option<Message>> {
    if validated.Some? && validated.value.errorCodes.Some? && validated.value.errorCodes.value.List?
    then Classify(validated.value.errorCodes.value.items)
    else []
  }

  /**
   * One entry per reply code, in order: the documented message for a
   * documented code and nothing for any other; no entries at all when the
   * codes are absent or not an array.
   */
  lemma ResponseErrorsMeaning(validated: Option<Reply>)
    ensures var errs := ResponseErrors(validated);
      match validated
      case Some(Reply(_, Some(List(codes)))) =>
        |errs| == |codes| &&
        forall i :: 0 <= i < |codes| ==>
          (errs[i].Some? <==> codes[i] in ErrorCodes()) &&
          (codes[i] in ErrorCodes() ==> errs[i] == Some(ErrorCodes()[codes[i]]))
      case _ => errs == []
  {
    if validated.Some? && validated.value.errorCodes.Some? && validated.value.errorCodes.value.List? {
      var codes := validated.value.errorCodes.value.items;
      forall i | 0 <= i < |codes| ensures ClassifyCode(codes[i]) == Lookup(ErrorCodes(), codes[i]) {
        ClassifyIsLookup(codes[i]);
      }
    }
  }

  // ----------------------------------------------------------------------
  // The verdict
  // ----------------------------------------------------------------------

  /** The three fields `validate` writes: `success`, `errors` and `validated`. */
  datatype Verdict = Verdict(success: bool, errors: seq<Option<Message>>, validated: Option<Reply>)

  /** A freshly constructed helper: not successful, no errors, nothing validated. */
  function Initial(): (r: Verdict)
    ensures !r.success && r.errors == [] && r.validated == None
  {
    Verdict(false, [], None)
  }

  /**
   * One `validate` call that got `reply` back: the reply is stored; an
   * accepted reply sets `success` and leaves `errors` alone, any other
   * reply replaces `errors` and leaves `success` alone.
   */
  function AfterValidate(v: Verdict, reply: Reply): (r: Verdict)
    ensures r.validated == Some(reply)
    ensures Accepted(reply) ==> r.success && r.errors == v.errors
    ensures !Accepted(reply) ==> r.success == v.success && r.errors == ResponseErrors(Some(reply))
  {
    if Accepted(reply) then Verdict(true, v.errors, Some(reply))
    else Verdict(v.success, ResponseErrors(Some(reply)), Some(reply))
  }

  /** Several `validate` calls on the same helper, the last reply last. */
  function Run(v: Verdict, replies: seq<Reply>): Verdict
    decreases |replies|
  {
    if replies == [] then v
    else AfterValidate(Run(v, replies[..|replies| - 1]), replies[|replies| - 1])
  }

  /** `reply` stands at position `k` and every later reply was accepted. */
  predicate LastAt(replies: seq<Reply>, k: int, reply: Reply) {
    0 <= k < |replies| && replies[k] == reply && forall j :: k < j < |replies| ==> Accepted(replies[j])
  }

  /** The last reply that was not accepted, if any. */
  function LastRejected(replies: seq<Reply>): (r: Option<Reply>)
    ensures r.Some? ==> r.value in replies && !Accepted(r.value)
    ensures r.None? <==> forall i :: 0 <= i < |replies| ==> Accepted(replies[i])
    decreases |replies|
  {
    if replies == [] then None
    else if !Accepted(replies[|replies| - 1]) then Some(replies[|replies| - 1])
    else LastRejected(replies[..|replies| - 1])
  }

  /** The reply `LastRejected` picks is followed only by accepted replies. */
  lemma {:induction false} LastRejectedIsLast(replies: seq<Reply>)
    ensures LastRejected(replies).Some? ==> exists k :: LastAt(replies, k, LastRejected(replies).value)
    decreases |replies|
  {
    if replies != [] {
      var n := |replies| - 1;
      if Accepted(replies[n]) {
        var init := replies[..n];
        LastRejectedIsLast(init);
        if LastRejected(init).Some? {
          var k :| LastAt(init, k, LastRejected(init).value);
          assert LastAt(replies, k, LastRejected(replies).value);
        }
      } else {
        assert LastAt(replies, n, LastRejected(replies).value);
      }
    }
  }

  /**
   * `success` is never reset: after any number of calls it is set exactly
   * when it was set before or some reply was accepted.
   */
  lemma {:induction false} SuccessIsSticky(v: Verdict, replies: seq<Reply>)
    ensures Run(v, replies).success <==> v.success || exists i :: 0 <= i < |replies| && Accepted(replies[i])
    decreases |replies|
  {
    if replies != [] {
      var init := replies[..|replies| - 1];
      SuccessIsSticky(v, init);
      if exists i :: 0 <= i < |replies| && Accepted(replies[i]) {
        var i :| 0 <= i < |replies| && Accepted(replies[i]);
        if i < |init| {
          assert init[i] == replies[i];
        }
      }
    }
  }

  /**
   * The errors after several calls are those of the last rejected reply;
   * when every reply was accepted they are the errors held before.
   */
  lemma {:induction false} ErrorsOfLastRejection(v: Verdict, replies: seq<Reply>)
    ensures Run(v, replies).errors ==
      match LastRejected(replies)
      case None => v.errors
      case Some(reply) => ResponseErrors(Some(reply))
    decreases |replies|
  {
    if replies != [] {
      ErrorsOfLastRejection(v, replies[..|replies| - 1]);
    }
  }

  /**
   * On a freshly constructed helper, after any number of calls `success` is
   * set exactly when some reply was accepted, and `errors` are those of the
   * last rejected reply, or empty when none was rejected.
   */
  lemma FromInitial(replies: seq<Reply>)
    ensures Run(Initial(), replies).success <==> exists i :: 0 <= i < |replies| && Accepted(replies[i])
    ensures LastRejected(replies).None? ==> Run(Initial(), replies).errors == []
    ensures LastRejected(replies).Some? ==> Run(Initial(), replies).errors == ResponseErrors(LastRejected(replies))
  {
    SuccessIsSticky(Initial(), replies);
    ErrorsOfLastRejection(Initial(), replies);
  }

  /** After at least one call, `validated` holds the last reply. */
  lemma LastReplyKept(v: Verdict, replies: seq<Reply>)
    requires replies != []
    ensures Run(v, replies).validated == Some(replies[|replies| - 1])
  {
  }

  /**
   * A reply whose `success` is anything but boolean `true` (the string
   * `"true"`, the integer 1, null, or no field at all) is a rejection.
   */
  lemma OnlyStrictTrueAccepts(reply: Reply)
    ensures reply.success == Some(Str("true")) || reply.success == Some(Int(1)) || reply.success == Some(Null) || reply.success == None
      ==> !AfterValidate(Initial(), reply).success
  {
  }

  /** A rejected reply naming a documented code records that code's message. */
  lemma RejectedWithKnownCode()
    ensures var reply := Reply(Some(Bool(false)), Some(List(["invalid-input-response"])));
      AfterValidate(Initial(), reply) == Verdict(false, [Some(InvalidInputResponse)], Some(reply))
  {
  }

  /**
   * A rejected reply naming an undocumented code records one entry with no
   * message: the `unknown-error` fallback is not in the table.
   */
  lemma RejectedWithUnknownCode()
    ensures var reply := Reply(Some(Bool(false)), Some(List(["totally-made-up-code"])));
      AfterValidate(Initial(), reply) == Verdict(false, [None], Some(reply))
  {
    ClassifyIsLookup("totally-made-up-code");
  }
}
