/** The admission decision of ValidateBody#call as pure functions, together
    with the memo state (@request_body, @request_json_body) it threads from
    one call to the next. */
module Admission {
  import opened Wrappers
  import opened Json
  import opened Rack

  /** What one call of the middleware does: hand the request to the wrapped
      app and return its response, answer with the locally built rejection,
      or let the exception from getting the parsed body escape. */
  datatype Outcome =
    | PassThrough(response: Response)
    | Reject(response: Response)
    | Raised

  /** The verbs that are validated. */
  predicate IsWrite(requestMethod: string) {
    IsPost(requestMethod) || IsPut(requestMethod)
  }

  /** halt_request: Rack::Response.new([], 400, {}).finish */
  function HaltRequest(): (r: Response)
    ensures r.status == 400 && r.headers == map[] && r.body == []
  {
    Response(400, map[], [])
  }

  /** Ruby's Array#-: the elements of xs that are not in keys, in order. */
  function Without(xs: seq<string>, keys: set<string>): (r: seq<string>)
    ensures |r| <= |xs|
    ensures forall k :: k in r <==> k in xs && k !in keys
  {
    if xs == [] then []
    else if xs[0] in keys then Without(xs[1..], keys)
    else [xs[0]] + Without(xs[1..], keys)
  }

  /** not_all_required_keys?: required_keys minus the object's top-level keys
      is non-empty. Both sides are strings here (the source turns the JSON
      keys into symbols to match symbol-valued required_keys). */
  function NotAllRequiredKeys(requiredKeys: seq<string>, obj: Object): (missing: bool)
    ensures missing <==> exists k :: k in requiredKeys && k !in obj
  {
    var rest := Without(requiredKeys, obj.Keys);
    assert rest != [] ==> rest[0] in rest;
    rest != []
  }

  /** empty_body?: the body text is '' (no parse is attempted), or it parses
      to an object with no keys; a failed parse raises. */
  function EmptyBody(text: string, parse: Parser): (r: Result<bool, JsonError>)
    ensures r.Err? <==> text != "" && parse(text).None?
    ensures r == Ok(false) <==> text != "" && parse(text).Some? && |parse(text).value| > 0
  {
    if text == "" then Ok(true)
    else match parse(text)
      case None => Err(JsonError)
      case Some(obj) => Ok(|obj| == 0)
  }

  /** The branches of ValidateBody#call for a request with the given verb,
      whose body text (as request_body yields it) is `text`, where
      `appResponse` is what the wrapped app answers when it is called. */
  function Decide(requestMethod: string, text: string, requiredKeys: seq<string>,
                  parse: Parser, appResponse: Response): (o: Outcome)
    ensures o.PassThrough? ==> o.response == appResponse
    ensures o.Reject? ==> o.response == HaltRequest()
    ensures o.Raised? <==> IsWrite(requestMethod) && text != "" && parse(text).None?
  {
    if !IsPost(requestMethod) && !IsPut(requestMethod) then PassThrough(appResponse)
    else match EmptyBody(text, parse)
      case Err(_) => Raised
      case Ok(empty) =>
        if empty || NotAllRequiredKeys(requiredKeys, parse(text).value) then Reject(HaltRequest())
        else PassThrough(appResponse)
  }

  /** The admission rule stated without the source's evaluation order: any
      verb other than POST/PUT, or a body that parses to a non-empty object
      holding every required key. */
  ghost predicate Admissible(requestMethod: string, text: string, requiredKeys: seq<string>, parse: Parser) {
    || !IsWrite(requestMethod)
    || (&& text != ""
        && parse(text).Some?
        && |parse(text).value| > 0
        && forall k :: k in requiredKeys ==> k in parse(text).value)
  }

  /** A request that is neither POST nor PUT goes to the app whatever its
      body, the parser or the required keys. */
  lemma NonWriteIsDelegated(requestMethod: string, text: string, requiredKeys: seq<string>,
                            parse: Parser, appResponse: Response)
    requires !IsWrite(requestMethod)
    ensures Decide(requestMethod, text, requiredKeys, parse, appResponse) == PassThrough(appResponse)
  {
  }

  /** A POST/PUT with body '' is rejected, and the outcome does not depend on
      the parser: the `||` short-circuits before any parse. */
  lemma EmptyTextRejectedWithoutParsing(requestMethod: string, requiredKeys: seq<string>,
                                        parse: Parser, other: Parser, appResponse: Response)
    requires IsWrite(requestMethod)
    ensures Decide(requestMethod, "", requiredKeys, parse, appResponse) == Reject(HaltRequest())
    ensures Decide(requestMethod, "", requiredKeys, parse, appResponse)
         == Decide(requestMethod, "", requiredKeys, other, appResponse)
  {
  }

  /** A POST/PUT whose body parses to {} is rejected, whatever the required keys. */
  lemma EmptyObjectRejected(requestMethod: string, text: string, requiredKeys: seq<string>,
                            parse: Parser, appResponse: Response)
    requires IsWrite(requestMethod) && text != "" && parse(text) == Some(map[])
    ensures Decide(requestMethod, text, requiredKeys, parse, appResponse) == Reject(HaltRequest())
  {
  }

  /** A POST/PUT with a non-empty object is rejected exactly when some required
      key is not among its top-level keys, and admitted otherwise. */
  lemma RejectedIffKeyMissing(requestMethod: string, text: string, requiredKeys: seq<string>,
                              parse: Parser, appResponse: Response, obj: Object)
    requires IsWrite(requestMethod) && text != "" && parse(text) == Some(obj) && |obj| > 0
    ensures var o := Decide(requestMethod, text, requiredKeys, parse, appResponse);
      && (o == Reject(HaltRequest()) <==> exists k :: k in requiredKeys && k !in obj)
      && (o == PassThrough(appResponse) <==> forall k :: k in requiredKeys ==> k in obj)
  {
  }

  /** The decision agrees with the declarative rule: a call delegates exactly
      when the request is admissible. */
  lemma DecideMatchesAdmissible(requestMethod: string, text: string, requiredKeys: seq<string>,
                                parse: Parser, appResponse: Response)
    ensures Decide(requestMethod, text, requiredKeys, parse, appResponse).PassThrough?
        <==> Admissible(requestMethod, text, requiredKeys, parse)
  {
  }

  /** Extra keys never turn an admitted body into a rejected one. */
  lemma ExtraKeysIrrelevant(requestMethod: string, text: string, more: string,
                            requiredKeys: seq<string>, parse: Parser, appResponse: Response)
    requires text != "" && more != ""
    requires parse(text).Some? && parse(more).Some?
    requires parse(text).value.Keys <= parse(more).value.Keys
    requires Decide(requestMethod, text, requiredKeys, parse, appResponse).PassThrough?
    ensures Decide(requestMethod, more, requiredKeys, parse, appResponse).PassThrough?
  {
  }

  /** With the default empty required_keys, any non-empty object is admitted. */
  lemma DefaultKeysAdmitNonEmptyObject(requestMethod: string, text: string,
                                       parse: Parser, appResponse: Response)
    requires text != "" && parse(text).Some? && |parse(text).value| > 0
    ensures Decide(requestMethod, text, [], parse, appResponse) == PassThrough(appResponse)
  {
  }

  /** The required-keys examples: with required keys a and b, a body with
      neither or with only a is rejected, and one with both reaches the app. */
  lemma RequiredKeysExamples(neither: string, onlyA: string, both: string,
                             parse: Parser, appResponse: Response)
    requires neither != "" && parse(neither) == Some(map["something" := Null])
    requires onlyA != "" && parse(onlyA) == Some(map["a" := Number(1)])
    requires both != "" && parse(both) == Some(map["a" := Bool(true), "b" := Bool(true)])
    ensures Decide("POST", neither, ["a", "b"], parse, appResponse) == Reject(Response(400, map[], []))
    ensures Decide("POST", onlyA, ["a", "b"], parse, appResponse) == Reject(Response(400, map[], []))
    ensures Decide("POST", both, ["a", "b"], parse, appResponse) == PassThrough(appResponse)
  {
    assert "b" in ["a", "b"] && "b" !in parse(onlyA).value;
  }

  // ---------------------------------------------------------------------
  // The memo fields and what they do across calls on one instance.

  /** @request_body and @request_json_body; None stands for nil. */
  datatype Memo = Memo(body: Option<string>, json: Option<Object>)

  /** The cached parse, when there is one, is the parse of the cached body. */
  ghost predicate Consistent(memo: Memo, parse: Parser) {
    memo.json.Some? ==> memo.body.Some? && parse(memo.body.value) == memo.json
  }

  /** request_body: the cached text if there is one, else the whole body
      (the stream is rewound before it is read). */
  function BodyText(memo: Memo, data: string): (text: string) {
    if memo.body.Some? then memo.body.value else data
  }

  /** The memo after one call on a request whose body stream holds `req.body`:
      a POST/PUT fills @request_body with `||=`, and fills @request_json_body
      with `||=` when the text is not '' (a failed parse leaves it nil).
      A call keeps the cache consistent and never replaces a cached value. */
  function NextMemo(memo: Memo, req: Request, parse: Parser): (next: Memo)
    ensures Consistent(memo, parse) ==> Consistent(next, parse)
    ensures memo.body.Some? ==> next.body == memo.body
    ensures memo.json.Some? ==> next.json == memo.json
    ensures IsWrite(req.requestMethod) ==> next.body.Some?
  {
    if !IsWrite(req.requestMethod) then memo
    else
      var text := BodyText(memo, req.body);
      Memo(Some(text), if text == "" || memo.json.Some? then memo.json else parse(text))
  }

  /** The outcomes of a sequence of calls on one middleware instance,
      starting from `memo`. The app is called with the request it sees
      after the rewind: its verb and its whole body. Whatever came before,
      a request that is not POST/PUT reaches the app and a rejection is the
      fixed 400. */
  function Outcomes(memo: Memo, reqs: seq<Request>, requiredKeys: seq<string>,
                    parse: Parser, app: Request -> Response): (os: seq<Outcome>)
    requires Consistent(memo, parse)
    ensures |os| == |reqs|
    ensures forall i :: 0 <= i < |reqs| && !IsWrite(reqs[i].requestMethod) ==> os[i] == PassThrough(app(reqs[i]))
    ensures forall i :: 0 <= i < |os| && os[i].Reject? ==> os[i].response == HaltRequest()
    decreases |reqs|
  {
    if reqs == [] then []
    else
      [Decide(reqs[0].requestMethod, BodyText(memo, reqs[0].body), requiredKeys, parse, app(reqs[0]))]
      + Outcomes(NextMemo(memo, reqs[0], parse), reqs[1..], requiredKeys, parse, app)
  }

  /** How many POST/PUT requests a sequence holds. */
  function Writes(reqs: seq<Request>): (n: nat)
    ensures n <= |reqs|
  {
    if reqs == [] then 0
    else (if IsWrite(reqs[0].requestMethod) then 1 else 0) + Writes(reqs[1..])
  }

  /** How many times a sequence of calls reads a body stream. */
  function BodyReads(memo: Memo, reqs: seq<Request>, parse: Parser): (n: nat)
    decreases |reqs|
  {
    if reqs == [] then 0
    else
      (if IsWrite(reqs[0].requestMethod) && memo.body.None? then 1 else 0)
      + BodyReads(NextMemo(memo, reqs[0], parse), reqs[1..], parse)
  }

  /** A body is read at most once per middleware instance, however many calls
      it serves, and never once something is cached. */
  lemma {:induction false} BodyReadAtMostOnce(memo: Memo, reqs: seq<Request>, parse: Parser)
    ensures BodyReads(memo, reqs, parse) <= if memo.body.None? then 1 else 0
    decreases |reqs|
  {
    if reqs != [] {
      BodyReadAtMostOnce(NextMemo(memo, reqs[0], parse), reqs[1..], parse);
    }
  }

  /** Whether one call runs JSON.parse: a POST/PUT whose body text is not ''
      while @request_json_body is still nil. */
  predicate ParsesOnCall(memo: Memo, req: Request) {
    IsWrite(req.requestMethod) && BodyText(memo, req.body) != "" && memo.json.None?
  }

  /** How many times a sequence of calls runs JSON.parse. */
  function ParseCalls(memo: Memo, reqs: seq<Request>, parse: Parser): (n: nat)
    decreases |reqs|
  {
    if reqs == [] then 0
    else
      (if ParsesOnCall(memo, reqs[0]) then 1 else 0)
      + ParseCalls(NextMemo(memo, reqs[0], parse), reqs[1..], parse)
  }

  /** How many of those JSON.parse runs succeed. */
  function SuccessfulParses(memo: Memo, reqs: seq<Request>, parse: Parser): (n: nat)
    decreases |reqs|
  {
    if reqs == [] then 0
    else
      (if ParsesOnCall(memo, reqs[0]) && parse(BodyText(memo, reqs[0].body)).Some? then 1 else 0)
      + SuccessfulParses(NextMemo(memo, reqs[0], parse), reqs[1..], parse)
  }

  /** JSON.parse succeeds at most once per middleware instance, and never
      once a parse is cached. */
  lemma {:induction false} ParsedSuccessfullyAtMostOnce(memo: Memo, reqs: seq<Request>, parse: Parser)
    ensures SuccessfulParses(memo, reqs, parse) <= if memo.json.None? then 1 else 0
    decreases |reqs|
  {
    if reqs != [] {
      ParsedSuccessfullyAtMostOnce(NextMemo(memo, reqs[0], parse), reqs[1..], parse);
    }
  }

  /** A cached body that does not parse is parsed again on every later
      POST/PUT: a failed parse leaves @request_json_body nil. */
  lemma {:induction false} FailedParseRetriedOnEveryWrite(memo: Memo, reqs: seq<Request>, parse: Parser)
    requires memo.body.Some? && memo.body.value != "" && parse(memo.body.value).None?
    requires memo.json.None?
    ensures ParseCalls(memo, reqs, parse) == Writes(reqs)
    decreases |reqs|
  {
    if reqs != [] {
      FailedParseRetriedOnEveryWrite(NextMemo(memo, reqs[0], parse), reqs[1..], parse);
    }
  }

  /** Once a body is cached, every later POST/PUT on the same instance is
      judged by the cached text, not by its own body. */
  lemma {:induction false} CachedBodyJudgesLaterWrites(memo: Memo, reqs: seq<Request>, requiredKeys: seq<string>,
                                                      parse: Parser, app: Request -> Response, i: nat)
    requires Consistent(memo, parse)
    requires memo.body.Some?
    requires i < |reqs| && IsWrite(reqs[i].requestMethod)
    ensures Outcomes(memo, reqs, requiredKeys, parse, app)[i]
         == Decide(reqs[i].requestMethod, memo.body.value, requiredKeys, parse, app(reqs[i]))
    decreases i
  {
    if i > 0 {
      CachedBodyJudgesLaterWrites(NextMemo(memo, reqs[0], parse), reqs[1..], requiredKeys, parse, app, i - 1);
    }
  }

  /** Retrying the same request on the same instance gives the same outcome. */
  lemma RetryGivesSameOutcome(memo: Memo, req: Request, requiredKeys: seq<string>,
                              parse: Parser, app: Request -> Response)
    requires Consistent(memo, parse)
    ensures var os := Outcomes(memo, [req, req], requiredKeys, parse, app);
      os[1] == os[0]
  {
    var next := NextMemo(memo, req, parse);
    assert [req, req][1..] == [req];
    assert Outcomes(next, [req], requiredKeys, parse, app)[0]
        == Decide(req.requestMethod, BodyText(next, req.body), requiredKeys, parse, app(req));
  }

  /** As written: after a valid POST, an empty POST on the same instance is
      admitted, although on its own it is rejected. */
  lemma EmptyPostAfterValidPostIsAdmitted(text: string, requiredKeys: seq<string>,
                                          parse: Parser, app: Request -> Response)
    requires text != "" && parse(text).Some? && |parse(text).value| > 0
    requires forall k :: k in requiredKeys ==> k in parse(text).value
    ensures var second := Request("POST", "");
      && Outcomes(Memo(None, None), [Request("POST", text), second], requiredKeys, parse, app)[1]
         == PassThrough(app(second))
      && Decide("POST", "", requiredKeys, parse, app(second)) == Reject(HaltRequest())
  {
    var reqs := [Request("POST", text), Request("POST", "")];
    var next := NextMemo(Memo(None, None), reqs[0], parse);
    assert next.body == Some(text);
    CachedBodyJudgesLaterWrites(next, reqs[1..], requiredKeys, parse, app, 0);
  }

  /** Corrected: the memo scoped to one call, so each call starts with nothing
      cached and every request is judged by its own body. */
  function ScopedOutcomes(reqs: seq<Request>, requiredKeys: seq<string>,
                          parse: Parser, app: Request -> Response): (os: seq<Outcome>)
    ensures |os| == |reqs|
    ensures forall i :: 0 <= i < |reqs| ==>
      os[i] == Decide(reqs[i].requestMethod, reqs[i].body, requiredKeys, parse, app(reqs[i]))
    decreases |reqs|
  {
    if reqs == [] then []
    else
      [Decide(reqs[0].requestMethod, BodyText(Memo(None, None), reqs[0].body), requiredKeys, parse, app(reqs[0]))]
      + ScopedOutcomes(reqs[1..], requiredKeys, parse, app)
  }

  /** Each request of the corrected run gets the outcome a fresh instance
      of the code as written would give it. */
  lemma ScopedMatchesFreshInstance(reqs: seq<Request>, requiredKeys: seq<string>,
                                   parse: Parser, app: Request -> Response, i: nat)
    requires i < |reqs|
    ensures ScopedOutcomes(reqs, requiredKeys, parse, app)[i]
         == Outcomes(Memo(None, None), [reqs[i]], requiredKeys, parse, app)[0]
  {
  }

  /** Without POST/PUT requests the memo is never touched, so the run as
      written and the corrected run agree from any memo. */
  lemma {:induction false} NoWritesAgree(memo: Memo, reqs: seq<Request>, requiredKeys: seq<string>,
                                        parse: Parser, app: Request -> Response)
    requires Consistent(memo, parse)
    requires Writes(reqs) == 0
    ensures Outcomes(memo, reqs, requiredKeys, parse, app) == ScopedOutcomes(reqs, requiredKeys, parse, app)
    decreases |reqs|
  {
    if reqs != [] {
      NoWritesAgree(NextMemo(memo, reqs[0], parse), reqs[1..], requiredKeys, parse, app);
    }
  }

  /** On a fresh instance serving at most one POST/PUT, the run as written and
      the corrected run agree: the correction changes nothing a single
      validated request can observe. */
  lemma {:induction false} OneWriteAgrees(reqs: seq<Request>, requiredKeys: seq<string>,
                                         parse: Parser, app: Request -> Response)
    requires Writes(reqs) <= 1
    ensures Outcomes(Memo(None, None), reqs, requiredKeys, parse, app) == ScopedOutcomes(reqs, requiredKeys, parse, app)
    decreases |reqs|
  {
    if reqs != [] {
      var next := NextMemo(Memo(None, None), reqs[0], parse);
      if IsWrite(reqs[0].requestMethod) {
        NoWritesAgree(next, reqs[1..], requiredKeys, parse, app);
      } else {
        OneWriteAgrees(reqs[1..], requiredKeys, parse, app);
      }
    }
  }
}
