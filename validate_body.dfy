/** The ValidateBody Rack middleware: on POST and PUT it checks that the JSON
    body is a non-empty object holding every required key, answering 400
    otherwise; everything else goes straight to the wrapped app. */
module Middlewares {
  import opened Wrappers
  import opened Json
  import opened Rack
  import Admission

  class ValidateBody {
    /** The wrapped app: what it answers for the request it reads. */
    const app: Request -> Response
    const requiredKeys: seq<string>
    /** JSON.parse, as far as the middleware relies on it. */
    const parse: Parser

    /** @request */
    var request: Option<Env>
    /** @request_body */
    var cachedBody: Option<string>
    /** @request_json_body */
    var cachedJson: Option<Object>
    /** Every request the app has been called with; specification only. */
    ghost var appCalls: seq<Request>
    /** How many times JSON.parse has run; specification only. */
    ghost var parseCount: nat

    function State(): (memo: Admission.Memo)
      reads this
    {
      Admission.Memo(cachedBody, cachedJson)
    }

    ghost predicate Valid()
      reads this
    {
      Admission.Consistent(State(), parse)
    }

    /** initialize(app, required_keys: []) */
    constructor (app: Request -> Response, parse: Parser, requiredKeys: seq<string> := [])
      ensures this.app == app && this.parse == parse && this.requiredKeys == requiredKeys
      ensures request == None && State() == Admission.Memo(None, None)
      ensures appCalls == [] && parseCount == 0
      ensures Valid()
    {
      this.app := app;
      this.parse := parse;
      this.requiredKeys := requiredKeys;
      request := None;
      cachedBody := None;
      cachedJson := None;
      appCalls := [];
      parseCount := 0;
    }

    /** call(env): the app's response for a request that is not POST/PUT or
        that passes validation, the fixed 400 otherwise; a body JSON.parse
        rejects makes the call raise. The body is judged as request_body
        yields it, which is the cached text when there is one. */
    method Call(env: Env) returns (outcome: Admission.Outcome)
      requires Valid()
      modifies this, env.input
      ensures Valid()
      ensures request == Some(env)
      ensures outcome == Admission.Decide(env.requestMethod, Admission.BodyText(old(State()), env.input.data),
                                         requiredKeys, parse, app(Request(env.requestMethod, env.input.data)))
      ensures State() == Admission.NextMemo(old(State()), Request(env.requestMethod, env.input.data), parse)
      ensures appCalls == old(appCalls) + if outcome.PassThrough? then [Request(env.requestMethod, env.input.data)] else []
      ensures env.input.pos == if outcome.PassThrough? then 0
                               else if old(cachedBody).None? then |env.input.data| else old(env.input.pos)
      ensures env.input.readCount
           == old(env.input.readCount) + if Admission.IsWrite(env.requestMethod) && old(cachedBody).None? then 1 else 0
      ensures parseCount
           == old(parseCount) + if Admission.ParsesOnCall(old(State()), Request(env.requestMethod, env.input.data)) then 1 else 0
    {
      request := Some(env);
      if !IsPost(env.requestMethod) && !IsPut(env.requestMethod) {
        var response := AppCallAfterRewind(env);
        return Admission.PassThrough(response);
      }
      var empty := EmptyBody(env.input);
      if empty.Err? {
        return Admission.Raised;
      }
      if empty.value {
        return Admission.Reject(Admission.HaltRequest());
      }
      var missing := NotAllRequiredKeys(env.input);
      if missing.value {
        return Admission.Reject(Admission.HaltRequest());
      }
      var response := AppCallAfterRewind(env);
      return Admission.PassThrough(response);
    }

    /** The call with @request_body and @request_json_body scoped to it:
        every request is judged by its own body. */
    method CallScoped(env: Env) returns (outcome: Admission.Outcome)
      requires Valid()
      modifies this, env.input
      ensures Valid()
      ensures outcome == Admission.Decide(env.requestMethod, env.input.data,
                                         requiredKeys, parse, app(Request(env.requestMethod, env.input.data)))
      ensures State() == Admission.NextMemo(Admission.Memo(None, None), Request(env.requestMethod, env.input.data), parse)
      ensures appCalls == old(appCalls) + if outcome.PassThrough? then [Request(env.requestMethod, env.input.data)] else []
      ensures env.input.pos == if outcome.PassThrough? then 0 else |env.input.data|
      ensures env.input.readCount == old(env.input.readCount) + if Admission.IsWrite(env.requestMethod) then 1 else 0
    {
      cachedBody, cachedJson := None, None;
      outcome := Call(env);
    }

    /** app_call_after_rewind: the app reads the body from its start. */
    method AppCallAfterRewind(env: Env) returns (response: Response)
      modifies this`appCalls, env.input`pos
      ensures env.input.pos == 0
      ensures response == app(Request(env.requestMethod, env.input.data))
      ensures appCalls == old(appCalls) + [Request(env.requestMethod, env.input.data)]
    {
      env.input.Rewind();
      var delivered := Request(env.requestMethod, env.input.Unread());
      response := app(delivered);
      appCalls := appCalls + [delivered];
    }

    /** empty_body? */
    method EmptyBody(input: InputStream) returns (empty: Result<bool, JsonError>)
      requires Valid()
      modifies this`cachedBody, this`cachedJson, this`parseCount, input`pos, input`readCount
      ensures Valid()
      ensures var text := Admission.BodyText(old(State()), input.data);
        && empty == Admission.EmptyBody(text, parse)
        && State() == Admission.Memo(Some(text), if text == "" then old(cachedJson) else parse(text))
        && parseCount == old(parseCount) + if text != "" && old(cachedJson).None? then 1 else 0
      ensures input.pos == if old(cachedBody).None? then |input.data| else old(input.pos)
      ensures input.readCount == old(input.readCount) + if old(cachedBody).None? then 1 else 0
    {
      var text := RequestBody(input);
      if text == "" {
        return Ok(true);
      }
      var json := RequestJsonBody(input);
      match json
      case Err(e) => return Err(e);
      case Ok(obj) => return Ok(|obj| == 0);
    }

    /** not_all_required_keys? */
    method NotAllRequiredKeys(input: InputStream) returns (missing: Result<bool, JsonError>)
      requires Valid()
      modifies this`cachedBody, this`cachedJson, this`parseCount, input`pos, input`readCount
      ensures Valid()
      ensures var text := Admission.BodyText(old(State()), input.data);
        && missing == (match parse(text)
                       case None => Err(JsonError)
                       case Some(obj) => Ok(Admission.NotAllRequiredKeys(requiredKeys, obj)))
        && State() == Admission.Memo(Some(text), parse(text))
      ensures parseCount == old(parseCount) + if old(cachedJson).None? then 1 else 0
      ensures input.pos == if old(cachedBody).None? then |input.data| else old(input.pos)
      ensures input.readCount == old(input.readCount) + if old(cachedBody).None? then 1 else 0
    {
      var json := RequestJsonBody(input);
      match json
      case Err(e) => return Err(e);
      case Ok(obj) => return Ok(Admission.NotAllRequiredKeys(requiredKeys, obj));
    }

    /** request_body: rewinds and reads the stream the first time, and
        returns the cached text ever after. */
    method RequestBody(input: InputStream) returns (text: string)
      requires Valid()
      modifies this`cachedBody, input`pos, input`readCount
      ensures Valid()
      ensures text == Admission.BodyText(old(State()), input.data)
      ensures cachedBody == Some(text)
      ensures input.pos == if old(cachedBody).None? then |input.data| else old(input.pos)
      ensures input.readCount == old(input.readCount) + if old(cachedBody).None? then 1 else 0
    {
      if cachedBody.None? {
        input.Rewind();
        var s := input.Read();
        cachedBody := Some(s);
      }
      text := cachedBody.value;
    }

    /** request_json_body: runs JSON.parse on request_body until a parse
        succeeds and returns the cached object ever after; a failed parse
        caches nothing, so the next call parses again. */
    method RequestJsonBody(input: InputStream) returns (json: Result<Object, JsonError>)
      requires Valid()
      modifies this`cachedBody, this`cachedJson, this`parseCount, input`pos, input`readCount
      ensures Valid()
      ensures var text := Admission.BodyText(old(State()), input.data);
        && json == (if parse(text).Some? then Ok(parse(text).value) else Err(JsonError))
        && State() == Admission.Memo(Some(text), parse(text))
      ensures parseCount == old(parseCount) + if old(cachedJson).None? then 1 else 0
      ensures input.pos == if old(cachedBody).None? then |input.data| else old(input.pos)
      ensures input.readCount == old(input.readCount) + if old(cachedBody).None? then 1 else 0
    {
      var text := RequestBody(input);
      if cachedJson.None? {
        var parsed := parse(text);
        parseCount := parseCount + 1;
        if parsed.None? {
          return Err(JsonError);
        }
        cachedJson := parsed;
      }
      json := Ok(cachedJson.value);
    }
  }

  /** One instance serving two POSTs, as `use(ValidateBody, required_keys: [:a])`
      does: the first carries {"a": 1}, the second an empty body. The second
      is judged by the first request's cached body and reaches the app,
      while a fresh instance rejects the same empty POST. */
  method EmptyPostAfterValidPost() returns (first: Admission.Outcome, second: Admission.Outcome, alone: Admission.Outcome)
    ensures first == Admission.PassThrough(Response(200, map[], []))
    ensures second == Admission.PassThrough(Response(200, map[], []))
    ensures alone == Admission.Reject(Response(400, map[], []))
  {
    var body := "{\"a\": 1}";
    var parse: Parser := s => if s == body then Some(map["a" := Number(1)]) else None;
    var middleware := new ValidateBody(_ => Response(200, map[], []), parse, requiredKeys := ["a"]);
    var input1 := new InputStream(body);
    first := middleware.Call(Env("POST", input1));
    var input2 := new InputStream("");
    second := middleware.Call(Env("POST", input2));
    var another := new ValidateBody(_ => Response(200, map[], []), parse, requiredKeys := ["a"]);
    var input3 := new InputStream("");
    alone := another.Call(Env("POST", input3));
  }
}
