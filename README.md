# ValidateBody: a Dafny model of a request-body validation middleware

`ValidateBody` is a Rack middleware. It wraps an app and checks the JSON body of
every POST and PUT request. The body text must not be `''`. It must parse to an
object with at least one key. It must hold every key listed in `required_keys`
at its top level. A request that fails a check gets a locally built
`[400, {}, []]` and never reaches the app. Any other POST or PUT is handed to
the app, and so is every request with another verb. The body stream is
rewound before each delegation. The body text and its parse are memoized in
`@request_body` and `@request_json_body`.

The model has five modules:

- `Wrappers`: `Option` and `Result`.
- `Json`: JSON values, `Object` (a map from string keys to values), `JsonError`
  and `Parser`. A `Parser` is `JSON.parse` followed by the `returns(Hash)`
  signature check on `request_json_body` (validate_body.rb:77), given as a
  function value. `None` means one of the two raised: `JSON.parse` on bad
  text, or the signature check (sorbet-runtime raises `TypeError`) when the
  top level is not an object.
- `Rack`: the response triple, `IsPost`/`IsPut`, the request `Env`, and the
  rewindable body stream `InputStream` with its `Rewind` and `Read`.
- `Admission`: the pure part of the middleware.
  - `EmptyBody` and `NotAllRequiredKeys` model the source's predicates, and
    `HaltRequest` its rejection response.
  - `Without` models Ruby's `Array#-`.
  - `Decide` gives the branches of `call`. `Admissible` states the same rule
    without the evaluation order.
  - The memo is the `Memo` datatype. `NextMemo` is what one call does to it,
    and `Outcomes` runs a sequence of calls on one instance. `ScopedOutcomes`
    is the corrected run, in which the memo is scoped to one call.
- `Middlewares`: the class `ValidateBody`. It has the memo fields, `@request`,
  `app` and `required_keys`. `call`, `app_call_after_rewind`, `empty_body?`,
  `not_all_required_keys?`, `request_body` and `request_json_body` are methods
  of the class, each proved against `Admission`. `halt_request` reads no state,
  so it is the function `Admission.HaltRequest`.

The wrapped app is a function from the request it reads (its verb and the body
text from the cursor onwards) to a response. So "the stream is rewound before
the app is called" shows up as "the app is called with the whole body".
Three ghost records track the side effects:

- `appCalls` logs every call to the app.
- `readCount` on the stream counts reads.
- `parseCount` counts runs of `JSON.parse`.

Keys are strings on both sides. The source turns the parsed JSON keys into
symbols so that they match a symbol-valued `required_keys`
(validate_body.rb:61). Comparing strings with strings is equivalent.

A body that is not empty but does not parse to an object makes `call` raise.
Nothing in the code rescues it, so the model's outcome is `Raised`, not a 400.

The memo lives on the middleware instance; see "## Findings".

## Model

| member | source | states |
|---|---|---|
| `Rack.InputStream.Rewind` | validate_body.rb:49 | after `rewind` the cursor is at 0, so a reader gets the whole body |
| `Rack.InputStream.Read` | validate_body.rb:73 | `read` returns the text from the cursor onwards and leaves the cursor at end-of-body; each read is counted |
| `Admission.HaltRequest` | validate_body.rb:65-67 | the rejection is status 400 with no headers and an empty body |
| `Admission.Without` | validate_body.rb:61 | `Array#-`: the result holds exactly the required keys that are not among the object's keys, and is no longer than the required keys |
| `Admission.NotAllRequiredKeys` | validate_body.rb:58-62 | true exactly when some required key is not a top-level key of the parsed object |
| `Admission.EmptyBody` | validate_body.rb:53-56 | raises exactly when the text is not `''` and does not parse to an object; is false exactly when the text parses to an object with at least one key |
| `Admission.Decide` | validate_body.rb:33-43 | a delegated response is the app's, unchanged; a rejection is always the `halt_request` response; the call raises exactly for a POST/PUT whose body is not `''` and does not parse to an object |
| `Admission.NonWriteIsDelegated` | validate_body.rb:36-37 | a request that is neither POST nor PUT gets the app's response, whatever its body, the parser or `required_keys` |
| `Admission.EmptyTextRejectedWithoutParsing` | validate_body.rb:55 | a POST/PUT with body `''` gets the fixed 400; the outcome is the same under any parser, so no parse happens |
| `Admission.EmptyObjectRejected` | validate_body.rb:54-56 | a POST/PUT whose body parses to `{}` gets the fixed 400, whatever `required_keys` is |
| `Admission.RejectedIffKeyMissing` | validate_body.rb:38-43 | a POST/PUT with a non-empty object is rejected exactly when some required key is missing, and otherwise gets the app's response |
| `Admission.DecideMatchesAdmissible` | validate_body.rb:33-43 | the call delegates exactly when the declarative admission rule holds |
| `Admission.ExtraKeysIrrelevant` | validate_body.rb:61 | adding top-level keys to an admitted body never gets it rejected |
| `Admission.DefaultKeysAdmitNonEmptyObject` | validate_body.rb:27 | with the default empty `required_keys`, every request whose body is a non-empty object gets the app's response |
| `Admission.RequiredKeysExamples` | validate_body_spec.rb:13-29 | with `required_keys` a and b: `{"something": null}` and `{"a": 1}` get 400, and `{"a": true, "b": true}` gets the app's response |
| `Admission.NextMemo` | validate_body.rb:70-80 | one call keeps the cached parse equal to the parse of the cached body, never replaces a cached body or a cached parse, and leaves a body cached after any POST/PUT |
| `Admission.Outcomes` | validate_body.rb:33-43 | over any sequence of calls on one instance, one outcome per call; a request that is not POST/PUT always gets the app's response, and a rejection is always the fixed 400 |
| `Admission.BodyReadAtMostOnce` | validate_body.rb:70-75 | over any sequence of calls on one instance, body streams are read at most once in total, and never once a body is cached |
| `Admission.ParsedSuccessfullyAtMostOnce` | validate_body.rb:78-80 | over any sequence of calls on one instance, `JSON.parse` succeeds at most once, and never once a parse is cached |
| `Admission.FailedParseRetriedOnEveryWrite` | validate_body.rb:78-80 | when the cached body does not parse, every later POST/PUT runs `JSON.parse` again, exactly once each |
| `Admission.CachedBodyJudgesLaterWrites` | validate_body.rb:70-80 | once a body is cached, every later POST/PUT on the instance is decided on the cached text, not on its own body |
| `Admission.RetryGivesSameOutcome` | validate_body.rb:33-43 | the same request sent twice to one instance gets the same outcome both times |
| `Admission.EmptyPostAfterValidPostIsAdmitted` | validate_body.rb:70-75 | as written: after an admitted POST, an empty POST on the same instance gets the app's response, although on its own it gets 400 |
| `Admission.ScopedOutcomes` | validate_body.rb:33-43 | corrected: with the memo scoped to one call, every request in any sequence is decided on its own body |
| `Admission.ScopedMatchesFreshInstance` | validate_body.rb:27-43 | each request of the corrected run gets the outcome that a fresh instance of the code as written gives it |
| `Admission.NoWritesAgree` | validate_body.rb:36-37 | with no POST/PUT in a sequence, the run as written and the corrected run agree, from any cache state |
| `Admission.OneWriteAgrees` | validate_body.rb:33-43 | on a fresh instance serving at most one POST/PUT, the run as written and the corrected run agree |
| `Middlewares.ValidateBody.constructor` | validate_body.rb:27-30 | stores the app and `required_keys` (default empty); nothing is cached, read, parsed or delegated yet |
| `Middlewares.ValidateBody.Call` | validate_body.rb:33-43 | the outcome is `Decide` on the verb and the text `request_body` yields (the cached one if there is one); the memo moves by `NextMemo`; the app is called once, with the whole body, exactly on delegation; the stream is at 0 after a delegation, at end-of-body after a first read that rejects or raises, untouched otherwise; it is read only when no body was cached, and parsed only when no parse was cached and the text is not `''` |
| `Middlewares.ValidateBody.CallScoped` | validate_body.rb:33-43 | corrected call: the memo is cleared first, so the outcome is `Decide` on the request's own body whatever was cached before, and every POST/PUT reads its stream |
| `Middlewares.ValidateBody.AppCallAfterRewind` | validate_body.rb:47-51 | rewinds, then returns the app's response for the whole body, and logs exactly that one app call |
| `Middlewares.ValidateBody.EmptyBody` | validate_body.rb:53-56 | gives `Admission.EmptyBody` of the `request_body` text; parses only when that text is not `''` and no parse is cached |
| `Middlewares.ValidateBody.NotAllRequiredKeys` | validate_body.rb:58-62 | gives `Admission.NotAllRequiredKeys` of the parsed body, or raises when the body does not parse |
| `Middlewares.ValidateBody.RequestBody` | validate_body.rb:69-75 | the first time, rewinds, reads the whole body once and caches it; after that returns the cached text and leaves the stream alone |
| `Middlewares.ValidateBody.RequestJsonBody` | validate_body.rb:77-80 | returns the parse of the `request_body` text or raises; runs `JSON.parse` exactly when no parse is cached; caches a successful parse, and a failed parse caches nothing |
| `Middlewares.EmptyPostAfterValidPost` | validate_body.rb:70-80 | as written, on the class: with `required_keys: [:a]`, the POST `{"a": 1}` and then an empty POST through one instance both reach the app; a fresh instance answers the empty POST with 400 |

## Left out

- Rack plumbing: `Rack::Request.new(env)`, the env hash beyond `REQUEST_METHOD` and `rack.input`, and `Rack::Response#finish` beyond its `[400, {}, []]` triple.
- What the wrapped app does. It is a pure function from the request it reads to its response. Its own reads of the stream, its side effects and its exceptions are not modelled.
- `JSON.parse` internals. It is a parameter of type `Parser`.
- Middlewares.ValidateBody.RequestJsonBody: when the top level of the body is an array, a string, a number or `true`, Ruby stores that value in `@request_json_body` before the `returns(Hash)` check raises. Later calls then raise again without parsing. The model caches nothing there and parses again: the outcomes (`Raised`) are the same and only `parseCount` differs. A top-level `null` or `false` leaves the field nil in Ruby too, as modelled.
- The remaining Sorbet signatures (validate_body.rb:21-25, 32, 47, 53, 58, 64, 69) only check types that the model's own types already fix. This includes `returns(Array)` on `call`, which holds for any Rack response.
- Floating-point JSON numbers. Numbers are integers here, and values are never inspected.
- Threads. One instance serving requests concurrently shares the memo fields in the same way as in the finding below; the model has sequential calls only.
- Ruby's `||=` re-evaluates when the memo holds `nil` or `false`. `read` always returns a string, and a successful parse here is a hash, so a filled memo is never re-evaluated, as modelled.

## Findings

| source | as written | input that shows it | evidently intended | confidence | as-written member | corrected member |
|---|---|---|---|---|---|---|
| validate_body.rb:70-80 | `@request_body` and `@request_json_body` are memoized on the middleware instance and never cleared, so every POST/PUT after the first one on an instance is decided on the first body | `use(ValidateBody, required_keys: [:a])` with one instance: POST `{"a": 1}`, then POST with an empty body; the second reaches the app instead of getting 400 | each request is decided on its own body (the rewind at line 72 guards against an earlier middleware having read this request's body, a per-request concern) | medium, not executed (depends on the middleware instance being reused across requests, as in a Sinatra stack built once) | `Admission.EmptyPostAfterValidPostIsAdmitted` | `Admission.ScopedOutcomes` |
