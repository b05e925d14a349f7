/**
 * The policy interpreter of policy_intepreter.go: request validation
 * against the supported body types, and the choice of a response of a
 * matched definition by evaluating its rules.
 *
 * The rule language is foreign to the model: the evaluator is a parameter
 * that maps a rule and the rule context to a boolean or an error.
 */
module PolicyInterpreter {
  import opened Wrappers
  import opened Errors
  import opened Model
  import Collection

  const XmlMimeTypes: seq<string> := ["application/xml", "application/soap+xml", "text/xml"]
  const FormMimeTypes: seq<string> := ["application/x-www-form-urlencoded", "multipart/form-data"]
  const JsonMimeTypes: seq<string> := ["application/json"]
  /** JSON, then XML, then form types. */
  const BodyMimeTypes: seq<string> := JsonMimeTypes + XmlMimeTypes + FormMimeTypes

  /** The methods whose requests carry a body that must be typed. */
  const BodyMethods: seq<string> := ["PUT", "POST", "PATCH", "DELETE"]

  /** The six supported body types. */
  lemma BodyMimeTypesListed()
    ensures BodyMimeTypes == [
      "application/json", "application/xml", "application/soap+xml", "text/xml",
      "application/x-www-form-urlencoded", "multipart/form-data"]
  {
  }

  /** `validateTarget`: `None` when the request may be served. */
  function ValidateTarget(req: IncomingRequest): (err: Option<Error>)
    ensures req.verb !in BodyMethods ==> err == None
    ensures req.verb in BodyMethods && "Content-Type" !in req.headers ==>
      err == Some(Message("unable to find content type"))
    ensures req.verb in BodyMethods && "Content-Type" in req.headers ==>
      err == (if req.headers["Content-Type"] in BodyMimeTypes then None
              else Some(Message("unsupported request content type")))
  {
    if !Collection.Exists(BodyMethods, (m: string) => m == req.verb) then None
    else if "Content-Type" !in req.headers then Some(Message("unable to find content type"))
    else
      var contentType := req.headers["Content-Type"];
      if !Collection.Exists(BodyMimeTypes, (supported: string) => supported == contentType) then
        Some(Message("unsupported request content type"))
      else None
  }

  /**
   * The missing-type error of `validateTarget` is made on the spot: it prints
   * the text of `ErrNoContentType` but is a different error value.
   */
  lemma MissingTypeNotSentinel(req: IncomingRequest)
    requires req.verb in BodyMethods && "Content-Type" !in req.headers
    ensures ValidateTarget(req).Some? && ValidateTarget(req).value != NoContentType
    ensures Text(ValidateTarget(req).value) == Text(NoContentType)
  {
  }

  /** The variables a rule is evaluated against. */
  datatype RuleContext = RuleContext(
    raw: string,
    body: map<string, Value>,
    routeParams: map<string, Value>,
    headers: map<string, Value>,
    cookies: map<string, Value>,
    queryParams: map<string, Value>)

  /** The context of a request: the raw and parsed body and every parameter map exported. */
  function ContextOf(req: IncomingRequest): (ctx: RuleContext)
    ensures ctx.raw == req.rawBody && ctx.body == req.body
    ensures ctx.routeParams.Keys == req.routeParams.Keys && ctx.headers.Keys == req.headers.Keys
    ensures ctx.cookies.Keys == req.cookies.Keys && ctx.queryParams.Keys == req.queryParams.Keys
    ensures forall k :: k in req.routeParams ==> ctx.routeParams[k] == Str(req.routeParams[k])
    ensures forall k :: k in req.headers ==> ctx.headers[k] == Str(req.headers[k])
    ensures forall k :: k in req.cookies ==> ctx.cookies[k] == Str(req.cookies[k])
    ensures forall k :: k in req.queryParams ==> ctx.queryParams[k] == Str(req.queryParams[k])
  {
    RuleContext(req.rawBody, req.body, Exported(req.routeParams), Exported(req.headers),
                Exported(req.cookies), Exported(req.queryParams))
  }

  /** A rule evaluator: a boolean result, or an error message. */
  type Evaluator = (string, RuleContext) -> Result<bool, string>

  /** `isRuleFulfilled`: an evaluation error counts as not fulfilled. */
  predicate IsRuleFulfilled(eval: Evaluator, req: IncomingRequest, rule: string): (fulfilled: bool)
    ensures fulfilled <==> eval(rule, ContextOf(req)) == Success(true)
  {
    match eval(rule, ContextOf(req))
    case Failure(_) => false
    case Success(b) => b
  }

  /** A response that has rules, all of them fulfilled. */
  predicate Satisfied(eval: Evaluator, req: IncomingRequest, resp: MockResponse) {
    !resp.IsDefault() && Collection.Every(resp.rules, (rule: string) => IsRuleFulfilled(eval, req, rule))
  }

  /** What `find` leaves in its result: the element found, or the zero response. */
  function Found(r: Result<MockResponse, string>): MockResponse {
    if r.Success? then r.value else ZeroResponse
  }

  /**
   * `chooseResponse`: the first satisfied response with rules; failing
   * that, the first response without rules; `None` when the chosen
   * candidate is nil.
   */
  function ChooseResponse(eval: Evaluator, req: IncomingRequest, policy: Definition): (r: Option<MockResponse>)
    ensures r.Some? ==> r.value in policy.responses && !r.value.IsNil()
  {
    var correct := Found(Collection.First(policy.responses, (data: MockResponse) => Satisfied(eval, req, data)));
    if !correct.IsNil() then Some(correct)
    else
      var default := Found(Collection.First(policy.responses, (data: MockResponse) => data.IsDefault()));
      if !default.IsNil() then Some(default) else None
  }

  /** The first satisfied response is chosen, whatever defaults come before it. */
  lemma ChooseSatisfied(eval: Evaluator, req: IncomingRequest, policy: Definition, i: nat)
    requires i < |policy.responses| && Satisfied(eval, req, policy.responses[i])
    requires forall j :: 0 <= j < i ==> !Satisfied(eval, req, policy.responses[j])
    ensures ChooseResponse(eval, req, policy) == Some(policy.responses[i])
  {
    var fn := (data: MockResponse) => Satisfied(eval, req, data);
    var r := Collection.First(policy.responses, fn);
    assert Collection.Exists(policy.responses, fn);
    var k :| 0 <= k < |policy.responses| && policy.responses[k] == r.value && fn(policy.responses[k]) &&
      forall j :: 0 <= j < k ==> !fn(policy.responses[j]);
    assert k == i;
  }

  /**
   * With no satisfied response, the first response without rules is chosen,
   * unless it is nil (no status and no body).
   */
  lemma ChooseDefault(eval: Evaluator, req: IncomingRequest, policy: Definition, i: nat)
    requires forall j :: 0 <= j < |policy.responses| ==> !Satisfied(eval, req, policy.responses[j])
    requires i < |policy.responses| && policy.responses[i].IsDefault()
    requires forall j :: 0 <= j < i ==> !policy.responses[j].IsDefault()
    ensures ChooseResponse(eval, req, policy) ==
      if policy.responses[i].IsNil() then None else Some(policy.responses[i])
  {
    var fn := (data: MockResponse) => Satisfied(eval, req, data);
    assert !Collection.Exists(policy.responses, fn);
    var dn := (data: MockResponse) => data.IsDefault();
    var r := Collection.First(policy.responses, dn);
    assert Collection.Exists(policy.responses, dn);
    var k :| 0 <= k < |policy.responses| && policy.responses[k] == r.value && dn(policy.responses[k]) &&
      forall j :: 0 <= j < k ==> !dn(policy.responses[j]);
    assert k == i;
  }

  /** With neither a satisfied response nor a default one, nothing is chosen. */
  lemma ChooseNothing(eval: Evaluator, req: IncomingRequest, policy: Definition)
    requires forall j :: 0 <= j < |policy.responses| ==> !Satisfied(eval, req, policy.responses[j])
    requires forall j :: 0 <= j < |policy.responses| ==> !policy.responses[j].IsDefault()
    ensures ChooseResponse(eval, req, policy) == None
  {
    var fn := (data: MockResponse) => Satisfied(eval, req, data);
    assert !Collection.Exists(policy.responses, fn);
    var dn := (data: MockResponse) => data.IsDefault();
    assert !Collection.Exists(policy.responses, dn);
  }

  /** `findResponse`: validation first; a validation error is returned without choosing. */
  function FindResponse(eval: Evaluator, req: IncomingRequest, policy: Definition): (r: Result<Option<MockResponse>, Error>)
    ensures r.Failure? <==> (req.verb in BodyMethods &&
      ("Content-Type" !in req.headers || req.headers["Content-Type"] !in BodyMimeTypes))
    ensures r.Failure? ==> Some(r.error) == ValidateTarget(req)
    ensures r.Success? ==> r.value == ChooseResponse(eval, req, policy)
  {
    var err := ValidateTarget(req);
    if err.Some? then Failure(err.value) else Success(ChooseResponse(eval, req, policy))
  }
}
