/** The Go HTTP server that `templates/server.go` generates: the endpoint numbering
    and `Path()` table, the authorisation decision of `Wrap` and `checkAuth`, the
    status codes of a generated handler, and the generation-time rendering of a
    handler's API call, its response assignment and its envelope structs.
    `net/http`, `encoding/json` and `context` are abstracted to the outcomes they
    report. */
module ServerTemplate {
  import opened GoStrings
  import opened Results
  import opened TemplateFuncs

  // ---------------------------------------------------------------------------
  // Endpoints

  /** `Path`: a route's constant prefix and its URL segment. */
  datatype Path = Path(camelcase: string, lowercase: string)

  /** The `Endpoint` constants in the order they are declared: route `i` is numbered
      `i`, and `AllEndpoints` is the number of routes. */
  function EndpointConstants(paths: seq<Path>): (consts: seq<(string, int)>)
    ensures |consts| == |paths| + 1
    ensures forall i :: 0 <= i < |paths| ==> consts[i] == (paths[i].camelcase + "Endpoint", i)
    ensures consts[|paths|] == ("AllEndpoints", |paths|)
  {
    seq(|paths|, i requires 0 <= i < |paths| => (paths[i].camelcase + "Endpoint", i))
      + [("AllEndpoints", |paths|)]
  }

  /** Every constant has its own value, so `AllEndpoints` never collides with a route. */
  lemma EndpointValuesDistinct(paths: seq<Path>)
    ensures forall i, j :: 0 <= i < j < |EndpointConstants(paths)| ==>
      EndpointConstants(paths)[i].1 != EndpointConstants(paths)[j].1
  {
  }

  /** A Go `switch` on an integer: the first case whose value matches wins. */
  function Switch(cases: seq<(int, string)>, v: int, default: string): string
    decreases |cases|
  {
    if |cases| == 0 then default
    else if cases[0].0 == v then cases[0].1
    else Switch(cases[1..], v, default)
  }

  lemma {:induction false} SwitchFirstMatch(cases: seq<(int, string)>, v: int, default: string, i: nat)
    requires i < |cases| && cases[i].0 == v
    requires forall j :: 0 <= j < i ==> cases[j].0 != v
    ensures Switch(cases, v, default) == cases[i].1
    decreases i
  {
    if i > 0 {
      SwitchFirstMatch(cases[1..], v, default, i - 1);
    }
  }

  lemma {:induction false} SwitchNoMatch(cases: seq<(int, string)>, v: int, default: string)
    requires forall j :: 0 <= j < |cases| ==> cases[j].0 != v
    ensures Switch(cases, v, default) == default
    decreases |cases|
  {
    if |cases| > 0 {
      SwitchNoMatch(cases[1..], v, default);
    }
  }

  /** The cases of the generated `Path()` switch, in the order written. */
  function PathCases(paths: seq<Path>): seq<(int, string)>
  {
    [(|paths|, "**")] + seq(|paths|, i requires 0 <= i < |paths| => (i, "/" + paths[i].lowercase))
  }

  /** `Endpoint.Path()`: `AllEndpoints` is `**`, route `i` is `/` and its lower-case
      segment, and any other value has no path. */
  function EndpointPath(paths: seq<Path>, ep: int): (p: string)
    ensures ep == |paths| ==> p == "**"
    ensures 0 <= ep < |paths| ==> p == "/" + paths[ep].lowercase
    ensures (ep < 0 || ep > |paths|) ==> p == ""
  {
    var cases := PathCases(paths);
    if ep == |paths| then
      SwitchFirstMatch(cases, ep, "", 0);
      Switch(cases, ep, "")
    else if 0 <= ep < |paths| then
      assert cases[ep + 1] == (ep, "/" + paths[ep].lowercase);
      SwitchFirstMatch(cases, ep, "", ep + 1);
      Switch(cases, ep, "")
    else
      SwitchNoMatch(cases, ep, "");
      Switch(cases, ep, "")
  }

  // ---------------------------------------------------------------------------
  // Authorisation

  /** What an authorisation predicate returned: `(true, nil)`, `(false, nil)`, or an
      error. */
  datatype Verdict = Granted | Refused | Errored

  /** An authorisation function, applied to the trimmed token; the request context
      it also receives is not modelled. */
  type Predicate = string -> Verdict

  /** An incoming request: its method and its `Authorization` header. */
  datatype Request = Request(verb: string, authorization: string)

  /** What `checkAuth` returns, with the body it has already written itself. */
  datatype CheckResult = CheckResult(allow: bool, msg: string, status: int, written: string)

  const StatusOK: int := 200
  const StatusBadRequest: int := 400
  const StatusUnauthorized: int := 401
  const StatusInternalServerError: int := 500

  /** The two messages `checkAuth` answers with. */
  const Unauthorised: string := "unauthorised"
  const NoToken: string := "no authorization token present"

  /** `checkAuth`: the predicate sees the trimmed header. An error writes
      `unauthorised` at once and reports `no authorization token present`; a refusal
      reports `unauthorised`; both with 401. */
  function CheckAuth(header: string, authFunc: Predicate): (c: CheckResult)
    ensures c.allow <==> authFunc(TrimSpace(header)) == Granted
    ensures authFunc(TrimSpace(header)) == Granted ==> c == CheckResult(true, "", StatusOK, "")
    ensures authFunc(TrimSpace(header)) == Refused ==> c == CheckResult(false, Unauthorised, StatusUnauthorized, "")
    ensures authFunc(TrimSpace(header)) == Errored ==>
      c == CheckResult(false, NoToken, StatusUnauthorized, Unauthorised + "\n")
  {
    match authFunc(TrimSpace(header))
    case Errored => CheckResult(false, NoToken, StatusUnauthorized, Unauthorised + "\n")
    case Refused => CheckResult(false, Unauthorised, StatusUnauthorized, "")
    case Granted => CheckResult(true, "", StatusOK, "")
  }

  /** A response: the status of the first `WriteHeader` and everything written. */
  datatype Response = Response(status: int, body: string)

  /** The response to a refused check: `http.Error(w, msg, reason)` after whatever
      `checkAuth` wrote. The first status written stands. */
  function Refusal(c: CheckResult): Response {
    Response(c.status, c.written + c.msg + "\n")
  }

  /** Which check ran. */
  datatype Guard = Basic | AllRoutes | Route

  /** `Wrap` either answers the request itself or passes it on to the handler. */
  datatype Decision = Answered(response: Response) | Dispatched

  datatype WrapResult = WrapResult(decision: Decision, checked: seq<Guard>)

  /** The wrapper `Wrap(e, fn)` puts around every handler; `allEndpoints` is the value
      of `AllEndpoints`, `basic` the mandatory check and `additional` the
      `AdditionalAuth` configuration. */
  function Wrap(allEndpoints: int, e: int, basic: Predicate, additional: map<int, Predicate>, r: Request): (w: WrapResult)
    ensures w.checked == [] <==> r.verb == "OPTIONS"
    ensures r.verb == "OPTIONS" ==> w.decision == Answered(Response(StatusOK, ""))
    ensures r.verb != "OPTIONS" ==> w.checked[0] == Basic && |w.checked| <= 2
    ensures r.verb != "OPTIONS" && w.decision.Answered? ==> w.decision.response.status == StatusUnauthorized
  {
    if r.verb == "OPTIONS" then WrapResult(Answered(Response(StatusOK, "")), [])
    else
      var b := CheckAuth(r.authorization, basic);
      if !b.allow then WrapResult(Answered(Refusal(b)), [Basic])
      else if allEndpoints in additional then
        var a := CheckAuth(r.authorization, additional[allEndpoints]);
        if !a.allow then WrapResult(Answered(Refusal(a)), [Basic, AllRoutes])
        else WrapResult(Dispatched, [Basic, AllRoutes])
      else if e in additional then
        var a := CheckAuth(r.authorization, additional[e]);
        if !a.allow then WrapResult(Answered(Refusal(a)), [Basic, Route])
        else WrapResult(Dispatched, [Basic, Route])
      else WrapResult(Dispatched, [Basic])
  }

  /** Every other request is checked by the basic predicate first, and a failed basic
      check ends it with 401 before any other check. */
  lemma WrapBasicFirst(allEndpoints: int, e: int, basic: Predicate, additional: map<int, Predicate>, r: Request)
    requires r.verb != "OPTIONS"
    ensures var w := Wrap(allEndpoints, e, basic, additional, r);
      |w.checked| > 0 && w.checked[0] == Basic
      && (basic(TrimSpace(r.authorization)) != Granted ==>
            w.checked == [Basic] && w.decision.Answered? && w.decision.response.status == StatusUnauthorized)
  {
    var b := CheckAuth(r.authorization, basic);
    var w := Wrap(allEndpoints, e, basic, additional, r);
    if !b.allow {
      assert w.checked == [Basic] && w.decision == Answered(Refusal(b));
    } else {
      assert w.checked[..1] == [Basic];
    }
  }

  /** With an `AllEndpoints` entry, the route's own entry is never consulted: the
      outcome is the same for every route. */
  lemma WrapAllEndpointsOverrides(allEndpoints: int, e1: int, e2: int, basic: Predicate, additional: map<int, Predicate>, r: Request)
    requires allEndpoints in additional
    ensures Route !in Wrap(allEndpoints, e1, basic, additional, r).checked
    ensures Wrap(allEndpoints, e1, basic, additional, r) == Wrap(allEndpoints, e2, basic, additional, r)
  {
  }

  /** Without an `AllEndpoints` entry, a route with no entry of its own runs only the
      basic check. */
  lemma WrapUnconfiguredRoute(allEndpoints: int, e: int, basic: Predicate, additional: map<int, Predicate>, r: Request)
    requires r.verb != "OPTIONS" && allEndpoints !in additional && e !in additional
    ensures Wrap(allEndpoints, e, basic, additional, r).checked == [Basic]
  {
  }

  /** The handler runs exactly when the request is not a pre-flight, the basic check
      grants the trimmed token, and so does the `AllEndpoints` check when there is one,
      or else the route's own check when there is one. */
  lemma WrapDispatchIff(allEndpoints: int, e: int, basic: Predicate, additional: map<int, Predicate>, r: Request)
    ensures var t := TrimSpace(r.authorization);
      Wrap(allEndpoints, e, basic, additional, r).decision == Dispatched <==>
        r.verb != "OPTIONS"
        && basic(t) == Granted
        && (allEndpoints in additional ==> additional[allEndpoints](t) == Granted)
        && (allEndpoints !in additional && e in additional ==> additional[e](t) == Granted)
  {
  }

  /** A refusal is always 401, and its body depends only on how the deciding check
      failed. */
  lemma WrapRefusals(allEndpoints: int, e: int, basic: Predicate, additional: map<int, Predicate>, r: Request)
    requires r.verb != "OPTIONS"
    requires Wrap(allEndpoints, e, basic, additional, r).decision.Answered?
    ensures var resp := Wrap(allEndpoints, e, basic, additional, r).decision.response;
      resp.status == StatusUnauthorized
      && (resp.body == Unauthorised + "\n" || resp.body == Unauthorised + "\n" + NoToken + "\n")
  {
    var b := CheckAuth(r.authorization, basic);
    if !b.allow {
      RefusalShape(r.authorization, basic);
    } else if allEndpoints in additional {
      RefusalShape(r.authorization, additional[allEndpoints]);
    } else if e in additional {
      RefusalShape(r.authorization, additional[e]);
    }
  }

  lemma RefusalShape(header: string, p: Predicate)
    ensures var c := CheckAuth(header, p);
      !c.allow ==>
        Refusal(c).status == StatusUnauthorized
        && (Refusal(c).body == Unauthorised + "\n" || Refusal(c).body == Unauthorised + "\n" + NoToken + "\n")
  {
    var c := CheckAuth(header, p);
    if p(TrimSpace(header)) == Refused {
      assert c.written + c.msg == Unauthorised;
    }
  }

  /** Only the trimmed header matters: white space around the token changes nothing. */
  lemma WrapSeesTrimmedToken(allEndpoints: int, e: int, basic: Predicate, additional: map<int, Predicate>, r1: Request, r2: Request)
    requires r1.verb == r2.verb
    requires TrimSpace(r1.authorization) == TrimSpace(r2.authorization)
    ensures Wrap(allEndpoints, e, basic, additional, r1) == Wrap(allEndpoints, e, basic, additional, r2)
  {
    var h1, h2 := r1.authorization, r2.authorization;
    CheckAuthSeesTrimmedToken(h1, h2, basic);
    if allEndpoints in additional {
      CheckAuthSeesTrimmedToken(h1, h2, additional[allEndpoints]);
    }
    if e in additional {
      CheckAuthSeesTrimmedToken(h1, h2, additional[e]);
    }
  }

  lemma CheckAuthSeesTrimmedToken(h1: string, h2: string, p: Predicate)
    requires TrimSpace(h1) == TrimSpace(h2)
    ensures CheckAuth(h1, p) == CheckAuth(h2, p)
  {
  }

  // ---------------------------------------------------------------------------
  // A generated handler at run time

  /** What the library calls of a handler report: reading the body, decoding it into
      the request envelope, calling the API with the token and the decoded request,
      and encoding the response envelope. */
  datatype HandlerEnv = HandlerEnv(
    readBody: Result<string>,
    decode: string -> Result<string>,
    api: (string, string) -> Result<string>,
    encode: string -> Result<string>)

  /** The response, and the API call made if any: the context token and the request. */
  datatype HandlerRun = HandlerRun(response: Response, apiCall: Option<(string, string)>)

  /** `Handle<Method>`: a body that cannot be read or decoded is 400, an API or encoding
      error is 500, otherwise 200 with the encoded response; errors are answered with
      their message. The API sees the trimmed `Authorization` header in its context. */
  function Handle(env: HandlerEnv, header: string): (run: HandlerRun)
    ensures run.response.status in {StatusOK, StatusBadRequest, StatusInternalServerError}
    ensures run.apiCall.Some? <==> env.readBody.Ok? && env.decode(env.readBody.value).Ok?
    ensures run.apiCall.Some? ==>
      run.apiCall.value == (TrimSpace(header), env.decode(env.readBody.value).value)
    ensures run.response.status == StatusBadRequest <==> run.apiCall.None?
    ensures run.response.status == StatusInternalServerError <==>
      run.apiCall.Some?
      && (env.api(run.apiCall.value.0, run.apiCall.value.1).Failed?
          || env.encode(env.api(run.apiCall.value.0, run.apiCall.value.1).value).Failed?)
    ensures run.response.status == StatusOK ==>
      run.response.body == env.encode(env.api(run.apiCall.value.0, run.apiCall.value.1).value).value
  {
    match env.readBody
    case Failed(e) => HandlerRun(Response(StatusBadRequest, e), None)
    case Ok(b) =>
      match env.decode(b)
      case Failed(e) => HandlerRun(Response(StatusBadRequest, e), None)
      case Ok(req) =>
        var t := TrimSpace(header);
        var call := Some((t, req));
        match env.api(t, req)
        case Failed(e) => HandlerRun(Response(StatusInternalServerError, e), call)
        case Ok(resp) =>
          match env.encode(resp)
          case Failed(e) => HandlerRun(Response(StatusInternalServerError, e), call)
          case Ok(body) => HandlerRun(Response(StatusOK, body), call)
  }

  // ---------------------------------------------------------------------------
  // Rendering a handler

  /** `HTTPHandler`, with the two envelope field lists. */
  datatype Handler = Handler(
    methodName: string,
    requestType: string,
    params: seq<string>,
    results: seq<string>,
    responseType: string,
    responseParams: seq<string>,
    request: seq<TypeSignature>,
    response: seq<TypeSignature>)

  /** The statement that calls the API: the results, `=` when there is exactly one
      result and `:=` otherwise, then `api.<Method>(ctx, req.<Param>...)` with every
      parameter name camel-cased. */
  function RenderApiCall(h: Handler): (r: Result<string>)
    ensures r.Failed? <==> "" in h.params
  {
    match CamelAll(h.params)
    case Failed(e) => Failed(e)
    case Ok(camel) =>
      var args := seq(|camel|, i requires 0 <= i < |camel| => "req." + camel[i]);
      Ok(RangeSep(h.results) + (if |h.results| == 1 then " = " else " := ")
         + "api." + h.methodName + "(" + ("ctx" + PrefixEach(args, ", ")) + ")")
  }

  /** The call assigns the results joined with `, `, and passes `ctx` and then
      `req.<Param>` for each parameter in order, joined with `, `. */
  lemma ApiCallShape(h: Handler)
    requires "" !in h.params
    ensures var args := seq(|h.params|, i requires 0 <= i < |h.params| => "req." + Camel(h.params[i]));
      RenderApiCall(h) == Ok(Join(h.results, ", ") + (if |h.results| == 1 then " = " else " := ")
                             + "api." + h.methodName + "(" + Join(["ctx"] + args, ", ") + ")")
  {
    var camel := CamelAll(h.params).value;
    var args := seq(|camel|, i requires 0 <= i < |camel| => "req." + camel[i]);
    assert args == seq(|h.params|, i requires 0 <= i < |h.params| => "req." + Camel(h.params[i]));
    RangeSepIsJoin(h.results);
    PrefixEachAfterFirst("ctx", args, ", ");
  }

  /** How a response parameter is written on the left of the response assignment,
      as written: `_` as itself, any other name after `resp.`, and every name,
      including the empty one the `else if` is there for, through `ToCamelCase`. */
  function AssignTargetAsWritten(p: string): (r: Result<string>)
    ensures r.Failed? <==> p == ""
  {
    match ToCamelCase(p)
    case Failed(e) => Failed(e)
    case Ok(c) => Ok((if p == "_" then "" else if p != "" then "resp." else "") + c)
  }

  /** The left-hand targets as written, one per response parameter. */
  function TargetsAsWritten(ps: seq<string>): (r: Result<seq<string>>)
    ensures r.Failed? <==> "" in ps
    ensures r.Ok? ==> |r.value| == |ps| && forall i :: 0 <= i < |ps| ==> AssignTargetAsWritten(ps[i]) == Ok(r.value[i])
    decreases |ps|
  {
    if |ps| == 0 then Ok([])
    else
      match AssignTargetAsWritten(ps[0])
      case Failed(e) => Failed(e)
      case Ok(t) =>
        match TargetsAsWritten(ps[1..])
        case Failed(e) => Failed(e)
        case Ok(rest) =>
          assert forall i :: 0 < i < |ps| ==> ps[i] == ps[1..][i - 1];
          Ok([t] + rest)
  }

  /** The response assignment as written: the targets, then ` = ` and the results. */
  function ResponseAssignAsWritten(h: Handler): (r: Result<string>)
    ensures r.Failed? <==> "" in h.responseParams
  {
    match TargetsAsWritten(h.responseParams)
    case Failed(e) => Failed(e)
    case Ok(targets) => Ok(RangeSep(targets) + " = " + RangeSep(h.results))
  }

  /** The empty-name branch of the response assignment can never be taken: a handler
      with an empty response parameter fails to render at all. */
  lemma EmptyResponseParamFails()
    ensures ResponseAssignAsWritten(Handler("Ping", "Ping", [], ["ok", "err"], "Ping", [""], [], [])).Failed?
  {
  }

  /** How a response parameter is written on the left, as evidently intended: `_` as
      itself, the empty name as nothing, any other name as `resp.` and the name
      camel-cased. */
  function AssignTarget(p: string): string {
    if p == "_" then "_" else if p == "" then "" else "resp." + Camel(p)
  }

  /** The left-hand targets, one per response parameter. */
  function Targets(ps: seq<string>): (ts: seq<string>)
    ensures |ts| == |ps| && forall i :: 0 <= i < |ps| ==> ts[i] == AssignTarget(ps[i])
  {
    seq(|ps|, i requires 0 <= i < |ps| => AssignTarget(ps[i]))
  }

  /** The response assignment as evidently intended: the targets joined with `, `,
      then ` = ` and the results joined with `, `. It always renders, and wherever the
      code as written renders it gives the same text. */
  function ResponseAssign(h: Handler): (r: string)
    ensures r == Join(Targets(h.responseParams), ", ") + " = " + Join(h.results, ", ")
  {
    var targets := Targets(h.responseParams);
    RangeSepIsJoin(targets);
    RangeSepIsJoin(h.results);
    RangeSep(targets) + " = " + RangeSep(h.results)
  }

  lemma AssignTargetAgrees(p: string)
    requires p != ""
    ensures AssignTargetAsWritten(p) == Ok(AssignTarget(p))
  {
    if p == "_" {
      assert !IsLowerAscii(p[0]);
      CamelOfExported(p);
      assert "" + p == p;
    }
  }

  /** Where the code as written renders, it writes what the corrected version
      writes. */
  lemma ResponseAssignAgrees(h: Handler)
    requires "" !in h.responseParams
    ensures ResponseAssignAsWritten(h) == Ok(ResponseAssign(h))
  {
    var ps := h.responseParams;
    var targets := Targets(ps);
    var written := TargetsAsWritten(ps).value;
    forall i | 0 <= i < |ps| ensures written[i] == targets[i] {
      AssignTargetAgrees(ps[i]);
    }
    assert written == targets;
    assert ResponseAssignAsWritten(h) == Ok(RangeSep(targets) + " = " + RangeSep(h.results));
    RangeSepIsJoin(targets);
    RangeSepIsJoin(h.results);
  }

  /** One member of a generated envelope struct: a single value is `Name Type`, a
      slice `Name []Type`, the type qualified by its package when it has one;
      unclassified fields are left out. */
  function EnvelopeMember(f: TypeSignature): (r: Result<Option<string>>)
    ensures r.Failed? <==> (f.arity == Single || f.arity == Slice) && f.name == ""
    ensures r.Ok? && r.value.Some? ==> f.arity == Single || f.arity == Slice
    ensures r.Ok? && (f.arity == Single || f.arity == Slice) ==>
      r.value == Some("\t" + Camel(f.name) + (if f.arity == Slice then " []" else " ")
                      + (if f.goPackage != "" then f.goPackage + "." else "") + f.kind)
  {
    if f.arity != Single && f.arity != Slice then Ok(None)
    else
      match ToCamelCase(f.name)
      case Failed(e) => Failed(e)
      case Ok(n) =>
        Ok(Some("\t" + n + (if f.arity == Slice then " []" else " ")
                + (if f.goPackage != "" then f.goPackage + "." else "") + f.kind))
  }

  /** The members of an envelope struct: line `j` is the member of the `j`-th
      declared field. */
  function EnvelopeMembers(fields: seq<TypeSignature>): (r: Result<seq<string>>)
    ensures r.Failed? <==> exists i :: 0 <= i < |fields| && EnvelopeMember(fields[i]).Failed?
    ensures r.Ok? ==> |r.value| == |Declared(fields)|
    ensures r.Ok? ==> forall j :: 0 <= j < |r.value| ==> EnvelopeMember(Declared(fields)[j]) == Ok(Some(r.value[j]))
    decreases |fields|
  {
    if |fields| == 0 then Ok([])
    else
      match EnvelopeMember(fields[0])
      case Failed(e) => Failed(e)
      case Ok(m) =>
        match EnvelopeMembers(fields[1..])
        case Failed(e) =>
          var i :| 0 <= i < |fields[1..]| && EnvelopeMember(fields[1..][i]).Failed?;
          assert fields[i + 1] == fields[1..][i];
          Failed(e)
        case Ok(rest) =>
          assert forall i :: 0 < i < |fields| ==> fields[i] == fields[1..][i - 1];
          EnvelopeMembersStep(fields, m, rest);
          Ok((if m.Some? then [m.value] else []) + rest)
  }

  lemma EnvelopeMembersStep(fields: seq<TypeSignature>, m: Option<string>, rest: seq<string>)
    requires |fields| > 0 && EnvelopeMember(fields[0]) == Ok(m)
    requires |rest| == |Declared(fields[1..])|
    requires forall j :: 0 <= j < |rest| ==> EnvelopeMember(Declared(fields[1..])[j]) == Ok(Some(rest[j]))
    ensures var r := (if m.Some? then [m.value] else []) + rest;
      |r| == |Declared(fields)|
      && forall j :: 0 <= j < |r| ==> EnvelopeMember(Declared(fields)[j]) == Ok(Some(r[j]))
  {
    var declared := Declared(fields);
    assert declared == (if fields[0].arity == Single || fields[0].arity == Slice then [fields[0]] else [])
                       + Declared(fields[1..]);
  }

  /** The fields a generated struct declares: singles and slices, in order. */
  function Declared(fields: seq<TypeSignature>): seq<TypeSignature>
    decreases |fields|
  {
    if |fields| == 0 then []
    else (if fields[0].arity == Single || fields[0].arity == Slice then [fields[0]] else [])
         + Declared(fields[1..])
  }

  /** `type <Name><Suffix> struct { ... }`, one member per line. */
  function RenderEnvelope(typeName: string, suffix: string, fields: seq<TypeSignature>): (r: Result<string>)
    ensures r.Failed? <==> EnvelopeMembers(fields).Failed?
    ensures r.Ok? ==> r.value == "type " + typeName + suffix + " struct {" + NewlineEach(EnvelopeMembers(fields).value) + "\n}"
  {
    match EnvelopeMembers(fields)
    case Failed(e) => Failed(e)
    case Ok(members) => Ok("type " + typeName + suffix + " struct {" + NewlineEach(members) + "\n}")
  }

  /** The two envelope structs of a handler. Both are named after its `RequestType`:
      `<RequestType>Request` for the parameters and `<RequestType>Response` for the
      results. */
  function HandlerEnvelopes(h: Handler): (r: Result<(string, string)>)
    ensures r.Failed? <==> EnvelopeMembers(h.request).Failed? || EnvelopeMembers(h.response).Failed?
    ensures r.Ok? ==> r.value.0 == RenderEnvelope(h.requestType, "Request", h.request).value
    ensures r.Ok? ==> r.value.1 == RenderEnvelope(h.requestType, "Response", h.response).value
  {
    match RenderEnvelope(h.requestType, "Request", h.request)
    case Failed(e) => Failed(e)
    case Ok(req) =>
      match RenderEnvelope(h.requestType, "Response", h.response)
      case Failed(e) => Failed(e)
      case Ok(resp) => Ok((req, resp))
  }

  /** The handler's declaration of the response it encodes, named after its
      `ResponseType`. */
  function ResponseVar(h: Handler): string {
    "var resp " + h.responseType + "Response"
  }

  /** The handler's `resp` has the type of the response envelope declared for it
      exactly when its `ResponseType` is its `RequestType`. */
  lemma ResponseVarNamesEnvelope(h: Handler)
    ensures ResponseVar(h) == "var resp " + h.requestType + "Response" <==> h.responseType == h.requestType
  {
    if ResponseVar(h) == "var resp " + h.requestType + "Response" {
      var a, b := ResponseVar(h), "var resp " + h.requestType + "Response";
      assert |h.responseType| == |h.requestType|;
      assert a[9..9 + |h.responseType|] == h.responseType;
      assert b[9..9 + |h.requestType|] == h.requestType;
    }
  }

  /** Read back line by line, the struct body holds exactly one line per declared
      field. */
  lemma EnvelopeLines(fields: seq<TypeSignature>)
    requires EnvelopeMembers(fields).Ok?
    requires forall k :: 0 <= k < |EnvelopeMembers(fields).value| ==> '\n' !in EnvelopeMembers(fields).value[k]
    ensures var members := EnvelopeMembers(fields).value;
      Split(NewlineEach(members), '\n') == [""] + members && |members| == |Declared(fields)|
  {
    SplitNewlineEach(EnvelopeMembers(fields).value);
  }
}
