/** The Go client method that `templates/goclient.go` writes for every API method:
    its signature, the request literal with its fields in key order, the four early
    returns on failure, the path it posts to, and the final return of the response
    fields. The text is modelled line by line: `Render` emits a newline before every
    line, which is how the template's text starts and, with its last empty line,
    how it ends. */
module GoClientTemplate {
  import opened GoStrings
  import opened TemplateFuncs

  /** `HttpClient`, the record the template renders. */
  datatype HttpClient = HttpClient(
    service: string,
    typ: string,
    methodName: string,
    params: seq<string>,
    results: seq<string>,
    requestType: string,
    request: map<string, string>,
    responseType: string,
    responseParams: seq<string>,
    returnValues: seq<string>)

  /** The first line: `ctx` and then every parameter, and the results, each list
      written with `range`. */
  function SignatureLine(cl: HttpClient): (r: string)
    ensures r == "func (c * Client) " + cl.methodName + "(" + Join(["ctx context.Context"] + cl.params, ", ")
                 + ") (" + Join(cl.results, ", ") + ") {"
  {
    RangeSepIsJoin(cl.results);
    PrefixEachAfterFirst("ctx context.Context", cl.params, ", ");
    "func (c * Client) " + cl.methodName + "(" + ("ctx context.Context" + PrefixEach(cl.params, ", "))
      + ") (" + RangeSep(cl.results) + ") {"
  }

  /** One field of the request literal. */
  function RequestEntry(k: string, v: string): string {
    "\t\t" + k + ": " + v + ","
  }

  /** The fields of the request literal, in ascending key order (see
      `GoStrings.RangeMapInKeyOrder`). */
  function RequestEntries(m: map<string, string>): (lines: seq<string>)
    ensures |lines| == |m|
    ensures forall k :: k in m ==> RequestEntry(k, m[k]) in lines
    ensures forall j :: 0 <= j < |m| ==> lines[j] == RequestEntry(SortedKeys(m)[j], m[SortedKeys(m)[j]])
  {
    RangeMapInKeyOrder(m, RequestEntry, SortedKeys(m));
    RangeMap(m, RequestEntry)
  }

  /** `req := <RequestType> {`, a line per field, and the closing brace. */
  function RequestLiteral(cl: HttpClient): (lines: seq<string>)
    ensures |lines| == |cl.request| + 2
    ensures lines[0] == "\treq := " + cl.requestType + " {" && lines[|lines| - 1] == "\t}"
    ensures forall j :: 0 <= j < |cl.request| ==>
      lines[j + 1] == RequestEntry(SortedKeys(cl.request)[j], cl.request[SortedKeys(cl.request)[j]])
  {
    var entries := RequestEntries(cl.request);
    Enclosed("\treq := " + cl.requestType + " {", entries, "\t}");
    ["\treq := " + cl.requestType + " {"] + entries + ["\t}"]
  }

  lemma Enclosed(opening: string, inner: seq<string>, closing: string)
    ensures var lines := [opening] + inner + [closing];
      |lines| == |inner| + 2 && lines[0] == opening && lines[|lines| - 1] == closing
      && forall j :: 0 <= j < |inner| ==> lines[j + 1] == inner[j]
  {
  }

  /** The statement every failure returns with: the `Return` values joined. */
  function ErrorReturn(returnValues: seq<string>): (r: string)
    ensures r == "return " + Join(returnValues, ", ")
  {
    RangeSepIsJoin(returnValues);
    "return " + RangeSep(returnValues)
  }

  /** `if err != nil { return ... }` */
  function ErrorCheck(cl: HttpClient): seq<string> {
    ["\tif err != nil {", "\t\t" + ErrorReturn(cl.returnValues), "\t}"]
  }

  /** `uniquePath`: the service and the method name as they are, each after a slash. */
  function UniquePath(cl: HttpClient): string {
    "/" + cl.service + "/" + cl.methodName
  }

  /** The path has exactly two segments, the service and the method. */
  lemma UniquePathSegments(cl: HttpClient)
    requires '/' !in cl.service && '/' !in cl.methodName
    ensures Split(UniquePath(cl), '/') == ["", cl.service, cl.methodName]
  {
    var parts := ["", cl.service, cl.methodName];
    assert parts[1..] == [cl.service, cl.methodName];
    assert [cl.service, cl.methodName][1..] == [cl.methodName];
    assert Join([cl.methodName], "/") == cl.methodName;
    assert Join([cl.service, cl.methodName], "/") == cl.service + "/" + cl.methodName;
    assert Join(parts, "/") == "" + "/" + (cl.service + "/" + cl.methodName);
    assert UniquePath(cl) == Join(parts, "/");
    SplitJoin(["", cl.service, cl.methodName], '/');
  }

  /** How a response parameter is returned: `_` as itself, an empty name as nothing,
      any other name as the field of `resp`. */
  function ReturnTarget(p: string): (r: string)
    ensures p == "_" ==> r == "_"
    ensures p == "" ==> r == ""
    ensures p != "_" && p != "" ==> r == "resp." + p
  {
    (if p == "_" then "" else if p != "" then "resp." else "") + p
  }

  function ReturnTargets(ps: seq<string>): (ts: seq<string>)
    ensures |ts| == |ps| && forall i :: 0 <= i < |ps| ==> ts[i] == ReturnTarget(ps[i])
  {
    seq(|ps|, i requires 0 <= i < |ps| => ReturnTarget(ps[i]))
  }

  /** The final return: `return nil` without response parameters, otherwise the
      targets and `nil`, all joined with `, `. */
  function FinalReturn(ps: seq<string>): (r: string)
    ensures |ps| == 0 ==> r == "return nil"
    ensures |ps| > 0 ==> r == "return " + Join(ReturnTargets(ps) + ["nil"], ", ")
  {
    var ts := ReturnTargets(ps);
    RangeSepIsJoin(ts);
    if |ps| > 0 then JoinLast(ts, "nil", ", "); (if |ps| != 0 then "return " + RangeSep(ts) + ", nil" else "")
    else (if |ps| == 0 then "return nil" else "")
  }

  /** The signature, the request literal and its marshalling. */
  function Opening(cl: HttpClient): seq<string> {
    [SignatureLine(cl)] + RequestLiteral(cl) + ["", "\tb, err := json.Marshal(req)"]
  }

  /** The request posted to the service's address and the method's path. */
  function Posting(cl: HttpClient): seq<string> {
    ["", "\tuniquePath := \"" + UniquePath(cl) + "\"",
     "\tbuf := bytes.NewBuffer(b)",
     "\thttpResp, err := ctxhttp.Post(" + "ctx, c.HttpClient, "
       + "c.Address + uniquePath, " + "\"application/json\", buf)"]
  }

  /** The response body read in full. */
  function Reading(cl: HttpClient): seq<string> {
    ["", "\trespBody, err := " + "ioutil.ReadAll(httpResp.Body)"]
  }

  /** The body decoded into the response envelope. */
  function Decoding(cl: HttpClient): seq<string> {
    ["", "\tvar resp " + cl.responseType, "\terr = json.Unmarshal(respBody, &resp)"]
  }

  /** The final return and the closing brace; the template's text ends with a
      newline. */
  function Closing(cl: HttpClient): seq<string> {
    ["", "\t" + FinalReturn(cl.responseParams), "}", ""]
  }

  /** The lines of the generated method, in order: every step that can fail is
      followed by the same early return. */
  function Lines(cl: HttpClient): seq<string> {
    Opening(cl) + ErrorCheck(cl) + Posting(cl) + ErrorCheck(cl) + Reading(cl) + ErrorCheck(cl)
      + Decoding(cl) + ErrorCheck(cl) + Closing(cl)
  }

  /** Where the steps sit, counting from the signature line: after the request
      literal's `n` fields come the marshalling, the post, the read and the decoding,
      each followed at once by the early return, then the final return and the
      closing brace. */
  lemma LinesLayout(cl: HttpClient)
    ensures var lines, n := Lines(cl), |cl.request|;
      && |lines| == n + 30
      && lines[0] == SignatureLine(cl)
      && lines[1..n + 3] == RequestLiteral(cl)
      && lines[n + 4] == "\tb, err := json.Marshal(req)" && lines[n + 5..n + 8] == ErrorCheck(cl)
      && lines[n + 9] == "\tuniquePath := \"" + UniquePath(cl) + "\""
      && lines[n + 12..n + 15] == ErrorCheck(cl)
      && lines[n + 16] == "\trespBody, err := " + "ioutil.ReadAll(httpResp.Body)"
      && lines[n + 17..n + 20] == ErrorCheck(cl)
      && lines[n + 21] == "\tvar resp " + cl.responseType
      && lines[n + 22] == "\terr = json.Unmarshal(respBody, &resp)" && lines[n + 23..n + 26] == ErrorCheck(cl)
      && lines[n + 27] == "\t" + FinalReturn(cl.responseParams) && lines[n + 28] == "}"
  {
    LinesFront(cl);
    LinesMiddle(cl);
    LinesBack(cl);
  }

  lemma LinesFront(cl: HttpClient)
    ensures var lines, n := Lines(cl), |cl.request|;
      && |lines| == n + 30
      && lines[0] == SignatureLine(cl)
      && lines[1..n + 3] == RequestLiteral(cl)
      && lines[n + 4] == "\tb, err := json.Marshal(req)" && lines[n + 5..n + 8] == ErrorCheck(cl)
  {
    var n := |cl.request|;
    var e := ErrorCheck(cl);
    var a1 := Opening(cl);
    var a2 := a1 + e;
    var a3 := a2 + Posting(cl);
    var a4 := a3 + e;
    var a5 := a4 + Reading(cl);
    var a6 := a5 + e;
    var a7 := a6 + Decoding(cl);
    var a8 := a7 + e;
    assert |a1| == n + 5 && |a2| == n + 8 && |a3| == n + 12 && |a4| == n + 15;
    assert |a5| == n + 17 && |a6| == n + 20 && |a7| == n + 23 && |a8| == n + 26;
    OpeningLayout(cl);
    Within(a1, e, 1, n + 3);
    Within(a2, Posting(cl), 1, n + 3);
    Within(a3, e, 1, n + 3);
    Within(a4, Reading(cl), 1, n + 3);
    Within(a5, e, 1, n + 3);
    Within(a6, Decoding(cl), 1, n + 3);
    Within(a7, e, 1, n + 3);
    Within(a8, Closing(cl), 1, n + 3);
    Within(a1, e, 0, n + 5);
    Within(a2, Posting(cl), 0, n + 5);
    Within(a3, e, 0, n + 5);
    Within(a4, Reading(cl), 0, n + 5);
    Within(a5, e, 0, n + 5);
    Within(a6, Decoding(cl), 0, n + 5);
    Within(a7, e, 0, n + 5);
    Within(a8, Closing(cl), 0, n + 5);
    Ends(a1, e);
    Within(a2, Posting(cl), n + 5, n + 8);
    Within(a3, e, n + 5, n + 8);
    Within(a4, Reading(cl), n + 5, n + 8);
    Within(a5, e, n + 5, n + 8);
    Within(a6, Decoding(cl), n + 5, n + 8);
    Within(a7, e, n + 5, n + 8);
    Within(a8, Closing(cl), n + 5, n + 8);
  }

  lemma LinesMiddle(cl: HttpClient)
    ensures var lines, n := Lines(cl), |cl.request|;
      && lines[n + 9] == "\tuniquePath := \"" + UniquePath(cl) + "\""
      && lines[n + 12..n + 15] == ErrorCheck(cl)
      && lines[n + 16] == "\trespBody, err := " + "ioutil.ReadAll(httpResp.Body)"
      && lines[n + 17..n + 20] == ErrorCheck(cl)
  {
    var n := |cl.request|;
    var e := ErrorCheck(cl);
    var a1 := Opening(cl);
    var a2 := a1 + e;
    var a3 := a2 + Posting(cl);
    var a4 := a3 + e;
    var a5 := a4 + Reading(cl);
    var a6 := a5 + e;
    var a7 := a6 + Decoding(cl);
    var a8 := a7 + e;
    assert |a1| == n + 5 && |a2| == n + 8 && |a3| == n + 12 && |a4| == n + 15;
    assert |a5| == n + 17 && |a6| == n + 20 && |a7| == n + 23 && |a8| == n + 26;
    assert Posting(cl)[1] == "\tuniquePath := \"" + UniquePath(cl) + "\"";
    Ends(a2, Posting(cl));
    Within(a3, e, n + 8, n + 12);
    Within(a4, Reading(cl), n + 8, n + 12);
    Within(a5, e, n + 8, n + 12);
    Within(a6, Decoding(cl), n + 8, n + 12);
    Within(a7, e, n + 8, n + 12);
    Within(a8, Closing(cl), n + 8, n + 12);
    Ends(a3, e);
    Within(a4, Reading(cl), n + 12, n + 15);
    Within(a5, e, n + 12, n + 15);
    Within(a6, Decoding(cl), n + 12, n + 15);
    Within(a7, e, n + 12, n + 15);
    Within(a8, Closing(cl), n + 12, n + 15);
    Ends(a4, Reading(cl));
    Within(a5, e, n + 15, n + 17);
    Within(a6, Decoding(cl), n + 15, n + 17);
    Within(a7, e, n + 15, n + 17);
    Within(a8, Closing(cl), n + 15, n + 17);
    Ends(a5, e);
    Within(a6, Decoding(cl), n + 17, n + 20);
    Within(a7, e, n + 17, n + 20);
    Within(a8, Closing(cl), n + 17, n + 20);
  }

  lemma LinesBack(cl: HttpClient)
    ensures var lines, n := Lines(cl), |cl.request|;
      && lines[n + 21] == "\tvar resp " + cl.responseType
      && lines[n + 22] == "\terr = json.Unmarshal(respBody, &resp)" && lines[n + 23..n + 26] == ErrorCheck(cl)
      && lines[n + 27] == "\t" + FinalReturn(cl.responseParams) && lines[n + 28] == "}"
  {
    var n := |cl.request|;
    var e := ErrorCheck(cl);
    var a1 := Opening(cl);
    var a2 := a1 + e;
    var a3 := a2 + Posting(cl);
    var a4 := a3 + e;
    var a5 := a4 + Reading(cl);
    var a6 := a5 + e;
    var a7 := a6 + Decoding(cl);
    var a8 := a7 + e;
    assert |a1| == n + 5 && |a2| == n + 8 && |a3| == n + 12 && |a4| == n + 15;
    assert |a5| == n + 17 && |a6| == n + 20 && |a7| == n + 23 && |a8| == n + 26;
    Ends(a6, Decoding(cl));
    Within(a7, e, n + 20, n + 23);
    Within(a8, Closing(cl), n + 20, n + 23);
    Ends(a7, e);
    Within(a8, Closing(cl), n + 23, n + 26);
    Ends(a8, Closing(cl));
  }

  lemma OpeningLayout(cl: HttpClient)
    ensures var a, n := Opening(cl), |cl.request|;
      |a| == n + 5 && a[0] == SignatureLine(cl) && a[1..n + 3] == RequestLiteral(cl)
      && a[n + 4] == "\tb, err := json.Marshal(req)"
  {
  }

  /** The part of a concatenation that lies in its front. */
  lemma Within(x: seq<string>, y: seq<string>, i: nat, j: nat)
    requires i <= j <= |x|
    ensures (x + y)[i..j] == x[i..j]
    ensures forall k :: i <= k < j ==> (x + y)[k] == x[k]
  {
  }

  lemma Ends(x: seq<string>, y: seq<string>)
    ensures (x + y)[|x|..|x| + |y|] == y
    ensures forall k :: 0 <= k < |y| ==> (x + y)[|x| + k] == y[k]
  {
  }

  /** The text the template writes for one method: a newline before every line.
      Read back line by line, it is exactly the method's lines after the empty text
      before its first newline, as long as no name the template is given holds a
      line break. */
  function Render(cl: HttpClient): (text: string)
    ensures SingleLine(cl) ==> Split(text, '\n') == [""] + Lines(cl)
  {
    if SingleLine(cl) then
      LinesNoBreak(cl);
      SplitNewlineEach(Lines(cl));
      NewlineEach(Lines(cl))
    else NewlineEach(Lines(cl))
  }

  /** No name the template is given holds a line break. */
  predicate SingleLine(cl: HttpClient) {
    && '\n' !in cl.service && '\n' !in cl.methodName && '\n' !in cl.requestType && '\n' !in cl.responseType
    && (forall i :: 0 <= i < |cl.params| ==> '\n' !in cl.params[i])
    && (forall i :: 0 <= i < |cl.results| ==> '\n' !in cl.results[i])
    && (forall i :: 0 <= i < |cl.responseParams| ==> '\n' !in cl.responseParams[i])
    && (forall i :: 0 <= i < |cl.returnValues| ==> '\n' !in cl.returnValues[i])
    && (forall k :: k in cl.request ==> '\n' !in k && '\n' !in cl.request[k])
  }

  /** None of the method's lines holds a line break. */
  lemma LinesNoBreak(cl: HttpClient)
    requires SingleLine(cl)
    ensures NoBreak(Lines(cl))
  {
    var ec, c1, c2, c3, c4, c5 := ErrorCheck(cl), Opening(cl), Posting(cl), Reading(cl), Decoding(cl), Closing(cl);
    ChunksSingle(cl);
    NoBreakAppend(c1, ec);
    NoBreakAppend(c1 + ec, c2);
    NoBreakAppend(c1 + ec + c2, ec);
    NoBreakAppend(c1 + ec + c2 + ec, c3);
    NoBreakAppend(c1 + ec + c2 + ec + c3, ec);
    NoBreakAppend(c1 + ec + c2 + ec + c3 + ec, c4);
    NoBreakAppend(c1 + ec + c2 + ec + c3 + ec + c4, ec);
    NoBreakAppend(c1 + ec + c2 + ec + c3 + ec + c4 + ec, c5);
  }

  lemma ChunksSingle(cl: HttpClient)
    requires SingleLine(cl)
    ensures NoBreak(ErrorCheck(cl)) && NoBreak(Opening(cl)) && NoBreak(Posting(cl))
    ensures NoBreak(Reading(cl)) && NoBreak(Decoding(cl)) && NoBreak(Closing(cl))
  {
    ErrorCheckLinesSingle(cl);
    OpeningSingle(cl);
    PostingSingle(cl);
    ReadingSingle(cl);
    DecodingSingle(cl);
    ClosingSingle(cl);
  }

  lemma ErrorCheckLinesSingle(cl: HttpClient)
    requires forall i :: 0 <= i < |cl.returnValues| ==> '\n' !in cl.returnValues[i]
    ensures NoBreak(ErrorCheck(cl))
  {
    ErrorCheckSingle(cl.returnValues);
    assert '\n' !in "\tif err != nil {";
  }

  lemma ClosingSingle(cl: HttpClient)
    requires forall i :: 0 <= i < |cl.responseParams| ==> '\n' !in cl.responseParams[i]
    ensures NoBreak(Closing(cl))
  {
    FinalSingle(cl.responseParams);
  }

  lemma PostingSingle(cl: HttpClient)
    requires '\n' !in cl.service && '\n' !in cl.methodName
    ensures NoBreak(Posting(cl))
  {
    PathLineSingle(cl);
    BufferLineSingle();
    PostCallSingle();
    var lines := Posting(cl);
    assert lines[0] == "";
  }

  lemma PathLineSingle(cl: HttpClient)
    requires '\n' !in cl.service && '\n' !in cl.methodName
    ensures '\n' !in "\tuniquePath := \"" + UniquePath(cl) + "\""
  {
  }

  lemma BufferLineSingle()
    ensures '\n' !in "\tbuf := bytes.NewBuffer(b)"
  {
  }

  lemma PostCallSingle()
    ensures '\n' !in "\thttpResp, err := ctxhttp.Post(" + "ctx, c.HttpClient, "
                      + "c.Address + uniquePath, " + "\"application/json\", buf)"
  {
    PostFunctionSingle();
    PostClientSingle();
    PostAddressSingle();
    PostBodySingle();
  }

  lemma PostFunctionSingle()
    ensures '\n' !in "\thttpResp, err := ctxhttp.Post("
  {
  }

  lemma PostClientSingle()
    ensures '\n' !in "ctx, c.HttpClient, "
  {
  }

  lemma PostAddressSingle()
    ensures '\n' !in "c.Address + uniquePath, "
  {
  }

  lemma PostBodySingle()
    ensures '\n' !in "\"application/json\", buf)"
  {
  }


  lemma ReadingSingle(cl: HttpClient)
    ensures NoBreak(Reading(cl))
  {
  }

  lemma DecodingSingle(cl: HttpClient)
    requires '\n' !in cl.responseType
    ensures NoBreak(Decoding(cl))
  {
  }

  lemma ErrorCheckSingle(returnValues: seq<string>)
    requires forall i :: 0 <= i < |returnValues| ==> '\n' !in returnValues[i]
    ensures '\n' !in ErrorReturn(returnValues)
  {
    JoinAvoids(returnValues, ", ", '\n');
  }

  lemma OpeningSingle(cl: HttpClient)
    requires SingleLine(cl)
    ensures NoBreak(Opening(cl))
  {
    SignatureSingle(cl);
    EntriesSingle(cl.request);
    var entries := RequestEntries(cl.request);
    NoBreakAppend(["\treq := " + cl.requestType + " {"], entries);
    NoBreakAppend(["\treq := " + cl.requestType + " {"] + entries, ["\t}"]);
    NoBreakAppend([SignatureLine(cl)], RequestLiteral(cl));
    NoBreakAppend([SignatureLine(cl)] + RequestLiteral(cl), ["", "\tb, err := json.Marshal(req)"]);
  }

  lemma SignatureSingle(cl: HttpClient)
    requires SingleLine(cl)
    ensures '\n' !in SignatureLine(cl)
  {
    SignaturePiecesSingle();
    var args := ["ctx context.Context"] + cl.params;
    assert forall i :: 0 <= i < |args| ==> '\n' !in args[i] by {
      forall i | 0 <= i < |args| ensures '\n' !in args[i] {
        if i > 0 { assert args[i] == cl.params[i - 1]; }
      }
    }
    JoinAvoids(args, ", ", '\n');
    JoinAvoids(cl.results, ", ", '\n');
  }

  lemma SignaturePiecesSingle()
    ensures '\n' !in "func (c * Client) " && '\n' !in "ctx context.Context"
    ensures '\n' !in ", " && '\n' !in ") (" && '\n' !in ") {"
  {
  }

  lemma EntriesSingle(m: map<string, string>)
    requires forall k :: k in m ==> '\n' !in k && '\n' !in m[k]
    ensures NoBreak(RequestEntries(m))
  {
    RangeMapAvoids(m, RequestEntry, '\n');
  }

  lemma FinalSingle(ps: seq<string>)
    requires forall i :: 0 <= i < |ps| ==> '\n' !in ps[i]
    ensures '\n' !in FinalReturn(ps)
  {
    if |ps| > 0 {
      JoinAvoids(ReturnTargets(ps) + ["nil"], ", ", '\n');
    }
  }
}
