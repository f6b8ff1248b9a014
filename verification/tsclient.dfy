/** The TypeScript file that `templates/ts.go` writes for a service: an Angular
    client class with one method per API method, posting to the lower-cased path,
    then one interface per envelope or struct type and one enum per enumeration.
    Like the Go client, the text is modelled line by line; the file is its lines
    joined with newlines, and it ends with one. */
module TsTemplate {
  import opened GoStrings
  import opened Results
  import opened TemplateFuncs
  import GoClientTemplate

  /** `TSInterface`: a type name and its fields. */
  datatype TsInterface = TsInterface(name: string, fields: seq<TypeSignature>)

  /** `TSEnum`: an enumeration's name and its constants with their values. */
  datatype TsEnum = TsEnum(name: string, fields: map<string, string>)

  /** `TSService`, the record the template renders. */
  datatype TsService = TsService(
    name: string,
    interfaces: seq<TsInterface>,
    enums: seq<TsEnum>,
    modName: string,
    methodNames: seq<string>)

  // ---------------------------------------------------------------------------
  // The client class

  /** The path a method posts to: the service and the method name, lower-cased. */
  function Url(service: string, methodName: string): string {
    "/" + ToLower(service) + "/" + ToLower(methodName)
  }

  /** The TypeScript client posts to the Go client's path, lower-cased. */
  lemma UrlIsLowerGoPath(cl: GoClientTemplate.HttpClient)
    ensures Url(cl.service, cl.methodName) == ToLower(GoClientTemplate.UniquePath(cl))
  {
    ToLowerAppend("/" + cl.service + "/", cl.methodName);
    ToLowerAppend("/" + cl.service, "/");
    ToLowerAppend("/", cl.service);
    assert ToLower("/") == "/";
  }

  /** The path has exactly two segments, the lower-cased service and method. */
  lemma UrlSegments(service: string, methodName: string)
    requires '/' !in service && '/' !in methodName
    ensures Split(Url(service, methodName), '/') == ["", ToLower(service), ToLower(methodName)]
  {
    var s, m := ToLower(service), ToLower(methodName);
    ToLowerAvoids(service, '/');
    ToLowerAvoids(methodName, '/');
    var parts := ["", s, m];
    assert parts[1..] == [s, m];
    assert [s, m][1..] == [m];
    assert Join([m], "/") == m;
    assert Join([s, m], "/") == s + "/" + m;
    assert Join(parts, "/") == "" + "/" + (s + "/" + m);
    assert Url(service, methodName) == Join(parts, "/");
    SplitJoin(parts, '/');
  }

  /** The example service's first method posts to `/example/haspermission`. */
  lemma UrlExample()
    ensures Url("Example", "HasPermission") == "/example/haspermission"
  {
    LowerServiceName();
    LowerMethodName();
  }

  lemma LowerServiceName()
    ensures ToLower("Example") == "example"
  {
  }

  lemma LowerMethodName()
    ensures ToLower("HasPermission") == "haspermission"
  {
  }

  /** The imports, the `@Injectable` decorator, the class line and the
      constructor. */
  function Header(name: string): (h: seq<string>)
    ensures |h| == 10 && h[7] == "export class " + name + " {"
  {
    ["import { Injectable } " + "from '@angular/core';",
     "import { HttpClient } " + "from '@angular/common/http';",
     "import { environment } " + "from '../../" + "environments/environment';",
     "",
     "@Injectable({",
     "  providedIn: 'root'",
     "})",
     "export class " + name + " {",
     "",
     "  constructor(" + "private http: HttpClient) {}"]
  }

  /** One client method: a blank line, the lint directives, and a method that posts
      the JSON payload to the method's path and casts the answer to the response
      type. */
  function MethodBlock(service: string, m: string): (b: seq<string>)
    ensures |b| == 6 && b[0] == "" && b[5] == "  }"
    ensures b[2] == "  public async " + m + "(payload: " + m + "Request): " + "Promise<" + m + "Response> {"
    ensures b[4] == "    return await this.http.post(" + "environment.BackendURL + '" + Url(service, m)
                    + "', JSON.stringify(payload))" + ".toPromise() as " + m + "Response;"
  {
    ["",
     "  // @ts-ignore",
     "  public async " + m + "(payload: " + m + "Request): " + "Promise<" + m + "Response> {",
     "    // tslint:disable-next-line:" + "max-line-length",
     "    return await this.http.post(" + "environment.BackendURL + '" + Url(service, m)
       + "', JSON.stringify(payload))" + ".toPromise() as " + m + "Response;",
     "  }"]
  }

  function MethodBlocks(service: string, names: seq<string>): (blocks: seq<seq<string>>)
    ensures |blocks| == |names| && forall k :: 0 <= k < |names| ==> blocks[k] == MethodBlock(service, names[k])
  {
    seq(|names|, k requires 0 <= k < |names| => MethodBlock(service, names[k]))
  }

  /** The class: the ten header lines, then the six lines of method `k` at
      `10 + 6k`, in method order, then the closing brace and nothing else. */
  function ClassLines(tss: TsService): (lines: seq<string>)
    ensures |lines| == 11 + 6 * |tss.methodNames|
    ensures lines[..10] == Header(tss.name)
    ensures forall k :: 0 <= k < |tss.methodNames| ==>
      lines[10 + 6 * k..16 + 6 * k] == MethodBlock(tss.name, tss.methodNames[k])
    ensures lines[|lines| - 1] == "}"
  {
    var blocks := MethodBlocks(tss.name, tss.methodNames);
    ClassLayout(Header(tss.name), blocks);
    Header(tss.name) + Flatten(blocks) + ["}"]
  }

  /** Ten header lines, equally long blocks of six lines, and a closing brace: block
      `k` sits at `10 + 6k`. */
  lemma ClassLayout(header: seq<string>, blocks: seq<seq<string>>)
    requires |header| == 10 && forall h :: 0 <= h < |blocks| ==> |blocks[h]| == 6
    ensures var lines := header + Flatten(blocks) + ["}"];
      && |lines| == 11 + 6 * |blocks|
      && lines[..10] == header
      && (forall k :: 0 <= k < |blocks| ==> lines[10 + 6 * k..16 + 6 * k] == blocks[k])
      && lines[|lines| - 1] == "}"
  {
    var lines := header + Flatten(blocks) + ["}"];
    FlattenLength(blocks, 6);
    forall k | 0 <= k < |blocks| ensures lines[10 + 6 * k..16 + 6 * k] == blocks[k] {
      BlockInBody(blocks, k);
      SliceOfMiddle(header, Flatten(blocks), ["}"], 6 * k, 6 * k + 6);
    }
  }

  /** Block `k` of equally long method blocks sits at `6 * k` in their flattening. */
  lemma BlockInBody(blocks: seq<seq<string>>, k: nat)
    requires k < |blocks| && forall h :: 0 <= h < |blocks| ==> |blocks[h]| == 6
    ensures |Flatten(blocks)| == 6 * |blocks|
    ensures Flatten(blocks)[6 * k..6 * k + 6] == blocks[k]
  {
    FlattenLength(blocks, 6);
    FlattenAt(blocks, k);
    FlattenLength(blocks[..k], 6);
  }

  lemma SliceOfMiddle(a: seq<string>, b: seq<string>, c: seq<string>, i: nat, j: nat)
    requires i <= j <= |b|
    ensures (a + b + c)[|a| + i..|a| + j] == b[i..j]
  {
  }


  // ---------------------------------------------------------------------------
  // Interfaces

  /** One member of an interface: a single or unclassified field is `Name: Kind;`, a
      slice `Name: Kind[];`, with the name camel-cased; any other field is left out.
      `ToCamelCase` fails on an empty name. */
  function MemberLine(f: TypeSignature): (r: Result<Option<string>>)
    ensures r.Failed? <==> Shown(f) && f.name == ""
    ensures r.Ok? ==> (r.value.Some? <==> Shown(f))
    ensures r.Ok? && r.value.Some? ==>
      r.value.value == "  " + Camel(f.name) + ": " + f.kind + (if f.arity == Slice then "[];" else ";")
  {
    if f.arity == Single || f.arity == Unclassified then
      match ToCamelCase(f.name)
      case Failed(e) => Failed(e)
      case Ok(n) => Ok(Some("  " + n + ": " + f.kind + ";"))
    else if f.arity == Slice then
      match ToCamelCase(f.name)
      case Failed(e) => Failed(e)
      case Ok(n) => Ok(Some("  " + n + ": " + f.kind + "[];"))
    else Ok(None)
  }

  /** Whether the interface template writes a member for the field. */
  predicate Shown(f: TypeSignature) {
    f.arity == Unclassified || f.arity == Single || f.arity == Slice
  }

  /** The fields that get a member, in order. */
  function ShownFields(fields: seq<TypeSignature>): (shown: seq<TypeSignature>)
    ensures forall j :: 0 <= j < |shown| ==> Shown(shown[j]) && shown[j] in fields
    ensures forall i :: 0 <= i < |fields| && Shown(fields[i]) ==> fields[i] in shown
    decreases |fields|
  {
    if |fields| == 0 then []
    else (if Shown(fields[0]) then [fields[0]] else []) + ShownFields(fields[1..])
  }

  /** The members of an interface: one per shown field, in order; the whole
      rendering fails when a shown field has an empty name. */
  function Members(fields: seq<TypeSignature>): (r: Result<seq<string>>)
    ensures r.Failed? <==> exists i :: 0 <= i < |fields| && Shown(fields[i]) && fields[i].name == ""
    ensures r.Ok? ==> |r.value| == |ShownFields(fields)|
    ensures r.Ok? ==> forall j :: 0 <= j < |r.value| ==> MemberLine(ShownFields(fields)[j]) == Ok(Some(r.value[j]))
    decreases |fields|
  {
    if |fields| == 0 then Ok([])
    else
      match MemberLine(fields[0])
      case Failed(e) => Failed(e)
      case Ok(m) =>
        match Members(fields[1..])
        case Failed(e) =>
          var i :| 0 <= i < |fields[1..]| && Shown(fields[1..][i]) && fields[1..][i].name == "";
          assert fields[i + 1] == fields[1..][i];
          Failed(e)
        case Ok(rest) =>
          assert forall i :: 0 < i < |fields| ==> fields[i] == fields[1..][i - 1];
          MembersStep(fields, m, rest);
          Ok((if m.Some? then [m.value] else []) + rest)
  }

  lemma MembersStep(fields: seq<TypeSignature>, m: Option<string>, rest: seq<string>)
    requires |fields| > 0 && MemberLine(fields[0]) == Ok(m)
    requires |rest| == |ShownFields(fields[1..])|
    requires forall j :: 0 <= j < |rest| ==> MemberLine(ShownFields(fields[1..])[j]) == Ok(Some(rest[j]))
    ensures var r := (if m.Some? then [m.value] else []) + rest;
      |r| == |ShownFields(fields)|
      && forall j :: 0 <= j < |r| ==> MemberLine(ShownFields(fields)[j]) == Ok(Some(r[j]))
  {
    var shown := ShownFields(fields);
    assert shown == (if Shown(fields[0]) then [fields[0]] else []) + ShownFields(fields[1..]);
  }

  /** The lint directive above an interface without fields. */
  const EmptyInterfaceLint := "// tslint:disable-next-line:" + "no-empty-interface"

  /** An interface: with no fields, an empty interface under a lint directive;
      otherwise the members between braces. */
  function InterfaceLines(i: TsInterface): (r: Result<seq<string>>)
    ensures r.Failed? <==> exists k :: 0 <= k < |i.fields| && Shown(i.fields[k]) && i.fields[k].name == ""
    ensures r.Ok? ==> |r.value| == 3 + |ShownFields(i.fields)|
    ensures |i.fields| == 0 ==>
      r == Ok(["", EmptyInterfaceLint, "export interface " + i.name + " {}"])
    ensures |i.fields| > 0 && r.Ok? ==>
      Members(i.fields).Ok? && r.value == ["", "export interface " + i.name + " {"] + Members(i.fields).value + ["}"]
  {
    if |i.fields| == 0 then
      Ok(["", EmptyInterfaceLint, "export interface " + i.name + " {}"])
    else
      match Members(i.fields)
      case Failed(e) => Failed(e)
      case Ok(members) => Ok(["", "export interface " + i.name + " {"] + members + ["}"])
  }

  /** All interfaces, in order; fails when one of them does. */
  function InterfacesLines(ifaces: seq<TsInterface>): (r: Result<seq<string>>)
    ensures r.Failed? <==> exists k :: 0 <= k < |ifaces| && InterfaceLines(ifaces[k]).Failed?
    ensures r.Ok? ==> r.value == Flatten(InterfaceBlocks(ifaces))
    decreases |ifaces|
  {
    if |ifaces| == 0 then Ok([])
    else
      match InterfaceLines(ifaces[0])
      case Failed(e) => Failed(e)
      case Ok(first) =>
        InterfaceFailureShift(ifaces);
        match InterfacesLines(ifaces[1..])
        case Failed(e) => Failed(e)
        case Ok(rest) =>
          InterfaceBlocksShift(ifaces);
          Ok(first + rest)
  }

  /** Some interface fails exactly when the first one or one of the others does. */
  lemma {:induction false} InterfaceFailureShift(ifaces: seq<TsInterface>)
    requires |ifaces| > 0
    ensures (exists k :: 0 <= k < |ifaces| && InterfaceLines(ifaces[k]).Failed?) <==>
      InterfaceLines(ifaces[0]).Failed? || exists k :: 0 <= k < |ifaces[1..]| && InterfaceLines(ifaces[1..][k]).Failed?
  {
    var tail := ifaces[1..];
    if k :| 0 <= k < |ifaces| && InterfaceLines(ifaces[k]).Failed? {
      if k > 0 {
        assert tail[k - 1] == ifaces[k];
      }
    }
    if k :| 0 <= k < |tail| && InterfaceLines(tail[k]).Failed? {
      assert ifaces[k + 1] == tail[k];
    }
  }

  /** The first interface's group followed by the groups of the others. */
  lemma {:induction false} InterfaceBlocksShift(ifaces: seq<TsInterface>)
    requires |ifaces| > 0
    requires forall k :: 0 <= k < |ifaces| ==> InterfaceLines(ifaces[k]).Ok?
    ensures forall k :: 0 <= k < |ifaces[1..]| ==> InterfaceLines(ifaces[1..][k]).Ok?
    ensures InterfaceBlocks(ifaces) == [InterfaceLines(ifaces[0]).value] + InterfaceBlocks(ifaces[1..])
  {
    InterfaceTailOk(ifaces);
    var a := InterfaceBlocks(ifaces);
    var b := [InterfaceLines(ifaces[0]).value] + InterfaceBlocks(ifaces[1..]);
    forall k | 0 <= k < |a|
      ensures a[k] == b[k]
    {
      if k > 0 {
        InterfaceBlockAt(ifaces, k);
      }
    }
  }

  lemma {:induction false} InterfaceTailOk(ifaces: seq<TsInterface>)
    requires |ifaces| > 0
    requires forall k :: 0 <= k < |ifaces| ==> InterfaceLines(ifaces[k]).Ok?
    ensures forall k :: 0 <= k < |ifaces[1..]| ==> InterfaceLines(ifaces[1..][k]).Ok?
  {
    forall k | 0 <= k < |ifaces[1..]|
      ensures InterfaceLines(ifaces[1..][k]).Ok?
    {
      assert ifaces[1..][k] == ifaces[k + 1];
    }
  }

  lemma {:induction false} InterfaceBlockAt(ifaces: seq<TsInterface>, k: nat)
    requires 0 < k < |ifaces|
    requires forall j :: 0 <= j < |ifaces| ==> InterfaceLines(ifaces[j]).Ok?
    requires forall j :: 0 <= j < |ifaces[1..]| ==> InterfaceLines(ifaces[1..][j]).Ok?
    ensures InterfaceBlocks(ifaces)[k] == InterfaceBlocks(ifaces[1..])[k - 1]
  {
    assert ifaces[1..][k - 1] == ifaces[k];
  }

  /** The lines of each interface, one group per interface, in order. */
  function InterfaceBlocks(ifaces: seq<TsInterface>): (blocks: seq<seq<string>>)
    requires forall k :: 0 <= k < |ifaces| ==> InterfaceLines(ifaces[k]).Ok?
    ensures |blocks| == |ifaces| && forall k :: 0 <= k < |ifaces| ==> blocks[k] == InterfaceLines(ifaces[k]).value
  {
    seq(|ifaces|, k requires 0 <= k < |ifaces| => InterfaceLines(ifaces[k]).value)
  }

  // ---------------------------------------------------------------------------
  // Enums

  /** One enum constant with its value. */
  function EnumEntry(k: string, v: string): string {
    "  " + k + " = " + v + ","
  }

  /** An enum: empty braces without constants, otherwise one line per constant in
      ascending name order (see `GoStrings.RangeMapInKeyOrder`). */
  function EnumLines(e: TsEnum): (lines: seq<string>)
    ensures |e.fields| == 0 ==> |lines| == 2
    ensures |e.fields| > 0 ==>
      |lines| == 3 + |e.fields| && forall k :: k in e.fields ==> EnumEntry(k, e.fields[k]) in lines
    ensures |e.fields| == 0 ==> lines == ["", "export enum " + e.name + " {}"]
    ensures |e.fields| > 0 ==>
      lines[0] == "" && lines[1] == "export enum " + e.name + " {" && lines[|lines| - 1] == "}"
      && forall j :: 0 <= j < |e.fields| ==>
           lines[j + 2] == EnumEntry(SortedKeys(e.fields)[j], e.fields[SortedKeys(e.fields)[j]])
  {
    if |e.fields| == 0 then ["", "export enum " + e.name + " {}"]
    else
      EnumBody(e.name, e.fields);
      ["", "export enum " + e.name + " {"] + RangeMap(e.fields, EnumEntry) + ["}"]
  }

  lemma EnumBody(name: string, fields: map<string, string>)
    ensures var lines := ["", "export enum " + name + " {"] + RangeMap(fields, EnumEntry) + ["}"];
      |lines| == 3 + |fields| && (forall k :: k in fields ==> EnumEntry(k, fields[k]) in lines)
      && lines[0] == "" && lines[1] == "export enum " + name + " {" && lines[|lines| - 1] == "}"
      && forall j :: 0 <= j < |fields| ==>
           lines[j + 2] == EnumEntry(SortedKeys(fields)[j], fields[SortedKeys(fields)[j]])
  {
    EntriesInKeyOrder(fields);
    Framed("export enum " + name + " {", RangeMap(fields, EnumEntry));
  }

  lemma EntriesInKeyOrder(fields: map<string, string>)
    ensures |RangeMap(fields, EnumEntry)| == |fields|
    ensures forall j :: 0 <= j < |fields| ==>
      RangeMap(fields, EnumEntry)[j] == EnumEntry(SortedKeys(fields)[j], fields[SortedKeys(fields)[j]])
  {
    RangeMapInKeyOrder(fields, EnumEntry, SortedKeys(fields));
  }

  /** Lines between a blank line and opening line and a closing brace keep their
      order, two places on. */
  lemma Framed(opening: string, entries: seq<string>)
    ensures var lines := ["", opening] + entries + ["}"];
      |lines| == |entries| + 3 && lines[0] == "" && lines[1] == opening && lines[|lines| - 1] == "}"
      && (forall x :: x in entries ==> x in lines)
      && forall j :: 0 <= j < |entries| ==> lines[j + 2] == entries[j]
  {
  }

  function EnumBlocks(es: seq<TsEnum>): (blocks: seq<seq<string>>)
    ensures |blocks| == |es| && forall k :: 0 <= k < |es| ==> blocks[k] == EnumLines(es[k])
  {
    seq(|es|, k requires 0 <= k < |es| => EnumLines(es[k]))
  }

  // ---------------------------------------------------------------------------
  // The file

  /** The lines of the file: the class, the interfaces, the enums, and the empty
      text after the final newline. Fails when an interface does. */
  function FileLines(tss: TsService): (r: Result<seq<string>>)
    ensures r.Failed? <==> InterfacesLines(tss.interfaces).Failed?
    ensures r.Ok? ==> |r.value| > |ClassLines(tss)| && r.value[..|ClassLines(tss)|] == ClassLines(tss)
    ensures r.Ok? ==> r.value[|r.value| - 1] == ""
    ensures r.Ok? ==>
      r.value == ClassLines(tss) + (InterfacesLines(tss.interfaces).value + Flatten(EnumBlocks(tss.enums)) + [""])
  {
    match InterfacesLines(tss.interfaces)
    case Failed(e) => Failed(e)
    case Ok(il) =>
      var rest := il + Flatten(EnumBlocks(tss.enums)) + [""];
      PrefixKept(ClassLines(tss), rest);
      Ok(ClassLines(tss) + rest)
  }

  lemma PrefixKept(a: seq<string>, b: seq<string>)
    requires |b| > 0
    ensures (a + b)[..|a|] == a && (a + b)[|a + b| - 1] == b[|b| - 1]
  {
  }

  /** The text of the file: its lines joined with newlines. Read back line by line,
      it is exactly those lines, as long as no name, type or value holds a line
      break. */
  function Render(tss: TsService): (r: Result<string>)
    ensures r.Failed? <==> FileLines(tss).Failed?
    ensures r.Ok? && SingleLine(tss) ==> Split(r.value, '\n') == FileLines(tss).value
  {
    match FileLines(tss)
    case Failed(e) => Failed(e)
    case Ok(lines) =>
      if SingleLine(tss) then
        FileLinesNoBreak(tss);
        JoinLinesReadBack(lines);
        Ok(Join(lines, "\n"))
      else Ok(Join(lines, "\n"))
  }

  /** No name, type or value the template is given holds a line break. */
  predicate SingleLine(tss: TsService) {
    && '\n' !in tss.name
    && (forall k :: 0 <= k < |tss.methodNames| ==> '\n' !in tss.methodNames[k])
    && (forall k :: 0 <= k < |tss.interfaces| ==> InterfaceSingle(tss.interfaces[k]))
    && (forall k :: 0 <= k < |tss.enums| ==> EnumSingle(tss.enums[k]))
  }

  predicate InterfaceSingle(i: TsInterface) {
    '\n' !in i.name && forall k :: 0 <= k < |i.fields| ==> '\n' !in i.fields[k].name && '\n' !in i.fields[k].kind
  }

  predicate EnumSingle(e: TsEnum) {
    '\n' !in e.name && forall k :: k in e.fields ==> '\n' !in k && '\n' !in e.fields[k]
  }

  lemma FileLinesNoBreak(tss: TsService)
    requires SingleLine(tss) && FileLines(tss).Ok?
    ensures NoBreak(FileLines(tss).value)
  {
    var lines := FileLines(tss).value;
    var il := InterfacesLines(tss.interfaces).value;
    var blocks := EnumBlocks(tss.enums);
    ClassNoBreak(tss);
    InterfacesNoBreak(tss.interfaces);
    forall k | 0 <= k < |blocks| ensures NoBreak(blocks[k]) {
      EnumNoBreak(tss.enums[k]);
    }
    FlattenNoBreak(blocks);
    NoBreakAppend(il, Flatten(blocks));
    NoBreakAppend(il + Flatten(blocks), [""]);
    NoBreakAppend(ClassLines(tss), il + Flatten(blocks) + [""]);
    assert lines == ClassLines(tss) + (il + Flatten(blocks) + [""]);
  }

  lemma ClassNoBreak(tss: TsService)
    requires '\n' !in tss.name
    requires forall k :: 0 <= k < |tss.methodNames| ==> '\n' !in tss.methodNames[k]
    ensures NoBreak(ClassLines(tss))
  {
    var blocks := MethodBlocks(tss.name, tss.methodNames);
    forall k | 0 <= k < |blocks| ensures NoBreak(blocks[k]) {
      MethodNoBreak(tss.name, tss.methodNames[k]);
    }
    FlattenNoBreak(blocks);
    HeaderNoBreak(tss.name);
    NoBreakAppend(Header(tss.name), Flatten(blocks));
    NoBreakAppend(Header(tss.name) + Flatten(blocks), ["}"]);
  }

  lemma HeaderNoBreak(name: string)
    requires '\n' !in name
    ensures NoBreak(Header(name))
  {
    HeaderLiteralsNoBreak();
    var h := Header(name);
    assert h[7] == "export class " + name + " {";
    assert forall k :: 3 <= k < 7 || k == 8 ==> '\n' !in h[k];
  }

  /** The fixed lines of the header hold no line break; one literal per lemma keeps
      each proof small. */
  lemma HeaderLiteralsNoBreak()
    ensures '\n' !in "import { Injectable } " + "from '@angular/core';"
    ensures '\n' !in "import { HttpClient } " + "from '@angular/common/http';"
    ensures '\n' !in "import { environment } " + "from '../../" + "environments/environment';"
    ensures NoBreak(["", "@Injectable({", "  providedIn: 'root'", "})"])
    ensures '\n' !in "  constructor(" + "private http: HttpClient) {}"
  {
    InjectableNoBreak();
    HttpClientNoBreak();
    EnvironmentNoBreak();
    DecoratorNoBreak();
    ConstructorNoBreak();
  }

  lemma InjectableNoBreak()
    ensures '\n' !in "import { Injectable } " + "from '@angular/core';"
  {
  }

  lemma HttpClientNoBreak()
    ensures '\n' !in "import { HttpClient } " + "from '@angular/common/http';"
  {
  }

  lemma EnvironmentNoBreak()
    ensures '\n' !in "import { environment } " + "from '../../" + "environments/environment';"
  {
  }

  lemma DecoratorNoBreak()
    ensures NoBreak(["", "@Injectable({", "  providedIn: 'root'", "})"])
  {
  }

  lemma ConstructorNoBreak()
    ensures '\n' !in "  constructor(" + "private http: HttpClient) {}"
  {
  }

  lemma MethodNoBreak(service: string, m: string)
    requires '\n' !in service && '\n' !in m
    ensures NoBreak(MethodBlock(service, m))
  {
    MethodLineNoBreak(m);
    PostLineNoBreak(service, m);
    assert NoBreak(["", "  // @ts-ignore"]);
    assert '\n' !in "    // tslint:disable-next-line:" + "max-line-length";
  }

  lemma MethodLineNoBreak(m: string)
    requires '\n' !in m
    ensures '\n' !in "  public async " + m + "(payload: " + m + "Request): " + "Promise<" + m + "Response> {"
  {
  }

  lemma PostLineNoBreak(service: string, m: string)
    requires '\n' !in service && '\n' !in m
    ensures '\n' !in "    return await this.http.post(" + "environment.BackendURL + '" + Url(service, m)
                      + "', JSON.stringify(payload))" + ".toPromise() as " + m + "Response;"
  {
    ToLowerAvoids(service, '\n');
    ToLowerAvoids(m, '\n');
    PostPiecesNoBreak();
  }

  /** The fixed pieces of the posting line hold no line break. */
  lemma PostPiecesNoBreak()
    ensures '\n' !in "    return await this.http.post("
    ensures '\n' !in "environment.BackendURL + '"
    ensures '\n' !in "', JSON.stringify(payload))"
    ensures '\n' !in ".toPromise() as "
    ensures '\n' !in "Response;"
  {
    PostCallNoBreak();
    PostAddressNoBreak();
    PostPayloadNoBreak();
  }

  lemma PostCallNoBreak()
    ensures '\n' !in "    return await this.http.post("
  {
  }

  lemma PostAddressNoBreak()
    ensures '\n' !in "environment.BackendURL + '"
  {
  }

  lemma PostPayloadNoBreak()
    ensures '\n' !in "', JSON.stringify(payload))"
  {
  }

  lemma MembersNoBreak(fields: seq<TypeSignature>)
    requires forall k :: 0 <= k < |fields| ==> '\n' !in fields[k].name && '\n' !in fields[k].kind
    requires Members(fields).Ok?
    ensures NoBreak(Members(fields).value)
  {
    var members := Members(fields).value;
    var shown := ShownFields(fields);
    forall j | 0 <= j < |members| ensures '\n' !in members[j] {
      assert shown[j] in fields;
      MemberNoBreak(shown[j], members[j]);
    }
  }

  lemma MemberNoBreak(f: TypeSignature, line: string)
    requires '\n' !in f.name && '\n' !in f.kind
    requires MemberLine(f) == Ok(Some(line))
    ensures '\n' !in line
  {
    CamelAvoids(f.name, '\n');
  }

  lemma InterfaceNoBreak(i: TsInterface)
    requires InterfaceSingle(i) && InterfaceLines(i).Ok?
    ensures NoBreak(InterfaceLines(i).value)
  {
    InterfaceOpenNoBreak(i.name);
    if |i.fields| > 0 {
      MembersNoBreak(i.fields);
      var head, members := ["", "export interface " + i.name + " {"], Members(i.fields).value;
      NoBreakAppend(head, members);
      NoBreakAppend(head + members, ["}"]);
      assert InterfaceLines(i).value == head + members + ["}"];
    } else {
      EmptyInterfaceNoBreak(i.name);
    }
  }

  lemma InterfaceOpenNoBreak(name: string)
    requires '\n' !in name
    ensures NoBreak(["", "export interface " + name + " {"])
  {
  }

  lemma EmptyInterfaceNoBreak(name: string)
    requires '\n' !in name
    ensures NoBreak(["", "// tslint:disable-next-line:" + "no-empty-interface", "export interface " + name + " {}"])
  {
    assert '\n' !in "// tslint:disable-next-line:";
    assert '\n' !in "no-empty-interface";
  }


  lemma {:induction false} InterfacesNoBreak(ifaces: seq<TsInterface>)
    requires forall k :: 0 <= k < |ifaces| ==> InterfaceSingle(ifaces[k])
    requires InterfacesLines(ifaces).Ok?
    ensures NoBreak(InterfacesLines(ifaces).value)
    decreases |ifaces|
  {
    if |ifaces| > 0 {
      var i := ifaces[0];
      InterfaceNoBreak(i);
      assert forall k :: 0 <= k < |ifaces[1..]| ==> ifaces[1..][k] == ifaces[k + 1];
      InterfacesNoBreak(ifaces[1..]);
      NoBreakAppend(InterfaceLines(i).value, InterfacesLines(ifaces[1..]).value);
    }
  }

  lemma EntriesNoBreak(m: map<string, string>)
    requires forall k :: k in m ==> '\n' !in k && '\n' !in m[k]
    ensures NoBreak(RangeMap(m, EnumEntry))
  {
    forall k | k in m ensures '\n' !in EnumEntry(k, m[k]) {
    }
    RangeMapAvoids(m, EnumEntry, '\n');
  }

  lemma EnumNoBreak(e: TsEnum)
    requires EnumSingle(e)
    ensures NoBreak(EnumLines(e))
  {
    EnumOpenNoBreak(e.name);
    if |e.fields| > 0 {
      var head, entries := ["", "export enum " + e.name + " {"], RangeMap(e.fields, EnumEntry);
      EntriesNoBreak(e.fields);
      NoBreakAppend(head, entries);
      NoBreakAppend(head + entries, ["}"]);
      assert EnumLines(e) == head + entries + ["}"];
    } else {
      assert EnumLines(e) == ["", "export enum " + e.name + " {}"];
    }
  }

  lemma EnumOpenNoBreak(name: string)
    requires '\n' !in name
    ensures NoBreak(["", "export enum " + name + " {"])
    ensures NoBreak(["", "export enum " + name + " {}"])
  {
  }

}
