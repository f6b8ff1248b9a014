/** The model extractor of `reader/reader.go`: type strings for syntax-tree type
    expressions, parameter/result maps of interface methods, property maps of structs,
    and the per-declaration and per-import steps of the file walk. */
module Reader {
  import opened GoStrings
  import opened Results
  import opened Assoc
  import opened GoAst

  // ---------------------------------------------------------------------------
  // Type strings

  /** The bare type string of a type expression: an identifier gives its name, a
      qualified name gives only the selected name, slices and maps are spelled out
      recursively, and anything else is the empty string. */
  function TypeString(e: Expr): (r: string)
    ensures e.OtherExpr? ==> r == ""
    ensures WellFormed(e) ==> (r == "" <==> e.OtherExpr?)
    ensures WellFormed(e) ==> (HasPrefix(r, "[]") <==> e.ArrayType?)
    ensures WellFormed(e) ==> (HasPrefix(r, "map[") <==> e.MapType?)
  {
    match e
    case Ident(n) => NameShape(n); IdentName(n)
    case Selector(_, sel) => NameShape(sel); IdentName(sel)
    case ArrayType(elt) => var r := "[]" + TypeString(elt); PrefixShape(r, '['); r
    case MapType(k, v) => var r := "map[" + TypeString(k) + "]" + TypeString(v); PrefixShape(r, 'm'); r
    case OtherExpr => ""
  }

  lemma PrefixShape(r: string, c: char)
    requires |r| > 0 && r[0] == c
    ensures c == '[' ==> !HasPrefix(r, "map[")
    ensures c == 'm' ==> !HasPrefix(r, "[]")
  {
  }

  /** `importTypeFromASTIdent`: the identifier's name. */
  function IdentName(name: string): string { name }

  lemma NameShape(n: string)
    ensures ValidName(n) ==> n != "" && !HasPrefix(n, "[]") && !HasPrefix(n, "map[")
  {
    if ValidName(n) {
      assert IsNameChar(n[0]);
      if |n| >= 4 { assert IsNameChar(n[3]); }
    }
  }

  /** Runes that may occur in a name inside a type string. */
  predicate IsNameChar(c: char) { c != '[' && c != ']' }

  /** A syntax tree whose names are non-empty and bracket-free, as Go identifiers are. */
  predicate WellFormed(e: Expr) {
    match e
    case Ident(n) => ValidName(n)
    case Selector(_, sel) => ValidName(sel)
    case ArrayType(elt) => WellFormed(elt)
    case MapType(k, v) => WellFormed(k) && WellFormed(v)
    case OtherExpr => true
  }

  predicate ValidName(n: string) {
    |n| > 0 && forall i :: 0 <= i < |n| ==> IsNameChar(n[i])
  }

  /** The tree with every qualified name replaced by its selected name: the part of a
      type expression its type string keeps. */
  function Erase(e: Expr): (r: Expr)
    ensures !r.Selector?
  {
    match e
    case Selector(_, sel) => Ident(sel)
    case ArrayType(elt) => ArrayType(Erase(elt))
    case MapType(k, v) => MapType(Erase(k), Erase(v))
    case _ => e
  }

  /** The type string never depends on package qualifiers. */
  lemma {:induction false} TypeStringIgnoresQualifiers(e: Expr)
    ensures TypeString(e) == TypeString(Erase(e))
  {
    match e
    case ArrayType(elt) => TypeStringIgnoresQualifiers(elt);
    case MapType(k, v) => TypeStringIgnoresQualifiers(k); TypeStringIgnoresQualifiers(v);
    case _ =>
  }

  /** Length of the longest prefix of name runes. */
  function NameLength(s: string): (n: nat)
    ensures n <= |s|
    ensures forall i :: 0 <= i < n ==> IsNameChar(s[i])
    ensures n < |s| ==> !IsNameChar(s[n])
  {
    if |s| > 0 && IsNameChar(s[0]) then 1 + NameLength(s[1..]) else 0
  }

  /** Reads one type string from the front of `s`, returning the tree and what is left. */
  function ParseType(s: string): (res: (Expr, string))
    ensures |res.1| <= |s|
    decreases |s|
  {
    if HasPrefix(s, "[]") then
      var (elt, rest) := ParseType(s[2..]);
      (ArrayType(elt), rest)
    else if HasPrefix(s, "map[") then
      var (k, rest) := ParseType(s[4..]);
      if |rest| > 0 && rest[0] == ']' then
        var (v, rest2) := ParseType(rest[1..]);
        (MapType(k, v), rest2)
      else (OtherExpr, s)
    else
      var n := NameLength(s);
      if n == 0 then (OtherExpr, s) else (Ident(s[..n]), s[n..])
  }

  /** Reading back a type string recovers the tree up to package qualifiers, whatever
      may follow it that cannot continue a name. */
  lemma {:induction false} ParseTypeString(e: Expr, rest: string)
    requires WellFormed(e)
    requires rest == "" || rest[0] == ']'
    ensures ParseType(TypeString(e) + rest) == (Erase(e), rest)
  {
    match e
    case Ident(n) => ParseName(n, rest);
    case Selector(_, sel) => ParseName(sel, rest);
    case ArrayType(elt) =>
      ParseTypeString(elt, rest);
      ParseArray(elt, rest);
    case MapType(k, v) =>
      ParseTypeString(k, "]" + TypeString(v) + rest);
      ParseTypeString(v, rest);
      ParseMap(k, v, rest);
    case OtherExpr =>
      assert TypeString(e) + rest == rest;
      ParseNothing(rest);
  }

  lemma ParseArray(elt: Expr, rest: string)
    requires ParseType(TypeString(elt) + rest) == (Erase(elt), rest)
    ensures ParseType(TypeString(ArrayType(elt)) + rest) == (Erase(ArrayType(elt)), rest)
  {
    var t := TypeString(elt);
    assert TypeString(ArrayType(elt)) + rest == "[]" + (t + rest);
    ArrayText(t + rest);
    ParseArrayStep("[]" + (t + rest), Erase(elt), rest);
  }

  lemma ArrayText(a: string)
    ensures HasPrefix("[]" + a, "[]") && ("[]" + a)[2..] == a
  {
  }

  lemma ParseArrayStep(s: string, elt: Expr, rest: string)
    requires HasPrefix(s, "[]") && ParseType(s[2..]) == (elt, rest)
    ensures ParseType(s) == (ArrayType(elt), rest)
  {
  }

  lemma ParseMap(k: Expr, v: Expr, rest: string)
    requires ParseType(TypeString(k) + ("]" + TypeString(v) + rest)) == (Erase(k), "]" + TypeString(v) + rest)
    requires ParseType(TypeString(v) + rest) == (Erase(v), rest)
    ensures ParseType(TypeString(MapType(k, v)) + rest) == (Erase(MapType(k, v)), rest)
  {
    ParseMapText(TypeString(k), TypeString(v), rest, Erase(k), Erase(v));
  }

  lemma ParseMapText(tk: string, tv: string, rest: string, ek: Expr, ev: Expr)
    requires ParseType(tk + ("]" + tv + rest)) == (ek, "]" + tv + rest)
    requires ParseType(tv + rest) == (ev, rest)
    ensures ParseType("map[" + tk + "]" + tv + rest) == (MapType(ek, ev), rest)
  {
    MapConcat(tk, tv, rest);
    ParseMapStep("map[" + tk + "]" + tv + rest, ek, ev, "]" + tv + rest, rest);
  }

  lemma MapConcat(tk: string, tv: string, rest: string)
    ensures HasPrefix("map[" + tk + "]" + tv + rest, "map[")
    ensures !HasPrefix("map[" + tk + "]" + tv + rest, "[]")
    ensures ("map[" + tk + "]" + tv + rest)[4..] == tk + ("]" + tv + rest)
    ensures ("]" + tv + rest)[1..] == tv + rest
  {
    var rest1 := "]" + tv + rest;
    var s := "map[" + tk + "]" + tv + rest;
    assert s == "map[" + (tk + rest1);
    MapText(tk + rest1);
  }

  lemma MapText(a: string)
    ensures HasPrefix("map[" + a, "map[") && !HasPrefix("map[" + a, "[]")
    ensures ("map[" + a)[4..] == a
  {
    assert ("map[" + a)[0] == 'm';
  }

  lemma ParseMapStep(s: string, k: Expr, v: Expr, rest1: string, rest: string)
    requires HasPrefix(s, "map[") && !HasPrefix(s, "[]")
    requires ParseType(s[4..]) == (k, rest1)
    requires |rest1| > 0 && rest1[0] == ']'
    requires ParseType(rest1[1..]) == (v, rest)
    ensures ParseType(s) == (MapType(k, v), rest)
  {
  }

  lemma ParseNothing(rest: string)
    requires rest == "" || rest[0] == ']'
    ensures ParseType(rest) == (OtherExpr, rest)
  {
    if |rest| > 0 {
      assert !HasPrefix(rest, "[]") && !HasPrefix(rest, "map[");
      assert NameLength(rest) == 0;
    }
  }

  lemma ParseName(n: string, rest: string)
    requires ValidName(n)
    requires rest == "" || rest[0] == ']'
    ensures ParseType(n + rest) == (Ident(n), rest)
  {
    var s := n + rest;
    assert !HasPrefix(s, "[]") by { assert s[0] == n[0]; }
    assert !HasPrefix(s, "map[") by {
      if |n| > 3 { assert s[3] == n[3]; }
      else if |s| > 3 { assert s[|n|] == ']'; }
    }
    NameLengthOf(n, rest);
    assert s[..|n|] == n && s[|n|..] == rest;
  }

  lemma {:induction false} NameLengthOf(n: string, rest: string)
    requires forall i :: 0 <= i < |n| ==> IsNameChar(n[i])
    requires rest == "" || rest[0] == ']'
    ensures NameLength(n + rest) == |n|
    decreases |n|
  {
    if |n| > 0 {
      assert (n + rest)[1..] == n[1..] + rest;
      NameLengthOf(n[1..], rest);
    }
  }

  /** Two well-formed type expressions with the same type string differ at most in
      their package qualifiers. */
  lemma TypeStringInjective(a: Expr, b: Expr)
    requires WellFormed(a) && WellFormed(b)
    requires TypeString(a) == TypeString(b)
    ensures Erase(a) == Erase(b)
  {
    ParseTypeString(a, "");
    ParseTypeString(b, "");
    assert TypeString(a) + "" == TypeString(a);
    assert TypeString(b) + "" == TypeString(b);
  }

  // ---------------------------------------------------------------------------
  // Method signatures

  /** `FunctionSignature`: a method name with its parameter and result maps from
      name to type string. */
  datatype FunctionSignature = FunctionSignature(
    name: string,
    params: map<string, string>,
    results: map<string, string>)

  /** `parseVariables`: the first declared name and the type string; an unnamed field
      is named by its type string. */
  function ParseVariable(f: Field): (nv: (string, string))
    ensures nv.1 == TypeString(f.typ)
    ensures |f.names| == 0 ==> nv.0 == TypeString(f.typ)
    ensures |f.names| > 0 ==> nv.0 == f.names[0]
  {
    var typ := TypeString(f.typ);
    if |f.names| < 1 then (typ, typ) else (f.names[0], typ)
  }

  /** Type strings that name the transport rather than the payload. */
  predicate IsTransportKind(v: string) {
    ToLower(v) == "context" || ToLower(v) == "error"
  }

  /** One iteration of a parameter or result loop of `CheckFunctionSignature`. */
  function SignatureStep(f: Field): Step<string> {
    var (n, v) := ParseVariable(f);
    if IsTransportKind(v) then Skip else Put(n, v)
  }

  function SignatureSteps(fields: seq<Field>): (steps: seq<Step<string>>)
    ensures |steps| == |fields|
    ensures forall i :: 0 <= i < |fields| ==> steps[i] == SignatureStep(fields[i])
  {
    seq(|fields|, i requires 0 <= i < |fields| => SignatureStep(fields[i]))
  }

  /** Field `i` is kept, and no later kept field has the same name. */
  predicate LastKept(fields: seq<Field>, i: int)
    requires 0 <= i < |fields|
  {
    && !IsTransportKind(ParseVariable(fields[i]).1)
    && forall j :: i < j < |fields| && !IsTransportKind(ParseVariable(fields[j]).1) ==>
         ParseVariable(fields[j]).0 != ParseVariable(fields[i]).0
  }

  /** `m` is what one loop of `CheckFunctionSignature` builds from `fields`: a field is
      left out exactly when its type string, lower-cased, is `context` or `error`; every
      other field is stored under its name, a later field overwriting an earlier one. */
  ghost predicate RecordsFields(m: map<string, string>, fields: seq<Field>) {
    && (forall n :: n in m <==>
          exists i :: 0 <= i < |fields| && !IsTransportKind(ParseVariable(fields[i]).1)
                      && ParseVariable(fields[i]).0 == n)
    && (forall i :: 0 <= i < |fields| && LastKept(fields, i) ==>
          m[ParseVariable(fields[i]).0] == ParseVariable(fields[i]).1)
    && (forall n :: n in m ==> !IsTransportKind(m[n]))
  }

  /** The map one loop of `CheckFunctionSignature` builds. */
  function RecordFields(fields: seq<Field>): (m: map<string, string>)
    ensures RecordsFields(m, fields)
  {
    var m := Assign(map[], SignatureSteps(fields));
    RecordFieldsCorrect(fields, m);
    m
  }

  lemma RecordFieldsCorrect(fields: seq<Field>, m: map<string, string>)
    requires m == Assign(map[], SignatureSteps(fields))
    ensures RecordsFields(m, fields)
  {
    RecordedKeys(fields, m);
    RecordedValues(fields, m);
    RecordedKinds(fields, m);
  }

  lemma RecordedKeys(fields: seq<Field>, m: map<string, string>)
    requires m == Assign(map[], SignatureSteps(fields))
    ensures forall n :: n in m <==>
      exists i :: 0 <= i < |fields| && !IsTransportKind(ParseVariable(fields[i]).1)
                  && ParseVariable(fields[i]).0 == n
  {
    var steps := SignatureSteps(fields);
    forall n ensures n in m <==>
      exists i :: 0 <= i < |fields| && !IsTransportKind(ParseVariable(fields[i]).1)
                  && ParseVariable(fields[i]).0 == n
    {
      if n in m {
        var i :| 0 <= i < |steps| && steps[i].Put? && steps[i].key == n;
        assert SignatureStep(fields[i]) == steps[i];
      }
    }
  }

  lemma RecordedValues(fields: seq<Field>, m: map<string, string>)
    requires m == Assign(map[], SignatureSteps(fields))
    ensures forall i :: 0 <= i < |fields| && LastKept(fields, i) ==>
      m[ParseVariable(fields[i]).0] == ParseVariable(fields[i]).1
  {
    var steps := SignatureSteps(fields);
    forall i | 0 <= i < |fields| && LastKept(fields, i)
      ensures m[ParseVariable(fields[i]).0] == ParseVariable(fields[i]).1
    {
      assert LastFor(steps, i);
    }
  }

  lemma RecordedKinds(fields: seq<Field>, m: map<string, string>)
    requires m == Assign(map[], SignatureSteps(fields))
    ensures forall n :: n in m ==> !IsTransportKind(m[n])
  {
    var steps := SignatureSteps(fields);
    forall n | n in m ensures !IsTransportKind(m[n]) {
      var i :| 0 <= i < |steps| && steps[i].Put? && steps[i].key == n;
      LastAssignmentExists(steps, i);
    }
  }

  /** Every assigned key has a last assignment. */
  lemma {:induction false} LastAssignmentExists<V>(steps: seq<Step<V>>, i: int)
    requires 0 <= i < |steps| && steps[i].Put?
    ensures exists j :: i <= j < |steps| && LastFor(steps, j) && steps[j].key == steps[i].key
    decreases |steps| - i
  {
    if !LastFor(steps, i) {
      var j :| i < j < |steps| && steps[j].Put? && steps[j].key == steps[i].key;
      LastAssignmentExists(steps, j);
    }
  }

  /** The fields of a possibly nil field list. */
  function ListOrEmpty(fields: Option<seq<Field>>): seq<Field> {
    match fields
    case None => []
    case Some(fs) => fs
  }

  /** `CheckFunctionSignature`, with a nil result list read as an empty one (see
      `CheckFunctionSignatureAsWritten` for the code as it stands). */
  function CheckFunctionSignature(fn: FuncType): (sig: FunctionSignature)
    ensures sig.name == ""
    ensures RecordsFields(sig.params, fn.params)
    ensures RecordsFields(sig.results, ListOrEmpty(fn.results))
  {
    FunctionSignature("", RecordFields(fn.params), RecordFields(ListOrEmpty(fn.results)))
  }

  /** `CheckFunctionSignature` as written: ranging over `fn.Results.List` dereferences a
      nil pointer, and panics, when the method declares no results. */
  function CheckFunctionSignatureAsWritten(fn: FuncType): (r: Result<FunctionSignature>)
    ensures r.Failed? <==> fn.results.None?
    ensures r.Ok? ==> r.value == CheckFunctionSignature(fn)
  {
    match fn.results
    case None => Failed("invalid memory address or nil pointer dereference")
    case Some(results) =>
      Ok(FunctionSignature("", RecordFields(fn.params), RecordFields(results)))
  }

  /** A method `Ping(ctx context.Context)` with no results stops the reader as written;
      read with an empty result list it has no parameters and no results. */
  lemma MethodWithoutResults()
    ensures var fn := FuncType([Field(["ctx"], Selector("context", "Context"))], None);
      && CheckFunctionSignatureAsWritten(fn).Failed?
      && CheckFunctionSignature(fn).params == map[]
      && CheckFunctionSignature(fn).results == map[]
  {
    var f := Field(["ctx"], Selector("context", "Context"));
    var fn := FuncType([f], None);
    ContextIsTransport();
    assert ParseVariable(f).1 == "Context";
    var sig := CheckFunctionSignature(fn);
    assert forall n :: n !in sig.params;
    assert sig.params.Keys == {};
    assert ListOrEmpty(fn.results) == [];
    assert sig.results.Keys == {};
  }

  lemma ContextIsTransport()
    ensures IsTransportKind("Context")
  {
    assert ToLower("Context") == "context";
  }

  /** The signature recorded for an interface method: the checked signature under the
      method's name. */
  function MethodSignature(name: string, fn: FuncType): (sig: FunctionSignature)
    ensures sig.name == name
    ensures sig.params == CheckFunctionSignature(fn).params
    ensures sig.results == CheckFunctionSignature(fn).results
  {
    CheckFunctionSignature(fn).(name := name)
  }

  /** `ListInterfaceMethods`: one signature per method in declaration order; embedded
      interfaces contribute nothing. */
  function ListInterfaceMethods(entries: seq<InterfaceEntry>): (sigs: seq<FunctionSignature>)
    ensures |sigs| <= |entries|
  {
    if |entries| == 0 then []
    else
      var tail := ListInterfaceMethods(entries[1..]);
      EntrySignatures(entries[0]) + tail
  }

  /** `ListInterfaceMethods` as written: the listing stops with the nil-pointer panic
      of `CheckFunctionSignatureAsWritten` as soon as a method declares no results;
      otherwise it lists what the corrected reading lists. */
  function ListInterfaceMethodsAsWritten(entries: seq<InterfaceEntry>): (r: Result<seq<FunctionSignature>>)
    ensures r.Failed? <==> exists i :: 0 <= i < |entries| && entries[i].Method? && entries[i].sig.results.None?
    ensures r.Ok? ==> r.value == ListInterfaceMethods(entries)
    decreases |entries|
  {
    if |entries| == 0 then Ok([])
    else
      var head: Result<seq<FunctionSignature>> := match entries[0]
        case Embedded(_) => Ok([])
        case Method(n, fn) =>
          (match CheckFunctionSignatureAsWritten(fn)
           case Failed(e) => Failed(e)
           case Ok(sig) => Ok([sig.(name := n)]));
      match head
      case Failed(e) => Failed(e)
      case Ok(h) =>
        match ListInterfaceMethodsAsWritten(entries[1..])
        case Failed(e) =>
          var i :| 0 <= i < |entries[1..]| && entries[1..][i].Method? && entries[1..][i].sig.results.None?;
          assert entries[i + 1] == entries[1..][i];
          Failed(e)
        case Ok(tail) =>
          assert forall i :: 0 < i < |entries| ==> entries[i] == entries[1..][i - 1];
          Ok(h + tail)
  }

  /** The signatures one interface entry contributes. */
  function EntrySignatures(entry: InterfaceEntry): seq<FunctionSignature> {
    match entry
    case Method(n, fn) => [MethodSignature(n, fn)]
    case Embedded(_) => []
  }

  lemma AppendAssociates<T>(a: seq<T>, b: seq<T>, c: seq<T>)
    ensures a + (b + c) == (a + b) + c
  {
  }

  /** Listing the methods of two runs of entries is listing each run in turn. */
  lemma {:induction false} ListInterfaceMethodsAppend(a: seq<InterfaceEntry>, b: seq<InterfaceEntry>)
    ensures ListInterfaceMethods(a + b) == ListInterfaceMethods(a) + ListInterfaceMethods(b)
  {
    if |a| > 0 {
      assert (a + b)[0] == a[0];
      assert (a + b)[1..] == a[1..] + b;
      ListInterfaceMethodsAppend(a[1..], b);
      var h, ta, tb := EntrySignatures(a[0]), ListInterfaceMethods(a[1..]), ListInterfaceMethods(b);
      assert ListInterfaceMethods(a + b) == h + (ta + tb);
      assert ListInterfaceMethods(a) == h + ta;
      AppendAssociates(h, ta, tb);
    } else {
      assert a + b == b;
    }
  }

  /** An embedded interface anywhere among the entries changes nothing. */
  lemma EmbeddedSkipped(a: seq<InterfaceEntry>, t: Expr, b: seq<InterfaceEntry>)
    ensures ListInterfaceMethods(a + [Embedded(t)] + b) == ListInterfaceMethods(a + b)
  {
    var e: seq<InterfaceEntry> := [Embedded(t)];
    assert ListInterfaceMethods(e) == EntrySignatures(e[0]) + ListInterfaceMethods(e[1..]);
    assert ListInterfaceMethods(e) == [];
    ListInterfaceMethodsAppend(a + e, b);
    ListInterfaceMethodsAppend(a, e);
    ListInterfaceMethodsAppend(a, b);
    assert ListInterfaceMethods(a + e) == ListInterfaceMethods(a);
  }

  /** Without embedded interfaces, signature `i` belongs to method `i`. */
  lemma {:induction false} ListInterfaceMethodsInOrder(entries: seq<InterfaceEntry>)
    requires forall i :: 0 <= i < |entries| ==> entries[i].Method?
    ensures |ListInterfaceMethods(entries)| == |entries|
    ensures forall i :: 0 <= i < |entries| ==>
      ListInterfaceMethods(entries)[i] == MethodSignature(entries[i].name, entries[i].sig)
  {
    if |entries| > 0 {
      ListInterfaceMethodsInOrder(entries[1..]);
      var sigs := ListInterfaceMethods(entries);
      assert sigs == [MethodSignature(entries[0].name, entries[0].sig)] + ListInterfaceMethods(entries[1..]);
      forall i | 0 <= i < |entries| ensures sigs[i] == MethodSignature(entries[i].name, entries[i].sig) {
        if i > 0 { assert entries[1..][i - 1] == entries[i]; }
      }
    }
  }

  // ---------------------------------------------------------------------------
  // Struct properties

  /** One iteration of the field loop of `ListStructProperties` for a named field: the
      `switch` on the field's type, with no assignment when no case matches. */
  function PropertyStep(f: Field): (s: Step<string>)
    requires |f.names| > 0
    ensures s.Skip? <==> f.typ.OtherExpr?
    ensures s.Put? ==> s.key == f.names[0] && s.value == TypeString(f.typ)
  {
    var name := f.names[0];
    match f.typ
    case Ident(n) => Put(name, n)
    case Selector(_, sel) => Put(name, sel)
    case ArrayType(elt) => Put(name, "[]" + TypeString(elt))
    case MapType(k, v) => Put(name, "map[" + TypeString(k) + "]" + TypeString(v))
    case OtherExpr => Skip
  }

  predicate AllNamed(fields: seq<Field>) {
    forall i :: 0 <= i < |fields| ==> |fields[i].names| > 0
  }

  /** Field `i` gets an entry, and no later field with an entry has the same first name. */
  predicate LastProperty(fields: seq<Field>, i: int)
    requires 0 <= i < |fields| && AllNamed(fields)
  {
    && !fields[i].typ.OtherExpr?
    && forall j :: i < j < |fields| && !fields[j].typ.OtherExpr? ==> fields[j].names[0] != fields[i].names[0]
  }

  /** `ListStructProperties`: each field with a classifiable type is stored under its
      first name with its type string, a later field overwriting an earlier one; a field
      of any other type gets no entry. An embedded field, which has no name, makes
      `field.Names[0]` panic. */
  function ListStructProperties(fields: seq<Field>): (r: Result<map<string, string>>)
    ensures r.Failed? <==> !AllNamed(fields)
    ensures r.Ok? ==> forall n :: n in r.value <==>
      exists i :: 0 <= i < |fields| && !fields[i].typ.OtherExpr? && fields[i].names[0] == n
    ensures r.Ok? ==> forall i :: 0 <= i < |fields| && LastProperty(fields, i) ==>
      r.value[fields[i].names[0]] == TypeString(fields[i].typ)
  {
    if !AllNamed(fields) then Failed("index out of range [0] with length 0")
    else
      var steps := seq(|fields|, i requires 0 <= i < |fields| => PropertyStep(fields[i]));
      var m := Assign(map[], steps);
      forall i | 0 <= i < |fields| && LastProperty(fields, i) ensures LastFor(steps, i) { }
      forall n ensures n in m <==>
        exists i :: 0 <= i < |fields| && !fields[i].typ.OtherExpr? && fields[i].names[0] == n
      {
        if n in m {
          var i :| 0 <= i < |steps| && steps[i].Put? && steps[i].key == n;
          assert !fields[i].typ.OtherExpr? && fields[i].names[0] == n;
        }
        if exists i :: 0 <= i < |fields| && !fields[i].typ.OtherExpr? && fields[i].names[0] == n {
          var i :| 0 <= i < |fields| && !fields[i].typ.OtherExpr? && fields[i].names[0] == n;
          assert steps[i].Put? && steps[i].key == n;
        }
      }
      Ok(m)
  }

  // ---------------------------------------------------------------------------
  // Declarations and imports

  /** What the reader accumulates: `data`, struct name to property map, and `fs`,
      interface name to method signatures. */
  datatype Declarations = Declarations(
    data: map<string, map<string, string>>,
    fs: map<string, seq<FunctionSignature>>)

  /** `ast.IsExported`, for names that start with an ASCII letter. */
  predicate IsExported(name: string) {
    |name| > 0 && IsUpperAscii(name[0])
  }

  /** The `*ast.TypeSpec` case of the walk: an exported struct replaces the entry of its
      name in `data`, an exported interface the entry in `fs`; every other declaration,
      and every unexported one, changes nothing. */
  function VisitTypeSpec(d: Declarations, spec: TypeSpec): (r: Result<Declarations>)
    ensures !IsExported(spec.name) || spec.body.OtherType? ==> r == Ok(d)
    ensures r.Failed? <==> IsExported(spec.name) && spec.body.StructType? && !AllNamed(spec.body.fields)
    ensures r.Ok? ==> r.value.data - {spec.name} == d.data - {spec.name}
    ensures r.Ok? ==> r.value.fs - {spec.name} == d.fs - {spec.name}
    ensures r.Ok? && IsExported(spec.name) && spec.body.StructType? ==>
      r.value.data == d.data[spec.name := ListStructProperties(spec.body.fields).value]
      && r.value.fs == d.fs
    ensures IsExported(spec.name) && spec.body.InterfaceType? ==>
      r == Ok(d.(fs := d.fs[spec.name := ListInterfaceMethods(spec.body.entries)]))
  {
    if !IsExported(spec.name) then Ok(d)
    else
      match spec.body
      case StructType(fields) =>
        (match ListStructProperties(fields)
         case Ok(props) => Ok(d.(data := d.data[spec.name := props]))
         case Failed(e) => Failed(e))
      case InterfaceType(entries) => Ok(d.(fs := d.fs[spec.name := ListInterfaceMethods(entries)]))
      case OtherType(_) => Ok(d)
  }

  /** A declaration whose visit panics: an exported struct with an unnamed field. */
  predicate Panics(spec: TypeSpec) {
    IsExported(spec.name) && spec.body.StructType? && !AllNamed(spec.body.fields)
  }

  /** The type declarations of one file visited in order; the first panic stops the
      walk, so the walk fails exactly when some declaration panics. */
  function VisitTypeSpecs(d: Declarations, specs: seq<TypeSpec>): (r: Result<Declarations>)
    ensures r.Failed? <==> exists i :: 0 <= i < |specs| && Panics(specs[i])
    decreases |specs|
  {
    if |specs| == 0 then Ok(d)
    else
      assert forall i :: 0 < i < |specs| ==> specs[i] == specs[1..][i - 1];
      match VisitTypeSpec(d, specs[0])
      case Failed(e) => Failed(e)
      case Ok(d1) => VisitTypeSpecs(d1, specs[1..])
  }

  function DeclaredNames(specs: seq<TypeSpec>): set<string> {
    set i | 0 <= i < |specs| :: specs[i].name
  }

  /** Names no declaration of the run mentions keep their entries. */
  lemma {:induction false} VisitTypeSpecsFrame(d: Declarations, specs: seq<TypeSpec>)
    requires VisitTypeSpecs(d, specs).Ok?
    ensures VisitTypeSpecs(d, specs).value.data - DeclaredNames(specs) == d.data - DeclaredNames(specs)
    ensures VisitTypeSpecs(d, specs).value.fs - DeclaredNames(specs) == d.fs - DeclaredNames(specs)
    decreases |specs|
  {
    if |specs| > 0 {
      var d1 := VisitTypeSpec(d, specs[0]).value;
      VisitTypeSpecsFrame(d1, specs[1..]);
      DeclaredNamesFirst(specs);
      var r := VisitTypeSpecs(d, specs).value;
      assert r == VisitTypeSpecs(d1, specs[1..]).value;
      FrameStep(r.data, d1.data, d.data, specs[0].name, DeclaredNames(specs[1..]));
      FrameStep(r.fs, d1.fs, d.fs, specs[0].name, DeclaredNames(specs[1..]));
    }
  }

  lemma DeclaredNamesFirst(specs: seq<TypeSpec>)
    requires |specs| > 0
    ensures DeclaredNames(specs) == {specs[0].name} + DeclaredNames(specs[1..])
  {
    var names, tailNames := DeclaredNames(specs), DeclaredNames(specs[1..]);
    forall x | x in names ensures x in {specs[0].name} + tailNames {
      var i :| 0 <= i < |specs| && specs[i].name == x;
      if i > 0 { assert specs[1..][i - 1] == specs[i]; }
    }
    forall x | x in tailNames ensures x in names {
      var i :| 0 <= i < |specs[1..]| && specs[1..][i].name == x;
      assert specs[i + 1] == specs[1..][i];
    }
  }

  /** A map that agrees off `rest` with one that agrees off `{n}` with a third agrees
      with that third off both. */
  lemma FrameStep<V>(r: map<string, V>, d1: map<string, V>, d: map<string, V>, n: string, rest: set<string>)
    requires r - rest == d1 - rest && d1 - {n} == d - {n}
    ensures r - ({n} + rest) == d - ({n} + rest)
  {
    assert r - ({n} + rest) == (r - rest) - {n};
    assert d1 - ({n} + rest) == (d1 - {n}) - rest;
    assert d - ({n} + rest) == (d - {n}) - rest;
  }

  /** The last exported struct declaration of a name decides its property map. */
  lemma {:induction false} LastStructWins(d: Declarations, specs: seq<TypeSpec>, i: int)
    requires VisitTypeSpecs(d, specs).Ok?
    requires 0 <= i < |specs| && IsExported(specs[i].name) && specs[i].body.StructType?
    requires forall j :: i < j < |specs| ==> specs[j].name != specs[i].name
    ensures specs[i].name in VisitTypeSpecs(d, specs).value.data
    ensures ListStructProperties(specs[i].body.fields) == Ok(VisitTypeSpecs(d, specs).value.data[specs[i].name])
    decreases |specs|
  {
    var d1 := VisitTypeSpec(d, specs[0]).value;
    if i == 0 {
      var name := specs[0].name;
      var tailNames := DeclaredNames(specs[1..]);
      VisitTypeSpecsFrame(d1, specs[1..]);
      var r := VisitTypeSpecs(d1, specs[1..]).value;
      assert r == VisitTypeSpecs(d, specs).value;
      assert name in d1.data - tailNames;
      assert name in r.data - tailNames;
      assert (r.data - tailNames)[name] == (d1.data - tailNames)[name];
    } else {
      LastStructWins(d1, specs[1..], i - 1);
    }
  }

  /** The import case of the walk: `None` when the quoted path does not contain the
      module name (the walk does not descend); otherwise the directory to read, which is
      the path without its quotes and without its first `/`-separated segment. */
  function ImportDirectory(pathLiteral: string, moduleName: string): (dir: Option<string>)
    ensures dir.None? <==> !Contains(pathLiteral, moduleName)
    ensures dir.Some? ==> '"' !in dir.value
    ensures dir.Some? && '/' !in RemoveAll(pathLiteral, '"') ==> dir.value == ""
    ensures dir.Some? && '/' in RemoveAll(pathLiteral, '"') ==>
      var path := RemoveAll(pathLiteral, '"');
      path == path[..IndexOf(path, '/')] + "/" + dir.value
  {
    if !Contains(pathLiteral, moduleName) then None
    else
      var path := RemoveAll(pathLiteral, '"');
      FirstSegmentDropped(path);
      Some(Join(Split(path, '/')[1..], "/"))
  }

  /** Dropping the first `/`-separated segment of a path leaves what follows its
      first `/`, or nothing when there is no `/`, and adds no quote. */
  lemma FirstSegmentDropped(path: string)
    ensures var dir := Join(Split(path, '/')[1..], "/");
      && ('"' !in path ==> '"' !in dir)
      && ('/' !in path ==> dir == "")
      && ('/' in path ==> path == path[..IndexOf(path, '/')] + "/" + dir)
  {
    if '"' !in path {
      FirstSegmentQuoteFree(path);
    }
    if '/' in path {
      FirstSegmentRest(path);
    }
  }

  lemma FirstSegmentQuoteFree(path: string)
    requires '"' !in path
    ensures '"' !in Join(Split(path, '/')[1..], "/")
  {
    var tail := Split(path, '/')[1..];
    forall k | 0 <= k < |tail|
      ensures '"' !in tail[k]
    {
      assert tail[k] == Split(path, '/')[k + 1];
    }
    JoinQuoteFree(tail);
  }

  lemma FirstSegmentRest(path: string)
    requires '/' in path
    ensures path == path[..IndexOf(path, '/')] + "/" + Join(Split(path, '/')[1..], "/")
  {
    var i := IndexOf(path, '/');
    assert Split(path, '/')[1..] == Split(path[i + 1..], '/');
    JoinSplit(path[i + 1..], '/');
    assert path == path[..i] + "/" + path[i + 1..];
  }

  lemma {:induction false} JoinQuoteFree(parts: seq<string>)
    requires forall k :: 0 <= k < |parts| ==> '"' !in parts[k]
    ensures '"' !in Join(parts, "/")
  {
    if |parts| > 1 { JoinQuoteFree(parts[1..]); }
  }

  /** The directory of a local import in the module of the same name, as in
      `"gobridge/example/second"`, is the path after the module name. */
  lemma LocalImportDirectory(moduleName: string, rest: string)
    requires |moduleName| > 0
    requires '/' !in moduleName && '"' !in moduleName && '"' !in rest
    ensures ImportDirectory("\"" + moduleName + "/" + rest + "\"", moduleName) == Some(rest)
  {
    var lit := "\"" + moduleName + "/" + rest + "\"";
    LiteralContainsModule(moduleName, rest);
    var path := moduleName + "/" + rest;
    assert lit == "\"" + path + "\"";
    RemoveQuotes(path);
    LocalPathRest(moduleName, rest);
  }

  lemma LiteralContainsModule(moduleName: string, rest: string)
    ensures Contains("\"" + moduleName + "/" + rest + "\"", moduleName)
  {
    var lit := "\"" + moduleName + "/" + rest + "\"";
    assert lit[1..1 + |moduleName|] == moduleName;
    ContainsAt(lit, moduleName, 1);
  }

  /** After the module's own segment comes the rest of the path. */
  lemma LocalPathRest(moduleName: string, rest: string)
    requires '/' !in moduleName
    ensures Join(Split(moduleName + "/" + rest, '/')[1..], "/") == rest
  {
    var path := moduleName + "/" + rest;
    assert path[|moduleName|] == '/' && path[..|moduleName|] == moduleName;
    IndexOfUnique(path, '/', |moduleName|);
    FirstSegmentRest(path);
    var dir := Join(Split(path, '/')[1..], "/");
    assert path == moduleName + "/" + dir;
    assert (moduleName + "/" + dir)[|moduleName| + 1..] == dir;
    assert path[|moduleName| + 1..] == rest;
  }

  lemma RemoveQuotes(path: string)
    requires '"' !in path
    ensures RemoveAll("\"" + path + "\"", '"') == path
  {
    var lit := "\"" + path + "\"";
    assert lit[1..] == path + "\"";
    RemoveAllAppend(path, "\"", '"');
  }

  lemma {:induction false} RemoveAllAppend(a: string, b: string, c: char)
    ensures RemoveAll(a + b, c) == RemoveAll(a, c) + RemoveAll(b, c)
  {
    if |a| > 0 {
      assert (a + b)[1..] == a[1..] + b;
      RemoveAllAppend(a[1..], b, c);
    } else {
      assert a + b == b;
    }
  }

  /** The directories the walk descends into for a file's imports, in order: one per
      import of the module, and no others. */
  function LocalImportDirs(imports: seq<string>, moduleName: string): (dirs: seq<string>)
    ensures |dirs| <= |imports|
    ensures forall dir :: dir in dirs <==>
      exists i :: 0 <= i < |imports| && ImportDirectory(imports[i], moduleName) == Some(dir)
    decreases |imports|
  {
    if |imports| == 0 then []
    else
      var head := match ImportDirectory(imports[0], moduleName)
        case None => []
        case Some(dir) => [dir];
      var tail := LocalImportDirs(imports[1..], moduleName);
      assert forall i :: 0 < i < |imports| ==> imports[i] == imports[1..][i - 1];
      head + tail
  }

  /** Reading dependency directories one after the other with `loadDir`, which stands
      for the recursive `readFile` of every file in a directory; its panic stops all,
      so the reading succeeds whenever no directory can fail to load. */
  function LoadDirs(d: Declarations, dirs: seq<string>,
                    loadDir: (Declarations, string) -> Result<Declarations>): (r: Result<Declarations>)
    ensures |dirs| == 0 ==> r == Ok(d)
    ensures (forall e, dir :: dir in dirs ==> loadDir(e, dir).Ok?) ==> r.Ok?
    ensures |dirs| > 0 && loadDir(d, dirs[0]).Failed? ==> r.Failed?
    decreases |dirs|
  {
    if |dirs| == 0 then Ok(d)
    else
      match loadDir(d, dirs[0])
      case Failed(e) => Failed(e)
      case Ok(d1) => LoadDirs(d1, dirs[1..], loadDir)
  }

  /** `readFile` on one parsed file: first every local import is read, then the file's
      own type declarations are recorded. Once the dependencies are read, the file
      fails exactly when one of its own declarations panics, and the names it does
      not declare keep what the dependencies recorded. */
  function VisitFile(d: Declarations, file: GoFile, moduleName: string,
                     loadDir: (Declarations, string) -> Result<Declarations>): (r: Result<Declarations>)
    ensures LoadDirs(d, LocalImportDirs(file.imports, moduleName), loadDir).Failed? ==> r.Failed?
    ensures LoadDirs(d, LocalImportDirs(file.imports, moduleName), loadDir).Ok? ==>
      (r.Failed? <==> exists i :: 0 <= i < |file.specs| && Panics(file.specs[i]))
    ensures r.Ok? ==>
      r.value.data - DeclaredNames(file.specs)
      == LoadDirs(d, LocalImportDirs(file.imports, moduleName), loadDir).value.data - DeclaredNames(file.specs)
  {
    match LoadDirs(d, LocalImportDirs(file.imports, moduleName), loadDir)
    case Failed(e) => Failed(e)
    case Ok(d1) =>
      var r := VisitTypeSpecs(d1, file.specs);
      if r.Ok? then VisitTypeSpecsFrame(d1, file.specs); r else r
  }

  /** A file's own struct declaration overrides whatever its dependencies recorded
      under the same name, and a name the file does not declare keeps what they
      recorded. */
  lemma FileOverridesDependencies(d: Declarations, file: GoFile, moduleName: string,
                                  loadDir: (Declarations, string) -> Result<Declarations>, i: int)
    requires VisitFile(d, file, moduleName, loadDir).Ok?
    requires 0 <= i < |file.specs| && IsExported(file.specs[i].name) && file.specs[i].body.StructType?
    requires forall j :: i < j < |file.specs| ==> file.specs[j].name != file.specs[i].name
    ensures var loaded := LoadDirs(d, LocalImportDirs(file.imports, moduleName), loadDir);
      && loaded.Ok?
      && file.specs[i].name in VisitFile(d, file, moduleName, loadDir).value.data
      && ListStructProperties(file.specs[i].body.fields)
         == Ok(VisitFile(d, file, moduleName, loadDir).value.data[file.specs[i].name])
      && VisitFile(d, file, moduleName, loadDir).value.data - DeclaredNames(file.specs)
         == loaded.value.data - DeclaredNames(file.specs)
  {
    var loaded := LoadDirs(d, LocalImportDirs(file.imports, moduleName), loadDir);
    LastStructWins(loaded.value, file.specs, i);
    VisitTypeSpecsFrame(loaded.value, file.specs);
  }
}
