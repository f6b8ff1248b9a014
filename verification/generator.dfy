/** The model-building half of `generator/generator.go`: the Go to TypeScript type
    mapping and the assembly of the client description that `TSClient` hands to the
    TypeScript template. File creation and writing are not modelled. */
module Generator {
  import opened GoStrings
  import opened Reader

  // ---------------------------------------------------------------------------
  // Predeclared types

  /** `isBuiltInType`: the predeclared Go type names the generator knows, which are
      exactly `bool`, the textual names and the numeric names. */
  predicate IsBuiltInType(typ: string)
    ensures IsBuiltInType(typ) <==> typ == "bool" || IsTextual(typ) || IsNumeric(typ)
  {
    match typ
    case "bool" | "byte" | "complex128" | "complex64" | "error" => true
    case "float32" | "float64" => true
    case "int" | "int16" | "int32" | "int64" | "int8" => true
    case "rune" | "string" => true
    case "uint" | "uint16" | "uint32" | "uint64" | "uint8" | "uintptr" => true
    case _ => false
  }

  /** The predeclared names TypeScript represents as text. */
  predicate IsTextual(typ: string) {
    typ == "byte" || typ == "complex128" || typ == "complex64" || typ == "error"
    || typ == "rune" || typ == "string"
  }

  /** The predeclared numeric names: every width of int, uint and float. */
  predicate IsNumeric(typ: string) {
    typ == "float32" || typ == "float64"
    || typ == "int" || typ == "int16" || typ == "int32" || typ == "int64" || typ == "int8"
    || typ == "uint" || typ == "uint16" || typ == "uint32" || typ == "uint64" || typ == "uint8"
    || typ == "uintptr"
  }

  // ---------------------------------------------------------------------------
  // Go to TypeScript

  /** The default branch of `switchToTypescriptType`: a slice loses one leading `[]`
      and gains a trailing `[]`; then anything starting with `map` becomes `any`. */
  function NonPrimitive(typ: string): (r: string)
    ensures HasPrefix(typ, "[]") && !HasPrefix(typ[2..], "map") ==> r == typ[2..] + "[]"
    ensures HasPrefix(typ, "[]") && HasPrefix(typ[2..], "map") ==> r == "any"
    ensures !HasPrefix(typ, "[]") && HasPrefix(typ, "map") ==> r == "any"
    ensures !HasPrefix(typ, "[]") && !HasPrefix(typ, "map") ==> r == typ
  {
    var t := if HasPrefix(typ, "[]") then TrimPrefix(typ, "[]") + "[]" else typ;
    SliceRewriteShape(typ);
    if HasPrefix(t, "map") then "any" else t
  }

  lemma SliceRewriteShape(typ: string)
    ensures HasPrefix(typ, "[]") ==>
      TrimPrefix(typ, "[]") == typ[2..]
      && (HasPrefix(TrimPrefix(typ, "[]") + "[]", "map") <==> HasPrefix(typ[2..], "map"))
  {
    if HasPrefix(typ, "[]") {
      assert typ == "[]" + typ[2..];
      SliceRewritePrefix(typ[2..]);
    }
  }

  /** Appending `[]` does not change whether a string starts with `map`. */
  lemma SliceRewritePrefix(elt: string)
    ensures HasPrefix(elt + "[]", "map") <==> HasPrefix(elt, "map")
  {
    if |elt| >= 3 {
      assert (elt + "[]")[..3] == elt[..3];
    } else {
      assert (elt + "[]")[|elt|] == '[';
    }
  }

  /** `switchToTypescriptType`: the first matching case wins. */
  function ToTypescript(typ: string): (r: string)
    ensures typ == "bool" ==> r == "boolean"
    ensures typ == "Time" ==> r == "Date"
    ensures !IsBuiltInType(typ) && typ != "Time" ==> r == NonPrimitive(typ)
  {
    match typ
    case "byte" | "complex128" | "complex64" | "error" => "string"
    case "bool" => "boolean"
    case "float32" | "float64" => "number"
    case "int" | "int16" | "int32" | "int64" | "int8" => "number"
    case "rune" | "string" => "string"
    case "uint" | "uint16" | "uint32" | "uint64" | "uint8" | "uintptr" => "number"
    case "Time" => "Date"
    case _ => NonPrimitive(typ)
  }

  /** The textual names become `string` and every width of number becomes `number`. */
  lemma PredeclaredMapped(typ: string)
    ensures IsTextual(typ) ==> ToTypescript(typ) == "string"
    ensures IsNumeric(typ) ==> ToTypescript(typ) == "number"
  {
  }

  /** Every predeclared name becomes one of TypeScript's primitive names. */
  lemma BuiltInsArePrimitive(typ: string)
    requires IsBuiltInType(typ)
    ensures ToTypescript(typ) == "string" || ToTypescript(typ) == "boolean" || ToTypescript(typ) == "number"
  {
    PredeclaredMapped(typ);
  }

  /** A name reaches the default branch exactly when it is neither predeclared nor
      `Time`: the switch cases and `isBuiltInType` list the same names. */
  lemma DefaultBranchIffNotBuiltIn(typ: string)
    ensures (!IsBuiltInType(typ) && typ != "Time") <==>
      (match typ
       case "byte" | "complex128" | "complex64" | "error" | "bool" => false
       case "float32" | "float64" | "int" | "int16" | "int32" | "int64" | "int8" => false
       case "rune" | "string" | "uint" | "uint16" | "uint32" | "uint64" | "uint8" | "uintptr" => false
       case "Time" => false
       case _ => true)
  {
  }

  /** Only `Time`, and a non-primitive type that is itself named `Date`, become `Date`. */
  lemma DateOnlyFromTime(typ: string)
    ensures ToTypescript(typ) == "Date" <==> typ == "Time" || typ == "Date"
  {
    if typ == "Time" {
    } else if IsBuiltInType(typ) {
      BuiltInsArePrimitive(typ);
    } else if HasPrefix(typ, "[]") {
      assert typ[0] == '[' && typ != "Date";
      if !HasPrefix(typ[2..], "map") {
        var r := typ[2..] + "[]";
        assert r[|r| - 1] == ']' && r != "Date";
      }
    } else if HasPrefix(typ, "map") {
      assert typ[0] == 'm' && typ != "Date";
    }
  }

  /** A slice keeps its element type as written: `[]int64` becomes `int64[]`, not
      `number[]`. */
  lemma SliceElementNotMapped(elt: string)
    requires !HasPrefix(elt, "map")
    ensures ToTypescript("[]" + elt) == elt + "[]"
  {
    var typ := "[]" + elt;
    assert typ[0] == '[';
    assert HasPrefix(typ, "[]") && typ[2..] == elt;
  }

  /** A slice of maps becomes `any`, like a map. */
  lemma SliceOfMapIsAny(elt: string)
    requires HasPrefix(elt, "map")
    ensures ToTypescript("[]" + elt) == "any"
  {
    var typ := "[]" + elt;
    assert typ[0] == '[';
    assert HasPrefix(typ, "[]") && typ[2..] == elt;
  }

  /** Mapping a mapped name again changes nothing, except for a slice of slices,
      whose second mapping moves one more `[]` to the end. */
  lemma ToTypescriptIdempotent(typ: string)
    requires !HasPrefix(typ, "[][]")
    ensures ToTypescript(ToTypescript(typ)) == ToTypescript(typ)
  {
    PrimitivesFixed();
    if IsBuiltInType(typ) {
      BuiltInsArePrimitive(typ);
    } else if typ != "Time" {
      if HasPrefix(typ, "[]") && !HasPrefix(typ[2..], "map") {
        SliceResultFixed(typ[2..]);
      } else if !HasPrefix(typ, "[]") && !HasPrefix(typ, "map") {
        assert ToTypescript(typ) == typ;
      }
    }
  }

  /** TypeScript's names map to themselves. */
  lemma PrimitivesFixed()
    ensures ToTypescript("string") == "string"
    ensures ToTypescript("boolean") == "boolean"
    ensures ToTypescript("number") == "number"
    ensures ToTypescript("Date") == "Date"
    ensures ToTypescript("any") == "any"
  {
    PredeclaredMapped("string");
    PrimitiveNamesFixed();
    DateAndAnyFixed();
  }

  lemma PrimitiveNamesFixed()
    ensures ToTypescript("boolean") == "boolean"
    ensures ToTypescript("number") == "number"
  {
    NamedFixed("boolean");
    NamedFixed("number");
  }

  lemma DateAndAnyFixed()
    ensures ToTypescript("Date") == "Date"
    ensures ToTypescript("any") == "any"
  {
    NamedFixed("Date");
    NamedFixed("any");
  }

  /** A name that is neither predeclared nor `Time` and starts with neither `[`
      nor `m` maps to itself. */
  lemma NamedFixed(name: string)
    requires |name| > 0 && name[0] != '[' && name[0] != 'm'
    requires !IsBuiltInType(name) && name != "Time"
    ensures ToTypescript(name) == name
  {
    FirstCharDiffers(name, "[]");
    FirstCharDiffers(name, "map");
  }

  lemma FirstCharDiffers(s: string, p: string)
    requires |s| > 0 && |p| > 0 && s[0] != p[0]
    ensures !HasPrefix(s, p)
  {

  }

  /** A rewritten slice maps to itself unless its element was a slice too. */
  lemma SliceResultFixed(elt: string)
    requires !HasPrefix(elt, "map") && !HasPrefix(elt, "[]")
    ensures ToTypescript(elt + "[]") == elt + "[]"
  {
    var r := elt + "[]";
    NotBuiltInSlice(r);
    SliceRewritePrefix(elt);
    if |elt| > 1 {
      assert r[..2] == elt[..2];
    } else if |elt| == 1 {
      assert r[1] == '[';
    } else {
      assert r == "[]" && r[2..] == "";
    }
  }

  /** A name ending in `]` is neither predeclared nor `Time`. */
  lemma NotBuiltInSlice(r: string)
    requires |r| > 0 && r[|r| - 1] == ']'
    ensures !IsBuiltInType(r) && r != "Time"
  {
  }

  /** The nested-slice exception is real: `[][]int` maps to `[]int[]`, which maps
      on to `int[][]`. */
  lemma NestedSliceNotIdempotent()
    ensures ToTypescript("[][]int") == "[]int[]"
    ensures ToTypescript("[]int[]") == "int[][]"
  {
    FirstCharDiffers("[]int", "map");
    FirstCharDiffers("int[]", "map");
    SliceElementNotMapped("[]int");
    SliceElementNotMapped("int[]");
    assert "[]" + "[]int" == "[][]int";
    assert "[]" + "int[]" == "[]int[]";
  }

  // ---------------------------------------------------------------------------
  // The client description

  /** `TSType`: a named record with its fields, from name to type string. */
  datatype TsType = TsType(name: string, fields: map<string, string>)

  /** What `TSClient` hands to the template: the service name, the method names, and
      every record type to declare. */
  datatype TsService = TsService(name: string, methodNames: seq<string>, types: seq<TsType>)

  /** A schema type's fields, each type string mapped to TypeScript. */
  function MapFields(fields: map<string, string>): (r: map<string, string>)
    ensures r.Keys == fields.Keys
    ensures forall k :: k in r ==> r[k] == ToTypescript(fields[k])
  {
    map k | k in fields :: ToTypescript(fields[k])
  }

  /** `keys` visits every key of a map exactly once, which is all Go promises about
      ranging over a map; the order itself is left open. */
  predicate IsEnumeration<V>(keys: seq<string>, m: map<string, V>) {
    && |keys| == |m|
    && (forall i :: 0 <= i < |keys| ==> keys[i] in m)
    && (forall i, j :: 0 <= i < j < |keys| ==> keys[i] != keys[j])
  }

  /** An enumeration reaches every key. */
  lemma EnumerationCovers<V>(keys: seq<string>, m: map<string, V>)
    requires IsEnumeration(keys, m)
    ensures forall k :: k in m ==> k in keys
  {
    var s := set i | 0 <= i < |keys| :: keys[i];
    assert s <= m.Keys;
    DistinctCard(keys);
    var rest := m.Keys - s;
    assert m.Keys == s + rest;
    assert s * rest == {};
    assert |rest| == 0;
    forall x | x in m ensures x in keys {
      assert x !in rest;
    }
  }

  /** Distinct elements make a set as large as the sequence. */
  lemma {:induction false} DistinctCard(keys: seq<string>)
    requires forall i, j :: 0 <= i < j < |keys| ==> keys[i] != keys[j]
    ensures |set i | 0 <= i < |keys| :: keys[i]| == |keys|
    decreases |keys|
  {
    if |keys| > 0 {
      var n := |keys| - 1;
      DistinctCard(keys[..n]);
      var front := set i | 0 <= i < |keys[..n]| :: keys[..n][i];
      var all := set i | 0 <= i < |keys| :: keys[i];
      assert all == front + {keys[n]};
      assert keys[n] !in front;
    }
  }

  /** The methods of the services, service after service in the order visited, and
      nothing else. */
  function ServiceMethods(fs: map<string, seq<FunctionSignature>>, services: seq<string>): (ms: seq<FunctionSignature>)
    requires forall i :: 0 <= i < |services| ==> services[i] in fs
    ensures |services| == 1 ==> ms == fs[services[0]]
    ensures forall m :: m in ms ==> exists i :: 0 <= i < |services| && m in fs[services[i]]
    decreases |services|
  {
    if |services| == 0 then []
    else
      var rest := ServiceMethods(fs, services[1..]);
      ServiceMethodsFrontOnly(fs, services, rest);
      fs[services[0]] + rest
  }

  lemma ServiceMethodsFrontOnly(fs: map<string, seq<FunctionSignature>>, services: seq<string>, rest: seq<FunctionSignature>)
    requires |services| > 0
    requires forall i :: 0 <= i < |services| ==> services[i] in fs
    requires forall m :: m in rest ==> exists i :: 0 <= i < |services[1..]| && m in fs[services[1..][i]]
    ensures forall m :: m in fs[services[0]] + rest ==> exists i :: 0 <= i < |services| && m in fs[services[i]]
  {
    var tail := services[1..];
    forall m | m in fs[services[0]] + rest
      ensures exists i :: 0 <= i < |services| && m in fs[services[i]]
    {
      if m !in fs[services[0]] {
        var i :| 0 <= i < |tail| && m in fs[tail[i]];
        assert services[i + 1] == tail[i];
      }
    }
  }

  /** Visiting two runs of services one after the other lists the methods of the
      first run and then those of the second. */
  lemma {:induction false} ServiceMethodsAppend(fs: map<string, seq<FunctionSignature>>, a: seq<string>, b: seq<string>)
    requires forall i :: 0 <= i < |a| ==> a[i] in fs
    requires forall i :: 0 <= i < |b| ==> b[i] in fs
    ensures forall i :: 0 <= i < |a + b| ==> (a + b)[i] in fs
    ensures ServiceMethods(fs, a + b) == ServiceMethods(fs, a) + ServiceMethods(fs, b)
    decreases |a|
  {
    if |a| > 0 {
      assert (a + b)[1..] == a[1..] + b;
      ServiceMethodsAppend(fs, a[1..], b);
    } else {
      assert a + b == b;
    }
  }

  /** The methods of service `i`, in their own order, come right after those of the
      services visited before it and right before those of the services after it. */
  lemma ServiceMethodsAt(fs: map<string, seq<FunctionSignature>>, services: seq<string>, i: nat)
    requires forall k :: 0 <= k < |services| ==> services[k] in fs
    requires i < |services|
    ensures ServiceMethods(fs, services)
      == ServiceMethods(fs, services[..i]) + fs[services[i]] + ServiceMethods(fs, services[i + 1..])
  {
    assert services == services[..i] + ([services[i]] + services[i + 1..]);
    ServiceMethodsAppend(fs, [services[i]], services[i + 1..]);
    ServiceMethodsAppend(fs, services[..i], [services[i]] + services[i + 1..]);
  }

  /** The request type and then the response type of each method, in method order:
      method `k` gives `Request<Name>` with its parameters at `2k` and
      `Response<Name>` with its results at `2k+1`. */
  function MethodTypes(ms: seq<FunctionSignature>): (ts: seq<TsType>)
    ensures |ts| == 2 * |ms|
    ensures forall k :: 0 <= k < |ms| ==>
      ts[2 * k] == TsType("Request" + ms[k].name, ms[k].params)
      && ts[2 * k + 1] == TsType("Response" + ms[k].name, ms[k].results)
    decreases |ms|
  {
    if |ms| == 0 then []
    else
      var rest := MethodTypes(ms[1..]);
      var ts := [TsType("Request" + ms[0].name, ms[0].params), TsType("Response" + ms[0].name, ms[0].results)] + rest;
      MethodTypesStep(ms, rest, ts);
      ts
  }

  lemma MethodTypesStep(ms: seq<FunctionSignature>, rest: seq<TsType>, ts: seq<TsType>)
    requires |ms| > 0 && |rest| == 2 * (|ms| - 1)
    requires forall k :: 0 <= k < |ms[1..]| ==>
      rest[2 * k] == TsType("Request" + ms[1..][k].name, ms[1..][k].params)
      && rest[2 * k + 1] == TsType("Response" + ms[1..][k].name, ms[1..][k].results)
    requires ts == [TsType("Request" + ms[0].name, ms[0].params), TsType("Response" + ms[0].name, ms[0].results)] + rest
    ensures forall k :: 0 <= k < |ms| ==>
      ts[2 * k] == TsType("Request" + ms[k].name, ms[k].params)
      && ts[2 * k + 1] == TsType("Response" + ms[k].name, ms[k].results)
  {
    forall k | 0 < k < |ms|
      ensures ts[2 * k] == TsType("Request" + ms[k].name, ms[k].params)
      ensures ts[2 * k + 1] == TsType("Response" + ms[k].name, ms[k].results)
    {
      assert ms[k] == ms[1..][k - 1];
      assert ts[2 * k] == rest[2 * (k - 1)];
      assert ts[2 * k + 1] == rest[2 * (k - 1) + 1];
    }
  }

  /** One record type per schema type, in the order visited, fields mapped. */
  function SchemaTypes(rawTypes: map<string, map<string, string>>, schemas: seq<string>): (ts: seq<TsType>)
    requires forall i :: 0 <= i < |schemas| ==> schemas[i] in rawTypes
    ensures |ts| == |schemas|
    ensures forall k :: 0 <= k < |schemas| ==> ts[k] == TsType(schemas[k], MapFields(rawTypes[schemas[k]]))
  {
    seq(|schemas|, k requires 0 <= k < |schemas| => TsType(schemas[k], MapFields(rawTypes[schemas[k]])))
  }

  /** The types after the method types: the schema types. */
  function SchemaPart(tsi: TsService): seq<TsType>
    requires 2 * |tsi.methodNames| <= |tsi.types|
  {
    tsi.types[2 * |tsi.methodNames|..]
  }

  /** Lines 29-66 of `TSClient`: `services` and `schemas` are the orders in which the
      loops happen to visit the two maps. Every method adds its name and then exactly
      two types, its request and its response; after them come the schema types, one
      per schema name, with their fields mapped; the name is the last service visited. */
  function TSClient(
    rawTypes: map<string, map<string, string>>,
    fs: map<string, seq<FunctionSignature>>,
    services: seq<string>,
    schemas: seq<string>): (tsi: TsService)
    requires IsEnumeration(services, fs)
    requires IsEnumeration(schemas, rawTypes)
    ensures |services| == 0 ==> tsi.name == ""
    ensures |services| > 0 ==> tsi.name in fs && tsi.name == services[|services| - 1]
    ensures |tsi.types| == 2 * |tsi.methodNames| + |rawTypes|
    ensures |tsi.methodNames| == |ServiceMethods(fs, services)|
    ensures forall k :: 0 <= k < |tsi.methodNames| ==>
      var m := ServiceMethods(fs, services)[k];
      tsi.methodNames[k] == m.name
      && tsi.types[2 * k] == TsType("Request" + m.name, m.params)
      && tsi.types[2 * k + 1] == TsType("Response" + m.name, m.results)
    ensures forall t :: t in SchemaPart(tsi) ==> t.name in rawTypes && t.fields == MapFields(rawTypes[t.name])
    ensures forall name :: name in rawTypes ==> TsType(name, MapFields(rawTypes[name])) in SchemaPart(tsi)
  {
    var ms := ServiceMethods(fs, services);
    var tsi := TsService(
      if |services| == 0 then "" else services[|services| - 1],
      seq(|ms|, k requires 0 <= k < |ms| => ms[k].name),
      MethodTypes(ms) + SchemaTypes(rawTypes, schemas));
    TSClientParts(rawTypes, schemas, ms, tsi);
    tsi
  }

  lemma TSClientParts(
    rawTypes: map<string, map<string, string>>,
    schemas: seq<string>,
    ms: seq<FunctionSignature>,
    tsi: TsService)
    requires IsEnumeration(schemas, rawTypes)
    requires |tsi.methodNames| == |ms|
    requires tsi.types == MethodTypes(ms) + SchemaTypes(rawTypes, schemas)
    ensures forall k :: 0 <= k < |ms| ==>
      tsi.types[2 * k] == TsType("Request" + ms[k].name, ms[k].params)
      && tsi.types[2 * k + 1] == TsType("Response" + ms[k].name, ms[k].results)
    ensures 2 * |tsi.methodNames| <= |tsi.types|
    ensures forall t :: t in SchemaPart(tsi) ==> t.name in rawTypes && t.fields == MapFields(rawTypes[t.name])
    ensures forall name :: name in rawTypes ==> TsType(name, MapFields(rawTypes[name])) in SchemaPart(tsi)
  {
    MethodPart(ms, SchemaTypes(rawTypes, schemas));
    assert SchemaPart(tsi) == SchemaTypes(rawTypes, schemas);
    SchemaTypesExact(rawTypes, schemas);
  }

  lemma MethodPart(ms: seq<FunctionSignature>, rest: seq<TsType>)
    ensures forall k :: 0 <= k < |ms| ==>
      (MethodTypes(ms) + rest)[2 * k] == TsType("Request" + ms[k].name, ms[k].params)
      && (MethodTypes(ms) + rest)[2 * k + 1] == TsType("Response" + ms[k].name, ms[k].results)
  {
    var mt := MethodTypes(ms);
    assert forall k :: 0 <= k < |ms| ==> (mt + rest)[2 * k] == mt[2 * k] && (mt + rest)[2 * k + 1] == mt[2 * k + 1];
  }

  /** The schema types are exactly one mapped record per schema name. */
  lemma SchemaTypesExact(rawTypes: map<string, map<string, string>>, schemas: seq<string>)
    requires IsEnumeration(schemas, rawTypes)
    ensures forall t :: t in SchemaTypes(rawTypes, schemas) ==> t.name in rawTypes && t.fields == MapFields(rawTypes[t.name])
    ensures forall name :: name in rawTypes ==> TsType(name, MapFields(rawTypes[name])) in SchemaTypes(rawTypes, schemas)
  {
    var st := SchemaTypes(rawTypes, schemas);
    EnumerationCovers(schemas, rawTypes);
    forall name | name in rawTypes ensures TsType(name, MapFields(rawTypes[name])) in st {
      var k :| 0 <= k < |schemas| && schemas[k] == name;
      assert st[k] == TsType(name, MapFields(rawTypes[name]));
    }
  }

  /** Whatever order the schema map is visited in, the same schema types are
      declared. */
  lemma SchemaTypesIndependentOfOrder(rawTypes: map<string, map<string, string>>, a: seq<string>, b: seq<string>)
    requires IsEnumeration(a, rawTypes) && IsEnumeration(b, rawTypes)
    ensures forall t :: t in SchemaTypes(rawTypes, a) <==> t in SchemaTypes(rawTypes, b)
  {
    EnumerationCovers(a, rawTypes);
    EnumerationCovers(b, rawTypes);
    var sa := SchemaTypes(rawTypes, a);
    var sb := SchemaTypes(rawTypes, b);
    forall t ensures t in sa <==> t in sb {
      if t in sa {
        var k :| 0 <= k < |sa| && sa[k] == t;
        var j :| 0 <= j < |b| && b[j] == a[k];
        assert sb[j] == t;
      }
      if t in sb {
        var k :| 0 <= k < |sb| && sb[k] == t;
        var j :| 0 <= j < |a| && a[j] == b[k];
        assert sa[j] == t;
      }
    }
  }
}
