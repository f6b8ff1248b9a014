/** What the three templates share: the field record they render, the `ToCamelCase`
    template function, and the two ways they write a list with `range`. */
module TemplateFuncs {
  import opened GoStrings
  import opened Results

  /** The field record the templates range over: a name, a type name, how the field
      is declared (`arity`: 0 unclassified, 1 a single value, 2 a slice) and the package
      that qualifies the type name in Go, empty when there is none. */
  datatype TypeSignature = TypeSignature(name: string, kind: string, arity: int, goPackage: string)

  const Unclassified: int := 0
  const Single: int := 1
  const Slice: int := 2

  // ---------------------------------------------------------------------------
  // ToCamelCase

  /** The first rune upper-cased, the rest as it is. */
  function Camel(s: string): (r: string)
    requires |s| > 0
    ensures |r| == |s|
    ensures r[0] == UpperChar(s[0])
    ensures r[1..] == s[1..]
  {
    [UpperChar(s[0])] + s[1..]
  }

  /** The `ToCamelCase` template function: the string split into runes, the first one
      upper-cased, joined again. On the empty string the split is empty and indexing
      its first element panics, which the template reports as an execution error. */
  function ToCamelCase(s: string): (r: Result<string>)
    ensures r.Failed? <==> s == ""
    ensures r.Ok? ==> r.value == Camel(s)
  {
    if s == "" then Failed("index out of range [0] with length 0") else Ok(Camel(s))
  }

  /** Camel-casing is idempotent. */
  lemma CamelIdempotent(s: string)
    requires |s| > 0
    ensures Camel(Camel(s)) == Camel(s)
  {
  }

  /** Camel-casing changes nothing but the case of the first rune. */
  lemma CamelSameLowerCase(s: string)
    requires |s| > 0
    ensures ToLower(Camel(s)) == ToLower(s)
  {
    LowerOfUpper(s[0]);
    assert forall i :: 0 <= i < |s| ==> ToLower(Camel(s))[i] == ToLower(s)[i];
  }

  /** A name that already starts with a capital, such as an exported Go name, is
      left as it is. */
  lemma CamelOfExported(s: string)
    requires |s| > 0 && !IsLowerAscii(s[0])
    ensures Camel(s) == s
  {
    assert Camel(s) == [s[0]] + s[1..];
  }

  /** Camel-casing brings in no rune other than an upper-case letter. */
  lemma CamelAvoids(s: string, c: char)
    requires |s| > 0 && c !in s && !IsUpperAscii(c)
    ensures c !in Camel(s)
  {
    assert s[0] != c;
    assert Camel(s) == [UpperChar(s[0])] + s[1..];
  }

  /** Camel-casing every string of a list; fails when one of them is empty. */
  function CamelAll(xs: seq<string>): (r: Result<seq<string>>)
    ensures r.Failed? <==> "" in xs
    ensures r.Ok? ==> |r.value| == |xs| && forall i :: 0 <= i < |xs| ==> |xs[i]| > 0 && r.value[i] == Camel(xs[i])
    decreases |xs|
  {
    if |xs| == 0 then Ok([])
    else if xs[0] == "" then Failed("index out of range [0] with length 0")
    else
      match CamelAll(xs[1..])
      case Failed(e) => Failed(e)
      case Ok(rest) => Ok([Camel(xs[0])] + rest)
  }

  // ---------------------------------------------------------------------------
  // Lists written with range

  /** `{{range $k, $v := xs}}{{if $k}}, {{end}}{{$v}}{{end}}`: a separator before every
      element but the first. */
  function RangeSep(xs: seq<string>): string
  {
    Concat(seq(|xs|, k requires 0 <= k < |xs| => (if k == 0 then "" else ", ") + xs[k]))
  }

  /** `{{range $k, $v := xs}}sep{{$v}}{{end}}`: a separator before every element. */
  function PrefixEach(xs: seq<string>, sep: string): string
  {
    Concat(seq(|xs|, k requires 0 <= k < |xs| => sep + xs[k]))
  }

  lemma PrefixEachFront(xs: seq<string>, sep: string)
    requires |xs| > 0
    ensures PrefixEach(xs, sep) == sep + xs[0] + PrefixEach(xs[1..], sep)
  {
    var f := seq(|xs|, k requires 0 <= k < |xs| => sep + xs[k]);
    assert f[1..] == seq(|xs[1..]|, k requires 0 <= k < |xs[1..]| => sep + xs[1..][k]);
  }

  /** Writing a separator before every element after the first is `strings.Join`. */
  lemma {:induction false} JoinIsFirstThenPrefixed(xs: seq<string>, sep: string)
    requires |xs| > 0
    ensures Join(xs, sep) == xs[0] + PrefixEach(xs[1..], sep)
    decreases |xs|
  {
    if |xs| == 1 {
      assert PrefixEach(xs[1..], sep) == "";
    } else {
      JoinIsFirstThenPrefixed(xs[1..], sep);
      PrefixEachFront(xs[1..], sep);
      assert xs[1..][1..] == xs[2..];
    }
  }

  /** The `{{if $k}}, {{end}}` idiom writes exactly `strings.Join(xs, ", ")`. */
  lemma RangeSepIsJoin(xs: seq<string>)
    ensures RangeSep(xs) == Join(xs, ", ")
  {
    if |xs| > 0 {
      var f := seq(|xs|, k requires 0 <= k < |xs| => (if k == 0 then "" else ", ") + xs[k]);
      assert f[1..] == seq(|xs[1..]|, k requires 0 <= k < |xs[1..]| => ", " + xs[1..][k]);
      assert f[0] == xs[0];
      JoinIsFirstThenPrefixed(xs, ", ");
    }
  }

  /** A leading element followed by `sep`-prefixed elements is the join of all. */
  lemma PrefixEachAfterFirst(first: string, xs: seq<string>, sep: string)
    ensures first + PrefixEach(xs, sep) == Join([first] + xs, sep)
  {
    JoinIsFirstThenPrefixed([first] + xs, sep);
    assert ([first] + xs)[1..] == xs;
  }
}
