/** The parts of Go's `strings` package and of `text/template` that the generator
    relies on, over strings as sequences of runes. Case mapping covers ASCII letters
    only; every other rune is left as it is. */
module GoStrings {

  /** `strings.HasPrefix`. */
  predicate HasPrefix(s: string, p: string) {
    |p| <= |s| && s[..|p|] == p
  }

  /** `strings.TrimPrefix`: drops `p` once when `s` starts with it. */
  function TrimPrefix(s: string, p: string): (r: string)
    ensures HasPrefix(s, p) ==> p + r == s
    ensures !HasPrefix(s, p) ==> r == s
  {
    if HasPrefix(s, p) then
      assert s == s[..|p|] + s[|p|..];
      s[|p|..]
    else s
  }

  /** `strings.Contains`, by scanning every start position. */
  predicate Contains(s: string, sub: string)
    decreases |s|
  {
    HasPrefix(s, sub) || (|s| > 0 && Contains(s[1..], sub))
  }

  lemma {:induction false} ContainsAt(s: string, sub: string, i: nat)
    requires i + |sub| <= |s| && s[i..i + |sub|] == sub
    ensures Contains(s, sub)
    decreases i
  {
    if i > 0 {
      assert s[1..][i - 1..i - 1 + |sub|] == s[i..i + |sub|];
      ContainsAt(s[1..], sub, i - 1);
    }
  }

  /** The empty string occurs in every string, so `strings.Contains(s, "")` holds. */
  lemma ContainsEmpty(s: string)
    ensures Contains(s, "")
  {
    ContainsAt(s, "", 0);
  }

  predicate IsUpperAscii(c: char) { 'A' <= c <= 'Z' }
  predicate IsLowerAscii(c: char) { 'a' <= c <= 'z' }

  function LowerChar(c: char): char {
    if IsUpperAscii(c) then (c as int + 32) as char else c
  }

  function UpperChar(c: char): char {
    if IsLowerAscii(c) then (c as int - 32) as char else c
  }

  /** `strings.ToLower`, rune by rune. */
  function ToLower(s: string): (r: string)
    ensures |r| == |s|
    ensures forall i :: 0 <= i < |s| ==> r[i] == LowerChar(s[i])
  {
    seq(|s|, i requires 0 <= i < |s| => LowerChar(s[i]))
  }

  /** Lower-casing distributes over concatenation. */
  lemma ToLowerAppend(a: string, b: string)
    ensures ToLower(a + b) == ToLower(a) + ToLower(b)
  {
    assert forall i :: 0 <= i < |a + b| ==> ToLower(a + b)[i] == (ToLower(a) + ToLower(b))[i];
  }

  /** Lower-casing twice is lower-casing once. */
  lemma ToLowerIdempotent(s: string)
    ensures ToLower(ToLower(s)) == ToLower(s)
  {
  }

  /** Lower-casing an upper-cased rune is lower-casing the rune. */
  lemma LowerOfUpper(c: char)
    ensures LowerChar(UpperChar(c)) == LowerChar(c)
  {
  }

  /** The white space `strings.TrimSpace` removes: Go's `unicode.IsSpace`. */
  predicate IsSpace(c: char) {
    c == '\t' || c == '\n' || c == '\U{000B}' || c == '\U{000C}' || c == '\r' || c == ' '
    || c == '\U{0085}' || c == '\U{00A0}' || c == '\U{1680}'
    || ('\U{2000}' <= c <= '\U{200A}')
    || c == '\U{2028}' || c == '\U{2029}' || c == '\U{202F}' || c == '\U{205F}' || c == '\U{3000}'
  }

  function TrimLeft(s: string): (r: string)
    ensures |r| <= |s| && r == s[|s| - |r|..]
    ensures forall i :: 0 <= i < |s| - |r| ==> IsSpace(s[i])
    ensures |r| > 0 ==> !IsSpace(r[0])
    decreases |s|
  {
    if |s| > 0 && IsSpace(s[0]) then TrimLeft(s[1..]) else s
  }

  function TrimRight(s: string): (r: string)
    ensures |r| <= |s| && r == s[..|r|]
    ensures forall i :: |r| <= i < |s| ==> IsSpace(s[i])
    ensures |r| > 0 ==> !IsSpace(r[|r| - 1])
    decreases |s|
  {
    if |s| > 0 && IsSpace(s[|s| - 1]) then TrimRight(s[..|s| - 1]) else s
  }

  /** `s[i..i + |r|]` is `r` and everything around it is white space. */
  predicate TrimmedAt(s: string, r: string, i: int) {
    && 0 <= i <= |s| - |r|
    && r == s[i..i + |r|]
    && (forall k :: 0 <= k < i ==> IsSpace(s[k]))
    && (forall k :: i + |r| <= k < |s| ==> IsSpace(s[k]))
  }

  /** `strings.TrimSpace`: the result is a contiguous slice of `s`, everything cut
      away is white space, and the result neither starts nor ends with white space. */
  function TrimSpace(s: string): (r: string)
    ensures exists i :: TrimmedAt(s, r, i)
    ensures |r| > 0 ==> !IsSpace(r[0]) && !IsSpace(r[|r| - 1])
  {
    var l := TrimLeft(s);
    var r := TrimRight(l);
    var i := |s| - |l|;
    assert TrimmedAt(s, r, i);
    r
  }

  /** Trimming an already trimmed string changes nothing. */
  lemma TrimSpaceIdempotent(s: string)
    ensures TrimSpace(TrimSpace(s)) == TrimSpace(s)
  {
    var t := TrimSpace(s);
    if |t| > 0 {
      assert TrimLeft(t) == t;
      assert TrimRight(t) == t;
    }
  }

  /** `strings.ReplaceAll(s, string(c), "")`: every occurrence of `c` removed. */
  function RemoveAll(s: string, c: char): (r: string)
    ensures c !in r
    ensures |r| <= |s|
    ensures forall x :: x in r ==> x in s
    ensures c !in s ==> r == s
    ensures multiset(r) == multiset(s)[c := 0]
  {
    if |s| == 0 then ""
    else
      assert s == [s[0]] + s[1..];
      if s[0] == c then RemoveAll(s[1..], c)
      else [s[0]] + RemoveAll(s[1..], c)
  }

  /** Index of the first `c` in `s`. */
  function IndexOf(s: string, c: char): (i: nat)
    requires c in s
    ensures i < |s| && s[i] == c && c !in s[..i]
  {
    if s[0] == c then 0 else 1 + IndexOf(s[1..], c)
  }

  /** `strings.Split` with a one-rune separator. Like Go, splitting the empty string
      yields one empty part, and the parts never contain the separator. */
  function Split(s: string, sep: char): (parts: seq<string>)
    ensures |parts| >= 1
    ensures forall k :: 0 <= k < |parts| ==> sep !in parts[k]
    ensures forall k, c :: 0 <= k < |parts| && c in parts[k] ==> c in s
    decreases |s|
  {
    if sep !in s then [s]
    else
      var i := IndexOf(s, sep);
      var rest := Split(s[i + 1..], sep);
      assert forall k, c :: 0 <= k < |rest| && c in rest[k] ==> c in s by {
        forall k, c | 0 <= k < |rest| && c in rest[k] ensures c in s {
          InSuffix(s, i + 1, c);
        }
      }
      [s[..i]] + rest
  }

  lemma InSuffix(s: string, a: nat, c: char)
    requires a <= |s| && c in s[a..]
    ensures c in s
  {
    var j :| 0 <= j < |s[a..]| && s[a..][j] == c;
    assert s[a + j] == c;
  }

  /** `strings.Join`. */
  function Join(parts: seq<string>, sep: string): string
  {
    if |parts| == 0 then ""
    else if |parts| == 1 then parts[0]
    else parts[0] + sep + Join(parts[1..], sep)
  }

  /** Joining the parts of a split gives back the original string. */
  lemma {:induction false} JoinSplit(s: string, sep: char)
    ensures Join(Split(s, sep), [sep]) == s
    decreases |s|
  {
    if sep in s {
      var i := IndexOf(s, sep);
      JoinSplit(s[i + 1..], sep);
      assert s == s[..i] + [sep] + s[i + 1..];
    }
  }

  /** Splitting a join of separator-free parts gives back the parts. */
  lemma {:induction false} SplitJoin(parts: seq<string>, sep: char)
    requires |parts| >= 1
    requires forall k :: 0 <= k < |parts| ==> sep !in parts[k]
    ensures Split(Join(parts, [sep]), sep) == parts
  {
    if |parts| > 1 {
      var s := Join(parts, [sep]);
      var rest := Join(parts[1..], [sep]);
      JoinFront(parts[0], sep, rest);
      assert s == parts[0] + [sep] + rest;
      SplitJoin(parts[1..], sep);
      assert parts == [parts[0]] + parts[1..];
    }
  }

  /** Splitting `head + sep + rest` cuts at the end of a separator-free `head`. */
  lemma JoinFront(head: string, sep: char, rest: string)
    requires sep !in head
    ensures Split(head + [sep] + rest, sep) == [head] + Split(rest, sep)
  {
    var s := head + [sep] + rest;
    assert s[|head|] == sep;
    assert s[..|head|] == head;
    IndexOfUnique(s, sep, |head|);
    assert s[|head| + 1..] == rest;
  }

  lemma IndexOfUnique(s: string, c: char, i: nat)
    requires i < |s| && s[i] == c && c !in s[..i]
    ensures IndexOf(s, c) == i
  {
  }

  /** Lines written as a sequence of "\n" + line, the way the templates emit a
      member per line. */
  function NewlineEach(lines: seq<string>): string
  {
    if |lines| == 0 then "" else "\n" + lines[0] + NewlineEach(lines[1..])
  }

  /** Splitting a block of emitted lines on "\n" recovers the lines, after the
      empty text before the first newline. */
  lemma {:induction false} SplitNewlineEach(lines: seq<string>)
    requires forall k :: 0 <= k < |lines| ==> '\n' !in lines[k]
    ensures Split(NewlineEach(lines), '\n') == [""] + lines
  {
    var parts := [""] + lines;
    NewlineEachIsJoin(lines);
    SplitJoin(parts, '\n');
  }

  lemma {:induction false} NewlineEachIsJoin(lines: seq<string>)
    ensures NewlineEach(lines) == Join([""] + lines, "\n")
  {
    if |lines| > 0 {
      NewlineEachIsJoin(lines[1..]);
      assert ([""] + lines)[1..] == lines;
      assert ([""] + lines[1..])[1..] == lines[1..];
      if |lines| == 1 {
        assert NewlineEach(lines[1..]) == "";
      } else {
        assert Join([""] + lines[1..], "\n") == "" + "\n" + Join(lines[1..], "\n");
        assert Join(lines, "\n") == lines[0] + "\n" + Join(lines[1..], "\n");
      }
    }
  }

  /** Go's `<` on strings: byte-wise lexicographic order. Comparing runes by code
      point gives the same order, because UTF-8 preserves code-point order. */
  predicate Less(a: string, b: string)
    decreases |a|
  {
    if |a| == 0 then |b| > 0
    else if |b| == 0 then false
    else if a[0] != b[0] then a[0] < b[0]
    else Less(a[1..], b[1..])
  }

  lemma {:induction false} LessIrreflexive(a: string)
    ensures !Less(a, a)
    decreases |a|
  {
    if |a| > 0 { LessIrreflexive(a[1..]); }
  }

  lemma {:induction false} LessAsymmetric(a: string, b: string)
    ensures Less(a, b) ==> !Less(b, a)
    decreases |a|
  {
    if |a| > 0 && |b| > 0 && a[0] == b[0] { LessAsymmetric(a[1..], b[1..]); }
  }

  lemma {:induction false} LessTransitive(a: string, b: string, c: string)
    requires Less(a, b) && Less(b, c)
    ensures Less(a, c)
    decreases |a|
  {
    if |a| > 0 && a[0] == b[0] && b[0] == c[0] {
      LessTransitive(a[1..], b[1..], c[1..]);
    }
  }

  lemma {:induction false} LessTotal(a: string, b: string)
    ensures a == b || Less(a, b) || Less(b, a)
    decreases |a|
  {
    if |a| > 0 && |b| > 0 && a[0] == b[0] {
      LessTotal(a[1..], b[1..]);
      if a[1..] == b[1..] {
        assert a == [a[0]] + a[1..] && b == [b[0]] + b[1..];
      }
    }
  }

  lemma LessIsStrictOrder()
    ensures forall a, b :: Less(a, b) ==> !Less(b, a)
  {
    forall a, b ensures Less(a, b) ==> !Less(b, a) { LessAsymmetric(a, b); }
  }

  /** Every finite non-empty set of strings has a least element. */
  lemma {:induction false} LeastExists(s: set<string>)
    requires s != {}
    ensures exists k :: k in s && forall y :: y in s && y != k ==> Less(k, y)
    decreases |s|
  {
    var x :| x in s;
    if s == {x} {
      assert forall y :: y in s ==> y == x;
    } else {
      LeastExists(s - {x});
      var m :| m in s - {x} && forall y :: y in s - {x} && y != m ==> Less(m, y);
      var k := LeastOfTwo(s, x, m);
    }
  }

  /** The least element of `s` once `x` is added back to the rest, whose least is `m`. */
  lemma LeastOfTwo(s: set<string>, x: string, m: string) returns (k: string)
    requires x in s && m in s && m != x
    requires forall y :: y in s - {x} && y != m ==> Less(m, y)
    ensures k in s && forall y :: y in s && y != k ==> Less(k, y)
  {
    LessTotal(x, m);
    if Less(x, m) {
      k := x;
      forall y | y in s && y != x ensures Less(x, y) {
        if y != m {
          assert y in s - {x};
          LessTransitive(x, m, y);
        }
      }
    } else {
      k := m;
      forall y | y in s && y != m ensures Less(m, y) {
        if y != x { assert y in s - {x}; }
      }
    }
  }

  /** The least string of a finite non-empty set. */
  function Least(s: set<string>): (k: string)
    requires s != {}
    ensures k in s
    ensures forall y :: y in s && y != k ==> Less(k, y)
  {
    LeastExists(s);
    LessIsStrictOrder();
    var k :| k in s && forall y :: y in s && y != k ==> Less(k, y); k
  }

  /** The keys of a map in the order `text/template` visits them when ranging over a
      map: ascending, each key exactly once. */
  function SortedKeys<V>(m: map<string, V>): (ks: seq<string>)
    ensures |ks| == |m|
    ensures forall i :: 0 <= i < |ks| ==> ks[i] in m
    ensures forall k :: k in m ==> k in ks
    ensures forall i, j :: 0 <= i < j < |ks| ==> Less(ks[i], ks[j])
    decreases m.Keys
  {
    if m.Keys == {} then []
    else
      var k := Least(m.Keys);
      var rest := m - {k};
      assert rest.Keys == m.Keys - {k};
      var tail := SortedKeys(rest);
      LeastFirst(m, k, rest, tail);
      [k] + tail
  }

  lemma LeastFirst<V>(m: map<string, V>, k: string, rest: map<string, V>, tail: seq<string>)
    requires k in m && rest == m - {k}
    requires forall y :: y in m && y != k ==> Less(k, y)
    requires |tail| == |rest|
    requires forall i :: 0 <= i < |tail| ==> tail[i] in rest
    requires forall x :: x in rest ==> x in tail
    requires forall i, j :: 0 <= i < j < |tail| ==> Less(tail[i], tail[j])
    ensures |[k] + tail| == |m|
    ensures forall i :: 0 <= i < |[k] + tail| ==> ([k] + tail)[i] in m
    ensures forall x :: x in m ==> x in [k] + tail
    ensures forall i, j :: 0 <= i < j < |[k] + tail| ==> Less(([k] + tail)[i], ([k] + tail)[j])
  {
    assert rest.Keys == m.Keys - {k};
    assert |rest.Keys| == |m.Keys| - 1;
    LeastFirstMembers(m, k, rest, tail);
    LeastFirstSorted(k, tail);
  }

  lemma LeastFirstMembers<V>(m: map<string, V>, k: string, rest: map<string, V>, tail: seq<string>)
    requires k in m && rest == m - {k}
    requires forall i :: 0 <= i < |tail| ==> tail[i] in rest
    requires forall x :: x in rest ==> x in tail
    ensures forall i :: 0 <= i < |[k] + tail| ==> ([k] + tail)[i] in m
    ensures forall x :: x in m ==> x in [k] + tail
  {
    var ks := [k] + tail;
    forall i | 0 <= i < |ks| ensures ks[i] in m {
      if i > 0 { assert ks[i] == tail[i - 1]; }
    }
    forall x | x in m ensures x in ks {
      if x != k { assert x in rest; }
    }
  }

  lemma LeastFirstSorted(k: string, tail: seq<string>)
    requires forall i :: 0 <= i < |tail| ==> Less(k, tail[i])
    requires forall i, j :: 0 <= i < j < |tail| ==> Less(tail[i], tail[j])
    ensures forall i, j :: 0 <= i < j < |[k] + tail| ==> Less(([k] + tail)[i], ([k] + tail)[j])
  {
    var ks := [k] + tail;
    forall i, j | 0 <= i < j < |ks| ensures Less(ks[i], ks[j]) {
      assert ks[j] == tail[j - 1];
      if i > 0 { assert ks[i] == tail[i - 1]; }
    }
  }

  /** Ascending order is the only way to list a set of strings strictly sorted:
      two strictly sorted sequences with the same elements are equal. */
  lemma {:induction false} SortedEqual(a: seq<string>, b: seq<string>)
    requires forall i, j :: 0 <= i < j < |a| ==> Less(a[i], a[j])
    requires forall i, j :: 0 <= i < j < |b| ==> Less(b[i], b[j])
    requires forall x :: x in a <==> x in b
    ensures a == b
    decreases |a|
  {
    if |a| > 0 { assert a[0] in a; }
    if |b| > 0 { assert b[0] in b; }
    if |a| > 0 && |b| > 0 {
      if a[0] != b[0] {
        assert a[0] in b && b[0] in a;
        var i :| 0 <= i < |b| && b[i] == a[0];
        var j :| 0 <= j < |a| && a[j] == b[0];
        LessAsymmetric(a[0], b[0]);
        assert false;
      }
      forall x ensures x in a[1..] <==> x in b[1..] {
        LessIrreflexive(a[0]);
        if x in a[1..] {
          var k :| 0 <= k < |a[1..]| && a[1..][k] == x;
          assert Less(a[0], a[k + 1]);
          assert x in b;
          var m :| 0 <= m < |b| && b[m] == x;
          assert m != 0;
          assert b[1..][m - 1] == x;
        }
        if x in b[1..] {
          var k :| 0 <= k < |b[1..]| && b[1..][k] == x;
          assert Less(b[0], b[k + 1]);
          assert x in a;
          var m :| 0 <= m < |a| && a[m] == x;
          assert m != 0;
          assert a[1..][m - 1] == x;
        }
      }
      SortedEqual(a[1..], b[1..]);
    }
  }

  /** A strictly ascending listing of exactly the keys of `m` is `SortedKeys(m)`. */
  lemma SortedKeysUnique<V>(m: map<string, V>, ks: seq<string>)
    requires forall i, j :: 0 <= i < j < |ks| ==> Less(ks[i], ks[j])
    requires forall x :: x in ks <==> x in m
    ensures SortedKeys(m) == ks
  {
    SortedEqual(SortedKeys(m), ks);
  }

  /** `range` over a map in a template: one line per entry, written by `line`, in
      ascending key order. */
  function RangeMap(m: map<string, string>, line: (string, string) -> string): (lines: seq<string>)
    ensures |lines| == |m|
    ensures forall k :: k in m ==> line(k, m[k]) in lines
    ensures forall i :: 0 <= i < |lines| ==> exists k :: k in m && lines[i] == line(k, m[k])
  {
    var ks := SortedKeys(m);
    var lines := KeyLines(ks, m, line);
    assert forall k :: k in m ==> line(k, m[k]) in lines by {
      forall k | k in m ensures line(k, m[k]) in lines {
        var i :| 0 <= i < |ks| && ks[i] == k;
        assert lines[i] == line(k, m[k]);
      }
    }
    lines
  }

  /** The line of every key of `ks`, in the order of `ks`. */
  function KeyLines(ks: seq<string>, m: map<string, string>, line: (string, string) -> string): (lines: seq<string>)
    requires forall i :: 0 <= i < |ks| ==> ks[i] in m
    ensures |lines| == |ks| && forall i :: 0 <= i < |ks| ==> lines[i] == line(ks[i], m[ks[i]])
  {
    seq(|ks|, i requires 0 <= i < |ks| => line(ks[i], m[ks[i]]))
  }

  /** Whatever order the map was filled in, its entries come out in ascending key
      order: for any ascending list of exactly its keys, one line per key in that
      list's order. */
  lemma RangeMapInKeyOrder(m: map<string, string>, line: (string, string) -> string, ks: seq<string>)
    requires forall i, j :: 0 <= i < j < |ks| ==> Less(ks[i], ks[j])
    requires forall x :: x in ks <==> x in m
    ensures |RangeMap(m, line)| == |ks|
    ensures forall i :: 0 <= i < |ks| ==> RangeMap(m, line)[i] == line(ks[i], m[ks[i]])
  {
    SortedKeysUnique(m, ks);
  }

  /** When no entry's line holds `c`, no line of the range does. */
  lemma RangeMapAvoids(m: map<string, string>, line: (string, string) -> string, c: char)
    requires forall k :: k in m ==> c !in line(k, m[k])
    ensures forall i :: 0 <= i < |RangeMap(m, line)| ==> c !in RangeMap(m, line)[i]
  {
    var ks := SortedKeys(m);
    KeyLinesAvoid(ks, m, line, c);
  }

  lemma KeyLinesAvoid(ks: seq<string>, m: map<string, string>, line: (string, string) -> string, c: char)
    requires forall i :: 0 <= i < |ks| ==> ks[i] in m
    requires forall k :: k in m ==> c !in line(k, m[k])
    ensures forall i :: 0 <= i < |ks| ==> c !in KeyLines(ks, m, line)[i]
  {
  }

  /** Texts written one after another. */
  function Concat(parts: seq<string>): string
  {
    if |parts| == 0 then "" else parts[0] + Concat(parts[1..])
  }

  lemma {:induction false} ConcatAppend(a: seq<string>, b: seq<string>)
    ensures Concat(a + b) == Concat(a) + Concat(b)
    decreases |a|
  {
    if |a| > 0 {
      assert (a + b)[1..] == a[1..] + b;
      ConcatAppend(a[1..], b);
    } else {
      assert a + b == b;
    }
  }

  /** Emitting "\n" before every line is writing the lines one after another. */
  lemma {:induction false} NewlineEachIsConcat(lines: seq<string>)
    ensures NewlineEach(lines) == Concat(seq(|lines|, i requires 0 <= i < |lines| => "\n" + lines[i]))
    decreases |lines|
  {
    if |lines| > 0 {
      NewlineEachIsConcat(lines[1..]);
      var f := seq(|lines|, i requires 0 <= i < |lines| => "\n" + lines[i]);
      assert f[1..] == seq(|lines[1..]|, i requires 0 <= i < |lines[1..]| => "\n" + lines[1..][i]);
    }
  }

  /** Joining one more part appends the separator and that part. */
  lemma {:induction false} JoinLast(parts: seq<string>, last: string, sep: string)
    requires |parts| > 0
    ensures Join(parts + [last], sep) == Join(parts, sep) + sep + last
    decreases |parts|
  {
    assert (parts + [last])[1..] == parts[1..] + [last];
    if |parts| > 1 {
      JoinLast(parts[1..], last, sep);
    }
  }

  /** A rune found in neither the parts nor the separator is not in their join. */
  lemma {:induction false} JoinAvoids(parts: seq<string>, sep: string, c: char)
    requires c !in sep
    requires forall k :: 0 <= k < |parts| ==> c !in parts[k]
    ensures c !in Join(parts, sep)
    decreases |parts|
  {
    if |parts| > 1 {
      JoinAvoids(parts[1..], sep, c);
    }
  }

  /** Lower-casing never produces a rune that is not a letter unless it was there. */
  lemma ToLowerAvoids(s: string, c: char)
    requires c !in s && !IsUpperAscii(c) && !IsLowerAscii(c)
    ensures c !in ToLower(s)
  {
    forall i | 0 <= i < |s| ensures ToLower(s)[i] != c {
      assert s[i] != c;
    }
  }

  /** Groups of lines written one group after another. */
  function Flatten(groups: seq<seq<string>>): seq<string>
    decreases |groups|
  {
    if |groups| == 0 then [] else groups[0] + Flatten(groups[1..])
  }

  /** Every line of the flattened groups comes from one of the groups. */
  lemma {:induction false} FlattenMember(groups: seq<seq<string>>, x: string)
    requires x in Flatten(groups)
    ensures exists g :: 0 <= g < |groups| && x in groups[g]
    decreases |groups|
  {
    if x !in groups[0] {
      FlattenMember(groups[1..], x);
      var g :| 0 <= g < |groups[1..]| && x in groups[1..][g];
      assert groups[g + 1] == groups[1..][g];
    }
  }

  lemma {:induction false} FlattenAppend(a: seq<seq<string>>, b: seq<seq<string>>)
    ensures Flatten(a + b) == Flatten(a) + Flatten(b)
    decreases |a|
  {
    if |a| > 0 {
      assert (a + b)[1..] == a[1..] + b;
      FlattenAppend(a[1..], b);
    } else {
      assert a + b == b;
    }
  }

  /** Group `g` sits between the groups before it and the groups after it. */
  lemma {:induction false} FlattenAt(groups: seq<seq<string>>, g: nat)
    requires g < |groups|
    ensures Flatten(groups) == Flatten(groups[..g]) + groups[g] + Flatten(groups[g + 1..])
    decreases g
  {
    if g == 0 {
      assert groups[..0] == [];
      assert groups[1..] == groups[g + 1..];
    } else {
      var rest := groups[1..];
      FlattenAt(rest, g - 1);
      assert rest[..g - 1] == groups[..g][1..];
      assert rest[g..] == groups[g + 1..];
      assert rest[g - 1] == groups[g];
      assert groups[..g][0] == groups[0];
    }
  }

  lemma FlattenSingle(group: seq<string>)
    ensures Flatten([group]) == group
  {
    assert [group][1..] == [];
  }

  lemma {:induction false} FlattenLength(groups: seq<seq<string>>, n: nat)
    requires forall h :: 0 <= h < |groups| ==> |groups[h]| == n
    ensures |Flatten(groups)| == |groups| * n
    decreases |groups|
  {
    if |groups| > 0 {
      FlattenLength(groups[1..], n);
    }
  }

  /** No line holds a line break. */
  predicate NoBreak(lines: seq<string>) {
    forall i :: 0 <= i < |lines| ==> '\n' !in lines[i]
  }

  lemma NoBreakAppend(a: seq<string>, b: seq<string>)
    requires NoBreak(a) && NoBreak(b)
    ensures NoBreak(a + b)
  {
    assert forall i :: |a| <= i < |a + b| ==> (a + b)[i] == b[i - |a|];
  }

  lemma {:induction false} FlattenNoBreak(groups: seq<seq<string>>)
    requires forall g :: 0 <= g < |groups| ==> NoBreak(groups[g])
    ensures NoBreak(Flatten(groups))
    decreases |groups|
  {
    if |groups| > 0 {
      FlattenNoBreak(groups[1..]);
      assert forall g :: 0 <= g < |groups[1..]| ==> groups[1..][g] == groups[g + 1];
      NoBreakAppend(groups[0], Flatten(groups[1..]));
    }
  }

  /** Lines without line breaks, joined with newlines, split back into the lines. */
  lemma JoinLinesReadBack(lines: seq<string>)
    requires |lines| > 0 && NoBreak(lines)
    ensures Split(Join(lines, "\n"), '\n') == lines
  {
    SplitJoin(lines, '\n');
  }
}
