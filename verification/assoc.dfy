/** Maps built by a run of assignments `m[k] = v`, the way the reader fills its result
    maps inside `for` loops. Some iterations assign nothing (a `continue`, or a `switch`
    with no matching case); a later assignment to a key overwrites an earlier one. */
module Assoc {

  /** One loop iteration: no assignment, or `m[key] = value`. */
  datatype Step<V> = Skip | Put(key: string, value: V)

  /** Some step assigns key `k`. */
  ghost predicate Mentions<V>(steps: seq<Step<V>>, k: string) {
    exists i :: 0 <= i < |steps| && steps[i].Put? && steps[i].key == k
  }

  /** Step `i` assigns, and no later step assigns the same key. */
  predicate LastFor<V>(steps: seq<Step<V>>, i: int)
    requires 0 <= i < |steps|
  {
    steps[i].Put? && forall j :: i < j < |steps| && steps[j].Put? ==> steps[j].key != steps[i].key
  }

  /** What `r` is after running `steps` on `m`. */
  ghost predicate AssignedFrom<V>(r: map<string, V>, m: map<string, V>, steps: seq<Step<V>>) {
    && (forall k :: k in r <==> k in m || Mentions(steps, k))
    && (forall i :: 0 <= i < |steps| && steps[i].Put? ==> steps[i].key in r)
    && (forall i :: 0 <= i < |steps| && LastFor(steps, i) ==> r[steps[i].key] == steps[i].value)
    && (forall k :: k in m && !Mentions(steps, k) ==> r[k] == m[k])
  }

  /** The map after running `steps` on `m`, in order: it holds exactly the keys of `m`
      and the assigned keys, an assigned key holds the value of its last assignment,
      and every other key keeps its value. */
  function Assign<V>(m: map<string, V>, steps: seq<Step<V>>): (r: map<string, V>)
    ensures forall k :: k in r <==> k in m || Mentions(steps, k)
    ensures forall i :: 0 <= i < |steps| && steps[i].Put? ==> steps[i].key in r
    ensures forall i :: 0 <= i < |steps| && LastFor(steps, i) ==> r[steps[i].key] == steps[i].value
    ensures forall k :: k in m && !Mentions(steps, k) ==> r[k] == m[k]
    decreases |steps|
  {
    if |steps| == 0 then m
    else
      var n := |steps| - 1;
      var prefix := Assign(m, steps[..n]);
      AssignLast(m, steps, prefix);
      Apply(prefix, steps[n])
  }

  /** One iteration of the loop. */
  function Apply<V>(m: map<string, V>, s: Step<V>): map<string, V> {
    match s
    case Skip => m
    case Put(k, v) => m[k := v]
  }

  lemma AssignLast<V>(m: map<string, V>, steps: seq<Step<V>>, prefix: map<string, V>)
    requires |steps| > 0
    requires AssignedFrom(prefix, m, steps[..|steps| - 1])
    ensures AssignedFrom(Apply(prefix, steps[|steps| - 1]), m, steps)
  {
    var n := |steps| - 1;
    var front := steps[..n];
    var r := Apply(prefix, steps[n]);
    forall k ensures Mentions(steps, k) <==> Mentions(front, k) || (steps[n].Put? && steps[n].key == k) {
      MentionsFront(steps, k);
    }
    assert forall k :: k in r <==> k in m || Mentions(steps, k);
    forall i | 0 <= i < |steps| && steps[i].Put? ensures steps[i].key in r {
      if i < n { assert front[i] == steps[i]; }
    }
    forall i | 0 <= i < |steps| && LastFor(steps, i)
      ensures r[steps[i].key] == steps[i].value
    {
      if i < n {
        assert front[i] == steps[i];
        assert LastFor(front, i);
      }
    }
    forall k | k in m && !Mentions(steps, k) ensures r[k] == m[k] {
      MentionsFront(steps, k);
    }
  }

  lemma MentionsFront<V>(steps: seq<Step<V>>, k: string)
    requires |steps| > 0
    ensures Mentions(steps, k) <==>
      (Mentions(steps[..|steps| - 1], k) || (steps[|steps| - 1].Put? && steps[|steps| - 1].key == k))
  {
    var n := |steps| - 1;
    var front := steps[..n];
    if Mentions(steps, k) {
      var i :| 0 <= i < |steps| && steps[i].Put? && steps[i].key == k;
      if i < n { assert front[i] == steps[i]; }
    }
    if Mentions(front, k) {
      var i :| 0 <= i < |front| && front[i].Put? && front[i].key == k;
      assert steps[i] == front[i];
    }
  }

  /** Running two runs of steps one after the other is one run over both. */
  lemma {:induction false} AssignAppend<V>(m: map<string, V>, a: seq<Step<V>>, b: seq<Step<V>>)
    ensures Assign(m, a + b) == Assign(Assign(m, a), b)
    decreases |b|
  {
    if |b| > 0 {
      var n := |b| - 1;
      assert (a + b)[..|a + b| - 1] == a + b[..n];
      AssignAppend(m, a, b[..n]);
    } else {
      assert a + b == a;
    }
  }
}
