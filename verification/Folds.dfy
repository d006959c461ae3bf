/** Folding a partial step over a list, and when the order of the list does not matter. */
module Folds {
  import opened Prelude

  function Fold<D, M>(step: (D, M) -> Option<D>, d: D, ms: seq<M>): Option<D>
    decreases |ms|
  {
    if ms == [] then Some(d)
    else
      var next := step(d, ms[0]);
      if next.None? then None else Fold(step, next.value, ms[1..])
  }

  lemma FoldOfFirst<D, M>(step: (D, M) -> Option<D>, d: D, m: M, ms: seq<M>)
    ensures Fold(step, d, [m] + ms) == var next := step(d, m); if next.None? then None else Fold(step, next.value, ms)
  {
    assert ([m] + ms)[1..] == ms;
  }

  lemma {:induction false} FoldOfConcat<D, M>(step: (D, M) -> Option<D>, d: D, a: seq<M>, b: seq<M>)
    ensures Fold(step, d, a + b) == var e := Fold(step, d, a); if e.None? then None else Fold(step, e.value, b)
    decreases |a|
  {
    if a == [] {
      assert a + b == b;
    } else {
      assert (a + b)[1..] == a[1..] + b;
      var next := step(d, a[0]);
      if next.Some? { FoldOfConcat(step, next.value, a[1..], b); }
    }
  }

  function Two<D, M>(step: (D, M) -> Option<D>, d: D, a: M, b: M): Option<D> {
    var next := step(d, a);
    if next.None? then None else step(next.value, b)
  }

  /** The two may change places. */
  ghost predicate Commute<D(!new), M>(step: (D, M) -> Option<D>, a: M, b: M) {
    forall d :: Two(step, d, a, b) == Two(step, d, b, a)
  }

  ghost predicate AllCommute<D(!new), M>(step: (D, M) -> Option<D>, ms: seq<M>) {
    forall i, j :: 0 <= i < j < |ms| ==> Commute(step, ms[i], ms[j])
  }

  lemma Swapped<D(!new), M>(step: (D, M) -> Option<D>, d: D, a: M, m: M, rest: seq<M>)
    requires Commute(step, m, a)
    ensures Fold(step, d, [a, m] + rest) == Fold(step, d, [m, a] + rest)
  {
    hide Commute;
    assert Two(step, d, a, m) == Two(step, d, m, a) by { CommuteAt(step, d, a, m); }
    assert [a, m] + rest == [a] + ([m] + rest) && [m, a] + rest == [m] + ([a] + rest);
    FoldOfFirst(step, d, a, [m] + rest);
    FoldOfFirst(step, d, m, [a] + rest);
    var x, y := step(d, a), step(d, m);
    if x.Some? { FoldOfFirst(step, x.value, m, rest); }
    if y.Some? { FoldOfFirst(step, y.value, a, rest); }
  }

  lemma CommuteAt<D(!new), M>(step: (D, M) -> Option<D>, d: D, a: M, m: M)
    requires Commute(step, m, a)
    ensures Two(step, d, a, m) == Two(step, d, m, a)
  {
    assert Two(step, d, m, a) == Two(step, d, a, m);
  }

  /** An element may be moved to the front, past those it commutes with. */
  lemma {:induction false} MovedToFront<D(!new), M>(step: (D, M) -> Option<D>, d: D, a: seq<M>, m: M, b: seq<M>)
    requires forall i :: 0 <= i < |a| ==> Commute(step, m, a[i])
    ensures Fold(step, d, a + [m] + b) == Fold(step, d, [m] + a + b)
    decreases |a|
  {
    hide Commute, Fold;
    if a == [] {
      assert a + [m] + b == [m] + a + b;
    } else {
      var rest := a[1..];
      assert a + [m] + b == [a[0]] + (rest + [m] + b) && [m] + a + b == [m, a[0]] + (rest + b);
      assert [a[0]] + ([m] + rest + b) == [a[0], m] + (rest + b);
      FoldOfFirst(step, d, a[0], rest + [m] + b);
      FoldOfFirst(step, d, a[0], [m] + rest + b);
      var next := step(d, a[0]);
      if next.Some? { MovedToFront(step, next.value, rest, m, b); }
      Swapped(step, d, a[0], m, rest + b);
    }
  }

  lemma Around<M>(ms: seq<M>, ns: seq<M>) returns (a: seq<M>, b: seq<M>)
    requires ms != [] && multiset(ms) == multiset(ns)
    ensures ns == a + [ms[0]] + b && multiset(ms[1..]) == multiset(a + b)
  {
    assert ms[0] in multiset(ns);
    var j :| 0 <= j < |ns| && ns[j] == ms[0];
    a, b := ns[..j], ns[j + 1..];
    SplitAt(ns, j);
    SameRest(ms, a, b);
  }

  lemma SplitAt<M>(ns: seq<M>, j: nat)
    requires j < |ns|
    ensures ns == ns[..j] + [ns[j]] + ns[j + 1..]
  {
  }

  lemma SameRest<M>(ms: seq<M>, a: seq<M>, b: seq<M>)
    requires ms != [] && multiset(ms) == multiset(a + [ms[0]] + b)
    ensures multiset(ms[1..]) == multiset(a + b)
  {
    var m, rest := ms[0], ms[1..];
    assert ms == [m] + rest;
    assert multiset(ms) == multiset{m} + multiset(rest);
    assert multiset(a + [m] + b) == multiset{m} + multiset(a + b);
    MultisetCancels(m, multiset(rest), multiset(a + b));
  }

  lemma MultisetCancels<M>(m: M, x: multiset<M>, y: multiset<M>)
    requires multiset{m} + x == multiset{m} + y
    ensures x == y
  {
    assert (multiset{m} + x) - multiset{m} == x;
    assert (multiset{m} + y) - multiset{m} == y;
  }

  lemma PrefixCommutes<D(!new), M>(step: (D, M) -> Option<D>, ms: seq<M>, a: seq<M>, b: seq<M>)
    requires ms != [] && AllCommute(step, ms) && multiset(ms[1..]) == multiset(a + b)
    ensures forall i :: 0 <= i < |a| ==> Commute(step, ms[0], a[i])
    ensures AllCommute(step, ms[1..])
  {
    hide Commute;
    forall i | 0 <= i < |a| ensures Commute(step, ms[0], a[i]) {
      assert (a + b)[i] in multiset(ms[1..]);
      var k :| 0 <= k < |ms[1..]| && ms[1..][k] == a[i];
      assert ms[k + 1] == a[i];
    }
  }

  /** Elements that commute pairwise may come in any order. */
  lemma {:induction false} OrderDoesNotMatter<D(!new), M>(step: (D, M) -> Option<D>, d: D, ms: seq<M>, ns: seq<M>)
    requires multiset(ms) == multiset(ns) && AllCommute(step, ms)
    ensures Fold(step, d, ms) == Fold(step, d, ns)
    decreases |ms|
  {
    hide Commute, Fold, AllCommute;
    if ms == [] {
      assert |ns| == |multiset(ns)| == |multiset(ms)| == 0;
    } else {
      var m, rest := ms[0], ms[1..];
      var a, b := Around(ms, ns);
      PrefixCommutes(step, ms, a, b);
      MovedToFront(step, d, a, m, b);
      assert [m] + a + b == [m] + (a + b) && ms == [m] + rest;
      FoldOfFirst(step, d, m, a + b);
      FoldOfFirst(step, d, m, rest);
      var next := step(d, m);
      if next.Some? { OrderDoesNotMatter(step, next.value, rest, a + b); }
    }
  }
}
