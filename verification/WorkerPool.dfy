/**
 * Pools of workers that share a counter: pLimit of scripts/build-skills-index.js and the index
 * builder of packages/core/src/router.ts. A worker runs alone between two awaits; which worker
 * goes on next is up to a schedule, and every property holds for all of them.
 */
module WorkerPool {
  import opened Prelude

  datatype Worker = AtLoop | Busy(idx: nat) | Finished

  // ---- Claims -----------------------------------------------------------------------------

  /** Every index below the counter is done or in the hands of exactly one worker. */
  ghost predicate Claims(workers: seq<Worker>, next: nat, filled: seq<bool>) {
    && next <= |filled|
    && (forall i :: 0 <= i < |filled| && filled[i] ==> i < next)
    && (forall w :: 0 <= w < |workers| && workers[w].Busy? ==> workers[w].idx < next && !filled[workers[w].idx])
    && (forall v, w :: 0 <= v < w < |workers| && workers[v].Busy? && workers[w].Busy? ==>
      workers[v].idx != workers[w].idx)
    && (forall i :: 0 <= i < next ==> filled[i] || HasClaim(workers, i))
    && (forall w :: 0 <= w < |workers| && workers[w].Finished? ==> next == |filled|)
  }

  ghost predicate HasClaim(workers: seq<Worker>, i: nat) { exists w :: 0 <= w < |workers| && workers[w] == Busy(i) }

  lemma HasClaimAfter(workers: seq<Worker>, w: nat, s: Worker, i: nat)
    requires w < |workers| && HasClaim(workers, i) && workers[w] != Busy(i)
    ensures HasClaim(workers[w := s], i)
  {
    var v :| 0 <= v < |workers| && workers[v] == Busy(i);
    assert workers[w := s][v] == Busy(i);
  }

  lemma NothingClaimed(limit: nat, n: nat)
    ensures Claims(seq(limit, _ => AtLoop), 0, seq(n, _ => false))
  {
  }

  /** A worker takes the next index. */
  lemma Claimed(workers: seq<Worker>, next: nat, filled: seq<bool>, w: nat)
    requires Claims(workers, next, filled) && w < |workers| && workers[w].AtLoop? && next < |filled|
    ensures Claims(workers[w := Busy(next)], next + 1, filled)
  {
    var after := workers[w := Busy(next)];
    forall i | 0 <= i < next + 1 ensures filled[i] || HasClaim(after, i) {
      if i == next { assert after[w] == Busy(next); } else if !filled[i] { HasClaimAfter(workers, w, Busy(next), i); }
    }
  }

  /** A worker stores its result. */
  lemma Stored(workers: seq<Worker>, next: nat, filled: seq<bool>, w: nat)
    requires Claims(workers, next, filled) && w < |workers| && workers[w].Busy?
    ensures Claims(workers[w := AtLoop], next, filled[workers[w].idx := true])
  {
    var after := workers[w := AtLoop];
    forall i | 0 <= i < next ensures filled[workers[w].idx := true][i] || HasClaim(after, i) {
      if i != workers[w].idx && !filled[i] { HasClaimAfter(workers, w, AtLoop, i); }
    }
  }

  lemma Exited(workers: seq<Worker>, next: nat, filled: seq<bool>, w: nat)
    requires Claims(workers, next, filled) && w < |workers| && workers[w].AtLoop? && next == |filled|
    ensures Claims(workers[w := Finished], next, filled)
  {
    forall i | 0 <= i < next ensures filled[i] || HasClaim(workers[w := Finished], i) {
      if !filled[i] { HasClaimAfter(workers, w, Finished, i); }
    }
  }

  predicate AllFinished(workers: seq<Worker>) { forall w :: 0 <= w < |workers| ==> workers[w].Finished? }

  /** When every worker has left its loop, every index is done; with no workers, none is. */
  lemma AllAreFilled(workers: seq<Worker>, next: nat, filled: seq<bool>)
    requires Claims(workers, next, filled) && AllFinished(workers) && workers != []
    ensures forall i :: 0 <= i < |filled| ==> filled[i]
  {
    assert workers[0].Finished?;
    forall i | 0 <= i < |filled| ensures filled[i] {
      assert filled[i] || HasClaim(workers, i);
    }
  }

  /** How far a worker is from leaving. */
  function Distance(s: Worker): nat {
    match s case AtLoop => 1 case Busy(_) => 2 case Finished => 0
  }

  function Distances(workers: seq<Worker>): nat {
    if workers == [] then 0 else Distance(workers[0]) + Distances(workers[1..])
  }

  lemma {:induction false} DistancesAfter(workers: seq<Worker>, w: nat, s: Worker)
    requires w < |workers|
    ensures Distances(workers[w := s]) == Distances(workers) - Distance(workers[w]) + Distance(s)
  {
    if w == 0 {
      assert workers[0 := s][1..] == workers[1..];
    } else {
      assert workers[w := s][1..] == workers[1..][w - 1 := s];
      DistancesAfter(workers[1..], w - 1, s);
    }
  }

  /** What is left to do: two steps for an unclaimed index, and the workers' own distances. */
  function Work(workers: seq<Worker>, next: nat, n: nat): int { 2 * (n - next) + Distances(workers) }

  /** Which of the unfinished workers goes on. */
  function Pick(workers: seq<Worker>, choice: nat): (w: nat)
    requires !AllFinished(workers)
    ensures w < |workers| && !workers[w].Finished?
  {
    if choice < |workers| && !workers[choice].Finished? then choice
    else FirstUnfinished(workers)
  }

  function FirstUnfinished(workers: seq<Worker>): (w: nat)
    requires !AllFinished(workers)
    ensures w < |workers| && !workers[w].Finished?
  {
    if !workers[0].Finished? then 0
    else
      assert exists v :: 0 <= v < |workers[1..]| && !workers[1..][v].Finished? by {
        var v :| 0 <= v < |workers| && !workers[v].Finished?;
        assert workers[1..][v - 1] == workers[v];
      }
      1 + FirstUnfinished(workers[1..])
  }

  // ---- pLimit ----------------------------------------------------------------------------------

  /** The results array of pLimit while it runs; a task that throws has the outcome None. */
  class Pool<V> {
    const outcomes: seq<Option<V>>
    const limit: nat
    var results: seq<Option<V>>
    var nextIdx: nat
    var workers: seq<Worker>
    ghost var filled: seq<bool>

    ghost predicate Valid()
      reads this
    {
      && |workers| == limit && |results| == |filled| == |outcomes| && Claims(workers, nextIdx, filled)
      && forall i :: 0 <= i < |filled| ==> results[i] == if filled[i] then outcomes[i] else None
    }

    constructor (outcomes: seq<Option<V>>, limit: nat)
      ensures Valid() && this.outcomes == outcomes && this.limit == limit && nextIdx == 0
      ensures workers == seq(limit, _ => AtLoop)
    {
      this.outcomes, this.limit := outcomes, limit;
      results, nextIdx, workers := seq(|outcomes|, _ => None), 0, seq(limit, _ => AtLoop);
      filled := seq(|outcomes|, _ => false);
      NothingClaimed(limit, |outcomes|);
    }

    /** A worker goes on: out of its await into the store, or around its loop. */
    method Step(w: nat)
      requires Valid() && w < |workers| && !workers[w].Finished?
      modifies this
      ensures Valid() && nextIdx >= old(nextIdx)
      ensures Work(workers, nextIdx, |outcomes|) < Work(old(workers), old(nextIdx), |outcomes|)
      ensures old(workers[w]).AtLoop? && old(nextIdx) < |outcomes|
        ==> workers[w] == Busy(old(nextIdx)) && nextIdx == old(nextIdx) + 1
    {
      hide Claims, Distances, AllFinished;
      match workers[w] {
        case Busy(idx) =>
          Stored(workers, nextIdx, filled, w);
          ClaimIsOpen(workers, nextIdx, filled, w);
          DistancesAfter(workers, w, AtLoop);
          results, filled := results[idx := outcomes[idx]], filled[idx := true];
          workers := workers[w := AtLoop];
        case AtLoop =>
          CounterInRange(workers, nextIdx, filled);
          if nextIdx < |outcomes| {
            Claimed(workers, nextIdx, filled, w);
            DistancesAfter(workers, w, Busy(nextIdx));
            workers := workers[w := Busy(nextIdx)];
            nextIdx := nextIdx + 1;
          } else {
            Exited(workers, nextIdx, filled, w);
            DistancesAfter(workers, w, Finished);
            workers := workers[w := Finished];
          }
      }
    }
  }

  lemma ClaimIsOpen(workers: seq<Worker>, next: nat, filled: seq<bool>, w: nat)
    requires Claims(workers, next, filled) && w < |workers| && workers[w].Busy?
    ensures workers[w].idx < next <= |filled| && !filled[workers[w].idx]
  {
  }

  lemma CounterInRange(workers: seq<Worker>, next: nat, filled: seq<bool>)
    requires Claims(workers, next, filled)
    ensures next <= |filled|
  {
  }

  /** No two workers ever work on the same index. */
  lemma ClaimsAreExclusive(workers: seq<Worker>, next: nat, filled: seq<bool>, v: nat, w: nat)
    requires Claims(workers, next, filled) && v < |workers| && w < |workers|
    requires workers[v].Busy? && workers[w].Busy? && workers[v].idx == workers[w].idx
    ensures v == w && !filled[workers[v].idx]
  {
  }

  /**
   * pLimit under any schedule: it ends, and the results are the outcomes in the order of the
   * tasks. With a limit of zero nothing runs and every result is null.
   */
  method PLimit<V>(outcomes: seq<Option<V>>, limit: nat, schedule: nat -> nat) returns (results: seq<Option<V>>)
    ensures limit > 0 ==> results == outcomes
    ensures limit == 0 ==> results == seq(|outcomes|, _ => None)
  {
    var pool := new Pool(outcomes, limit);
    var time := 0;
    while !AllFinished(pool.workers)
      invariant pool.Valid() && fresh(pool) && pool.outcomes == outcomes && pool.limit == limit
      invariant limit == 0 ==> pool.results == seq(|outcomes|, _ => None)
      invariant pool.nextIdx <= |outcomes|
      decreases Work(pool.workers, pool.nextIdx, |outcomes|)
    {
      WorkIsPositive(pool.workers, pool.nextIdx, |outcomes|);
      pool.Step(Pick(pool.workers, schedule(time)));
      time := time + 1;
    }
    if limit > 0 { AllAreFilled(pool.workers, pool.nextIdx, pool.filled); }
    results := pool.results;
  }

  lemma WorkIsPositive(workers: seq<Worker>, next: nat, n: nat)
    requires next <= n
    ensures Work(workers, next, n) >= 0
  {
  }
}
