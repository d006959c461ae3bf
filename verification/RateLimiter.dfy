/**
 * The sliding-window rate limiter (packages/gateway/src/rate-limiter.ts) with its periodic sweep.
 * The clock is a parameter that does not go back.
 */
module RateLimiter {
  const WINDOW_MS: int := 60_000

  /** The entries later than `from`. */
  function Pruned(ts: seq<int>, from: int): (r: seq<int>)
    ensures |r| <= |ts| && forall i :: 0 <= i < |r| ==> r[i] > from && r[i] in ts
  {
    if ts == [] then [] else (if ts[0] > from then [ts[0]] else []) + Pruned(ts[1..], from)
  }

  predicate Nondecreasing(ts: seq<int>) { forall i, j :: 0 <= i < j < |ts| ==> ts[i] <= ts[j] }

  function Entries(buckets: map<string, seq<int>>, id: string): seq<int> {
    if id in buckets then buckets[id] else []
  }

  /** How many entries lie in the interval from `lo` up to, but not including, `hi`. */
  function Count(ts: seq<int>, lo: int, hi: int): (n: nat)
    ensures n <= |ts|
  {
    if ts == [] then 0 else Count(ts[..|ts| - 1], lo, hi) + if lo <= ts[|ts| - 1] < hi then 1 else 0
  }

  // ---- What a history of admissions allows ---------------------------------------------------

  /** Every admission found room in the window before it. */
  ghost predicate Earned(ts: seq<int>, limit: nat) {
    Nondecreasing(ts) && forall k :: 0 <= k < |ts| ==> |Pruned(ts[..k], ts[k] - WINDOW_MS)| < limit
  }

  lemma {:induction false} PrunedOfMore(ts: seq<int>, t: int, from: int)
    ensures Pruned(ts + [t], from) == Pruned(ts, from) + if t > from then [t] else []
  {
    if ts == [] {
      assert ts + [t] == [t] && [t][1..] == [];
    } else {
      assert (ts + [t])[1..] == ts[1..] + [t];
      PrunedOfMore(ts[1..], t, from);
    }
  }

  /** In an interval that ends no later than the window, no entry is missed by the pruning. */
  lemma {:induction false} CountedArePruned(ts: seq<int>, from: int, lo: int, hi: int)
    requires from < lo
    ensures Count(ts, lo, hi) <= |Pruned(ts, from)|
    decreases |ts|
  {
    if ts != [] {
      var init, t := ts[..|ts| - 1], ts[|ts| - 1];
      assert ts == init + [t];
      CountedArePruned(init, from, lo, hi);
      PrunedOfMore(init, t, from);
    }
  }

  /** No interval of a minute, its end excluded, holds more admissions than the limit. */
  lemma {:induction false} NoMinuteExceedsLimit(ts: seq<int>, limit: nat, lo: int)
    requires Earned(ts, limit)
    ensures Count(ts, lo, lo + WINDOW_MS) <= limit
    decreases |ts|
  {
    if ts != [] {
      var init, t := ts[..|ts| - 1], ts[|ts| - 1];
      if lo <= t < lo + WINDOW_MS {
        CountedArePruned(init, t - WINDOW_MS, lo, lo + WINDOW_MS);
      } else {
        PrefixIsEarned(ts, limit);
        NoMinuteExceedsLimit(init, limit, lo);
      }
    }
  }

  lemma PrefixIsEarned(ts: seq<int>, limit: nat)
    requires ts != [] && Earned(ts, limit)
    ensures Earned(ts[..|ts| - 1], limit)
  {
    var init := ts[..|ts| - 1];
    forall k | 0 <= k < |init| ensures |Pruned(init[..k], init[k] - WINDOW_MS)| < limit {
      assert init[..k] == ts[..k] && init[k] == ts[k];
    }
  }

  lemma EarnedOneMore(ts: seq<int>, limit: nat, now: int)
    requires Earned(ts, limit) && (forall i :: 0 <= i < |ts| ==> ts[i] <= now) && |Pruned(ts, now - WINDOW_MS)| < limit
    ensures Earned(ts + [now], limit)
  {
    hide Pruned;
    var more := ts + [now];
    forall k | 0 <= k < |more| ensures |Pruned(more[..k], more[k] - WINDOW_MS)| < limit {
      assert more[..k] == ts[..k];
      assert k == |ts| ==> ts[..k] == ts;
    }
  }

  lemma {:induction false} PrunedIsCounted(ts: seq<int>, from: int, hi: int)
    requires forall i :: 0 <= i < |ts| ==> ts[i] < hi
    ensures |Pruned(ts, from)| == Count(ts, from + 1, hi)
    decreases |ts|
  {
    if ts != [] {
      var init, t := ts[..|ts| - 1], ts[|ts| - 1];
      assert ts == init + [t];
      PrunedIsCounted(init, from, hi);
      PrunedOfMore(init, t, from);
    }
  }

  // ---- Minutes with both ends ------------------------------------------------------------------

  /** Every admission found room even when an entry exactly a minute before it is counted. */
  ghost predicate EarnedWithEnd(ts: seq<int>, limit: nat) {
    forall k :: 0 <= k < |ts| ==> |Pruned(ts[..k], ts[k] - WINDOW_MS - 1)| < limit
  }

  /** The minute from `lo`, its end included, holds no more than the limit. */
  predicate ClosedMinuteFits(ts: seq<int>, limit: nat, lo: int) { Count(ts, lo, lo + WINDOW_MS + 1) <= limit }

  /**
   * The minute that ends with an admission, both ends counted, is within the limit exactly when the
   * closed window had room.
   */
  lemma ClosedMinuteAt(ts: seq<int>, limit: nat, now: int)
    requires forall i :: 0 <= i < |ts| ==> ts[i] <= now
    ensures Count(ts + [now], now - WINDOW_MS, now + 1) <= limit <==> |Pruned(ts, now - WINDOW_MS - 1)| < limit
  {
    PrunedIsCounted(ts, now - WINDOW_MS - 1, now + 1);
    assert (ts + [now])[..|ts|] == ts;
  }

  lemma {:induction false} CountOfPrefix(ts: seq<int>, k: nat, lo: int, hi: int)
    requires k <= |ts|
    ensures Count(ts[..k], lo, hi) <= Count(ts, lo, hi)
    decreases |ts|
  {
    if k == |ts| {
      assert ts[..k] == ts;
    } else {
      assert ts[..|ts| - 1][..k] == ts[..k];
      CountOfPrefix(ts[..|ts| - 1], k, lo, hi);
    }
  }

  lemma {:induction false} ClosedMinutes(ts: seq<int>, limit: nat, lo: int)
    requires EarnedWithEnd(ts, limit)
    ensures ClosedMinuteFits(ts, limit, lo)
    decreases |ts|
  {
    if ts != [] {
      var init, t := ts[..|ts| - 1], ts[|ts| - 1];
      if lo <= t < lo + WINDOW_MS + 1 {
        CountedArePruned(init, t - WINDOW_MS - 1, lo, lo + WINDOW_MS + 1);
      } else {
        forall k | 0 <= k < |init| ensures |Pruned(init[..k], init[k] - WINDOW_MS - 1)| < limit {
          assert init[..k] == ts[..k] && init[k] == ts[k];
        }
        ClosedMinutes(init, limit, lo);
      }
    }
  }

  /** Minutes with both ends keep the limit exactly when no admission leant on an entry a minute old. */
  lemma ClosedMinutesExactly(ts: seq<int>, limit: nat)
    requires Nondecreasing(ts)
    ensures (forall lo :: ClosedMinuteFits(ts, limit, lo)) <==> EarnedWithEnd(ts, limit)
  {
    hide Pruned, Count;
    if EarnedWithEnd(ts, limit) {
      forall lo ensures ClosedMinuteFits(ts, limit, lo) { ClosedMinutes(ts, limit, lo); }
    }
    if forall lo :: ClosedMinuteFits(ts, limit, lo) {
      forall k | 0 <= k < |ts| ensures |Pruned(ts[..k], ts[k] - WINDOW_MS - 1)| < limit {
        var now := ts[k];
        assert ts[..k] + [now] == ts[..k + 1];
        ClosedMinuteAt(ts[..k], limit, now);
        CountOfPrefix(ts, k + 1, now - WINDOW_MS, now + 1);
        assert ClosedMinuteFits(ts, limit, now - WINDOW_MS);
      }
    }
  }

  /** The rule does not promise it: two requests exactly a minute apart both pass a limit of one. */
  lemma MinuteWithItsEndExceedsLimit()
    ensures Earned([0, WINDOW_MS], 1) && Count([0, WINDOW_MS], 0, WINDOW_MS + 1) == 2
  {
    var ts := [0, WINDOW_MS];
    assert ts[..0] == [] && ts[..1] == [0] && [0][1..] == [] && [0][..0] == [];
    assert Pruned([0], 0) == [];
    assert Count([0], 0, WINDOW_MS + 1) == 1;
  }

  /** Milliseconds to whole seconds, rounded up, at least one. */
  function RetryAfter(oldest: int, now: int): (s: int)
    requires oldest > now - WINDOW_MS
    ensures s >= 1 && now + 1000 * s >= oldest + WINDOW_MS
  {
    var s := (oldest + WINDOW_MS - now + 999) / 1000;
    if s > 1 then s else 1
  }

  lemma {:induction false} PrunedAgain(ts: seq<int>, from: int, later: int)
    requires from <= later
    ensures Pruned(Pruned(ts, from), later) == Pruned(ts, later)
  {
    if ts != [] {
      PrunedAgain(ts[1..], from, later);
      var tail := Pruned(ts[1..], from);
      if ts[0] > from { assert ([ts[0]] + tail)[1..] == tail; } else { assert [] + tail == tail; }
    }
  }

  /** Of ordered entries, fewer than those from `k` on are later exactly when the one at `k` is not. */
  lemma {:induction false} PrunedFrom(ts: seq<int>, from: int, k: nat)
    requires Nondecreasing(ts) && k < |ts|
    ensures |Pruned(ts, from)| < |ts| - k <==> ts[k] <= from
  {
    if ts[0] > from {
      NothingPruned(ts, from);
    } else if k > 0 {
      PrunedFrom(ts[1..], from, k - 1);
    }
  }

  lemma {:induction false} NothingPruned(ts: seq<int>, from: int)
    requires forall i :: 0 <= i < |ts| ==> ts[i] > from
    ensures Pruned(ts, from) == ts
  {
    if ts != [] {
      NothingPruned(ts[1..], from);
      assert ts == [ts[0]] + ts[1..];
    }
  }

  lemma {:induction false} PrunedStaysOrdered(ts: seq<int>, from: int)
    requires Nondecreasing(ts)
    ensures Nondecreasing(Pruned(ts, from))
  {
    if ts != [] {
      PrunedStaysOrdered(ts[1..], from);
      var tail := Pruned(ts[1..], from);
      assert forall i :: 0 <= i < |tail| ==> tail[i] in ts[1..] && ts[0] <= tail[i];
    }
  }

  /**
   * A caller that was refused, at whatever limit, and comes back at a later time with no other
   * requests in between, finds room exactly when the entry `limit` places from the end of the
   * window has left it.
   */
  lemma WaitingExactly(ts: seq<int>, limit: nat, now: int, later: int)
    requires Nondecreasing(ts) && limit > 0 && now <= later && |Pruned(ts, now - WINDOW_MS)| >= limit
    ensures var window := Pruned(ts, now - WINDOW_MS);
      |Pruned(ts, later - WINDOW_MS)| < limit <==> window[|window| - limit] <= later - WINDOW_MS
  {
    hide Pruned;
    var window := Pruned(ts, now - WINDOW_MS);
    PrunedAgain(ts, now - WINDOW_MS, later - WINDOW_MS);
    PrunedStaysOrdered(ts, now - WINDOW_MS);
    PrunedFrom(window, later - WINDOW_MS, |window| - limit);
  }

  /** So waiting as told is enough when the limit is the one the requests were admitted under. */
  lemma WaitingIsEnough(ts: seq<int>, limit: nat, now: int)
    requires Earned(ts, limit) && limit > 0 && (forall i :: 0 <= i < |ts| ==> ts[i] <= now)
    requires |Pruned(ts, now - WINDOW_MS)| >= limit
    ensures var oldest := Pruned(ts, now - WINDOW_MS)[0];
      |Pruned(ts, now + 1000 * RetryAfter(oldest, now) - WINDOW_MS)| < limit
  {
    hide Pruned, Count, RetryAfter;
    var window := Pruned(ts, now - WINDOW_MS);
    PrunedIsCounted(ts, now - WINDOW_MS, now + 1);
    NoMinuteExceedsLimit(ts, limit, now - WINDOW_MS + 1);
    WaitingExactly(ts, limit, now, now + 1000 * RetryAfter(window[0], now));
  }

  /** After the limit was lowered it need not be: the wait is counted from the oldest entry. */
  lemma LoweredLimitRefusesAgain()
    ensures Earned([0, 30_000], 2)
    ensures Pruned([0, 30_000], 30_000 - WINDOW_MS) == [0, 30_000] && RetryAfter(0, 30_000) == 30
    ensures |Pruned([0, 30_000], 60_000 - WINDOW_MS)| == 1
  {
    var ts := [0, 30_000];
    assert ts[..0] == [] && ts[..1] == [0] && ts[1..] == [30_000] && [0][1..] == [] && [30_000][1..] == [];
  }

  // ---- The limiter ------------------------------------------------------------------------------

  datatype Decision = Admitted(remaining: nat) | Denied(retryAfter: int)

  /** Whatever the sweeps removed, the bucket and the history show the same window from now on. */
  ghost predicate Agree(bucket: seq<int>, history: seq<int>, clock: int) {
    forall from :: from >= clock - WINDOW_MS ==> Pruned(bucket, from) == Pruned(history, from)
  }

  class Limiter {
    var buckets: map<string, seq<int>>
    /** The largest limit each identifier ever has; its tier, and with it its limit, may change between requests. */
    ghost const limits: string -> nat
    /** Every admission there has been. */
    ghost var history: map<string, seq<int>>
    ghost var clock: int

    ghost predicate Valid()
      reads this
    {
      forall id :: ValidFor(Entries(buckets, id), Entries(history, id), limits(id), clock)
    }

    constructor (ghost limits: string -> nat, ghost clock: int)
      ensures Valid() && history == map[] && this.clock == clock && this.limits == limits
    {
      this.limits, this.clock := limits, clock;
      buckets, history := map[], map[];
      EmptyIsValid(clock);
    }

    method Prune(ts: seq<int>, from: int) returns (r: seq<int>)
      ensures r == Pruned(ts, from)
    {
      r := [];
      assert ts[..0] == [];
      for i := 0 to |ts|
        invariant r == Pruned(ts[..i], from)
      {
        assert ts[..i + 1] == ts[..i] + [ts[i]];
        PrunedOfMore(ts[..i], ts[i], from);
        if ts[i] > from { r := r + [ts[i]]; }
      }
      assert ts[..|ts|] == ts;
    }

    /** rateLimiter: the decision depends on the history of admissions alone. */
    method Handle(id: string, limit: nat, now: int) returns (d: Decision)
      requires Valid() && now >= clock && 0 < limit <= limits(id)
      modifies this
      ensures Valid() && clock == now
      ensures var window := Pruned(Entries(old(history), id), now - WINDOW_MS);
        d == if |window| < limit then Admitted(limit - |window| - 1) else Denied(RetryAfter(window[0], now))
      ensures history == if d.Admitted? then old(history)[id := Entries(old(history), id) + [now]] else old(history)
    {
      hide ValidFor, Pruned, RetryAfter;
      ghost var buckets0, history0, clock0 := buckets, history, clock;
      assert ValidFor(Entries(buckets, id), Entries(history, id), limits(id), clock);
      var windows := Prune(Entries(buckets, id), now - WINDOW_MS);
      WindowIsKnown(Entries(buckets, id), Entries(history, id), limits(id), clock, now);
      buckets := buckets[id := windows];
      clock := now;
      var current := |windows|;
      if current >= limit {
        d := Denied(RetryAfter(windows[0], now));
      } else {
        d := Admitted(limit - current - 1);
        buckets := buckets[id := windows + [now]];
        history := history[id := Entries(history, id) + [now]];
      }
      forall x ensures ValidFor(Entries(buckets, x), Entries(history, x), limits(x), clock) {
        assert ValidFor(Entries(buckets0, x), Entries(history0, x), limits(x), clock0);
        if x == id {
          HandledIsValid(Entries(buckets0, id), Entries(history0, id), limits(id), clock0, now);
        } else {
          LaterIsValid(Entries(buckets0, x), Entries(history0, x), limits(x), clock0, now);
        }
      }
    }

    /** The interval callback: old entries and empty buckets go, and no decision changes. */
    method Sweep(now: int)
      requires Valid() && now >= clock
      modifies this
      ensures Valid() && clock == now && history == old(history)
    {
      hide ValidFor, Pruned;
      ghost var buckets0, clock0 := buckets, clock;
      var cutoff := now - WINDOW_MS * 2;
      var todo := buckets.Keys;
      while todo != {}
        invariant todo <= buckets0.Keys
        invariant forall id :: id !in buckets0 ==> id !in buckets
        invariant forall id :: id in todo ==> id in buckets && buckets[id] == buckets0[id]
        invariant forall id :: id in buckets0 && id !in todo ==> Entries(buckets, id) == Pruned(buckets0[id], cutoff)
        invariant history == old(history) && clock == clock0
        decreases |todo|
      {
        var id :| id in todo;
        var windows := Prune(buckets[id], cutoff);
        todo := todo - {id};
        buckets := if windows == [] then buckets - {id} else buckets[id := windows];
      }
      clock := now;
      forall x ensures ValidFor(Entries(buckets, x), Entries(history, x), limits(x), clock) {
        assert ValidFor(Entries(buckets0, x), Entries(history, x), limits(x), clock0);
        if x in buckets0 {
          SweptIsValid(buckets0[x], Entries(history, x), limits(x), clock0, now);
        } else {
          LaterIsValid(Entries(buckets0, x), Entries(history, x), limits(x), clock0, now);
        }
      }
    }

    /** What the limiter guarantees at any time, for every identifier. */
    lemma LimitIsKept(id: string, lo: int)
      requires Valid()
      ensures Count(Entries(history, id), lo, lo + WINDOW_MS) <= limits(id)
    {
      assert ValidFor(Entries(buckets, id), Entries(history, id), limits(id), clock);
      NoMinuteExceedsLimit(Entries(history, id), limits(id), lo);
    }
  }

  ghost predicate ValidFor(bucket: seq<int>, history: seq<int>, limit: nat, clock: int) {
    && Earned(history, limit) && (forall i :: 0 <= i < |history| ==> history[i] <= clock)
    && Agree(bucket, history, clock)
  }

  lemma EmptyIsValid(clock: int)
    ensures forall limit :: ValidFor([], [], limit, clock)
  {
  }

  lemma WindowIsKnown(bucket: seq<int>, history: seq<int>, limit: nat, clock: int, now: int)
    requires ValidFor(bucket, history, limit, clock) && now >= clock
    ensures Pruned(bucket, now - WINDOW_MS) == Pruned(history, now - WINDOW_MS)
  {
    hide Pruned, Earned;
  }

  lemma LaterIsValid(bucket: seq<int>, history: seq<int>, limit: nat, clock: int, now: int)
    requires ValidFor(bucket, history, limit, clock) && now >= clock
    ensures ValidFor(bucket, history, limit, now)
  {
    hide Pruned, Earned;
  }

  lemma HandledIsValid(bucket: seq<int>, history: seq<int>, limit: nat, clock: int, now: int)
    requires ValidFor(bucket, history, limit, clock) && now >= clock
    ensures var windows := Pruned(bucket, now - WINDOW_MS);
      && ValidFor(windows, history, limit, now)
      && (|windows| < limit ==> ValidFor(windows + [now], history + [now], limit, now))
  {
    hide Pruned, Earned;
    var windows := Pruned(bucket, now - WINDOW_MS);
    WindowIsKnown(bucket, history, limit, clock, now);
    forall from | from >= now - WINDOW_MS
      ensures Pruned(windows, from) == Pruned(history, from)
      ensures Pruned(windows + [now], from) == Pruned(history + [now], from)
    {
      PrunedAgain(history, now - WINDOW_MS, from);
      PrunedOfMore(windows, now, from);
      PrunedOfMore(history, now, from);
    }
    if |windows| < limit { EarnedOneMore(history, limit, now); }
  }

  lemma SweptIsValid(bucket: seq<int>, history: seq<int>, limit: nat, clock: int, now: int)
    requires ValidFor(bucket, history, limit, clock) && now >= clock
    ensures ValidFor(Pruned(bucket, now - WINDOW_MS * 2), history, limit, now)
  {
    hide Pruned, Earned;
    var swept := Pruned(bucket, now - WINDOW_MS * 2);
    forall from | from >= now - WINDOW_MS ensures Pruned(swept, from) == Pruned(history, from) {
      PrunedAgain(bucket, now - WINDOW_MS * 2, from);
    }
  }
}
