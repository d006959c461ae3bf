/**
 * The plan executor (packages/core/src/planner.ts, Planner.execute): rounds of steps whose
 * dependencies have results, and a sequential fallback when no step is ready. Running a step is
 * a function of the step and the results known when it starts.
 */
module Planner {
  import opened Prelude

  datatype Step = Step(id: string, dependsOn: seq<string>, query: string)

  ghost predicate UniqueIds(plan: seq<Step>) {
    forall i, j :: 0 <= i < j < |plan| ==> plan[i].id != plan[j].id
  }

  function Ids(steps: seq<Step>): (ids: set<string>)
    ensures forall i :: 0 <= i < |steps| ==> steps[i].id in ids
  {
    set s | s in steps :: s.id
  }

  predicate IsReady(s: Step, done: set<string>) { forall i :: 0 <= i < |s.dependsOn| ==> s.dependsOn[i] in done }

  /** The steps left to run, in plan order. */
  function Remaining(plan: seq<Step>, done: set<string>): (r: seq<Step>)
    ensures forall s :: s in r <==> s in plan && s.id !in done
    ensures |r| <= |plan|
  {
    if plan == [] then []
    else (if plan[0].id !in done then [plan[0]] else []) + Remaining(plan[1..], done)
  }

  /** The first step of each id that is not done: what the set of pending ids stands for. */
  function Pending(plan: seq<Step>, done: set<string>): (r: seq<Step>)
    ensures forall s :: s in r ==> s in plan && s.id !in done
  {
    if plan == [] then []
    else if plan[0].id in done then Pending(plan[1..], done)
    else [plan[0]] + Pending(plan[1..], done + {plan[0].id})
  }

  lemma {:induction false} PendingHas(plan: seq<Step>, done: set<string>, s: Step) returns (k: nat)
    requires s in plan && s.id !in done
    ensures k < |Pending(plan, done)| && Pending(plan, done)[k].id == s.id
  {
    if plan[0].id in done {
      k := PendingHas(plan[1..], done, s);
    } else if plan[0].id == s.id {
      k := 0;
    } else {
      k := PendingHas(plan[1..], done + {plan[0].id}, s);
      k := k + 1;
    }
  }

  /** The steps that can run now, in plan order. */
  function Ready(plan: seq<Step>, done: set<string>): (r: seq<Step>)
    ensures forall s :: s in r <==> s in plan && s.id !in done && IsReady(s, done)
  {
    if plan == [] then []
    else (if plan[0].id !in done && IsReady(plan[0], done) then [plan[0]] else []) + Ready(plan[1..], done)
  }

  lemma {:induction false} FewerRemain(plan: seq<Step>, done: set<string>, more: set<string>)
    requires done <= more
    ensures |Remaining(plan, more)| <= |Remaining(plan, done)|
    ensures (exists s :: s in plan && s.id !in done && s.id in more)
      ==> |Remaining(plan, more)| < |Remaining(plan, done)|
  {
    if plan != [] {
      FewerRemain(plan[1..], done, more);
      assert forall s :: s in plan <==> s == plan[0] || s in plan[1..];
    }
  }

  lemma RoundShortens(plan: seq<Step>, done: set<string>)
    requires Ready(plan, done) != []
    ensures |Remaining(plan, done + Ids(Ready(plan, done)))| < |Remaining(plan, done)|
  {
    var s := Ready(plan, done)[0];
    assert s in plan && s.id !in done && s.id in done + Ids(Ready(plan, done));
    FewerRemain(plan, done, done + Ids(Ready(plan, done)));
  }

  // ---- The schedule -----------------------------------------------------------------------

  /** The rounds, each run in parallel, until no step is ready. */
  function Rounds(plan: seq<Step>, done: set<string>): seq<seq<Step>>
    decreases |Remaining(plan, done)|
  {
    var ready := Ready(plan, done);
    if ready == [] then []
    else
      RoundShortens(plan, done);
      [ready] + Rounds(plan, done + Ids(ready))
  }

  /** What is left for the fallback. */
  function Stuck(plan: seq<Step>, done: set<string>): seq<Step>
    decreases |Remaining(plan, done)|
  {
    var ready := Ready(plan, done);
    if ready == [] then Pending(plan, done)
    else
      RoundShortens(plan, done);
      Stuck(plan, done + Ids(ready))
  }

  function Flat(rounds: seq<seq<Step>>): seq<Step> {
    if rounds == [] then [] else rounds[0] + Flat(rounds[1..])
  }

  // ---- Results -------------------------------------------------------------------------------

  type Results<R> = map<string, R>

  /** One round: every step sees the results from before the round. */
  function RunRound<R>(run: (Step, Results<R>) -> R, steps: seq<Step>, before: Results<R>,
                       results: Results<R>): Results<R> {
    if steps == [] then results
    else RunRound(run, steps[1..], before, results[steps[0].id := run(steps[0], before)])
  }

  /** The fallback: every step sees the results of the ones before it. */
  function RunInTurn<R>(run: (Step, Results<R>) -> R, steps: seq<Step>, results: Results<R>): Results<R> {
    if steps == [] then results
    else RunInTurn(run, steps[1..], results[steps[0].id := run(steps[0], results)])
  }

  lemma {:induction false} RoundKeys<R>(run: (Step, Results<R>) -> R, steps: seq<Step>, before: Results<R>,
                                        results: Results<R>)
    ensures RunRound(run, steps, before, results).Keys == results.Keys + Ids(steps)
  {
    if steps != [] {
      RoundKeys(run, steps[1..], before, results[steps[0].id := run(steps[0], before)]);
      assert forall s :: s in steps <==> s == steps[0] || s in steps[1..];
      assert Ids(steps) == {steps[0].id} + Ids(steps[1..]);
    }
  }

  function Final<R>(run: (Step, Results<R>) -> R, plan: seq<Step>, results: Results<R>): Results<R>
    decreases |Remaining(plan, results.Keys)|
  {
    var ready := Ready(plan, results.Keys);
    if ready == [] then RunInTurn(run, Pending(plan, results.Keys), results)
    else
      RoundKeys(run, ready, results, results);
      RoundShortens(plan, results.Keys);
      Final(run, plan, RunRound(run, ready, results, results))
  }

  // ---- The executor -----------------------------------------------------------------------------

  /**
   * Planner.execute up to the synthesis, for any plan. `started` is the order in which the steps are started,
   * `fellBack` whether the fallback was taken.
   */
  method Execute<R>(run: (Step, Results<R>) -> R, plan: seq<Step>)
    returns (ordered: seq<R>, results: Results<R>, started: seq<Step>, fellBack: bool)
    ensures results == Final(run, plan, map[])
    ensures started == Flat(Rounds(plan, {})) + Stuck(plan, {})
    ensures fellBack <==> Stuck(plan, {}) != []
    ensures |ordered| == |plan| && forall k :: 0 <= k < |plan| ==>
      plan[k].id in results && ordered[k] == results[plan[k].id]
  {
    hide RunRound, RunInTurn, Ready, Remaining, Pending, Ids, Underway, IdsOf, Final, Rounds, Stuck, Flat;
    results, started, fellBack := map[], [], false;
    var pending := DistinctIds(plan);
    UnderwayAtStart(run, plan, results);
    while pending != []
      invariant pending == IdsOf(Pending(plan, results.Keys))
      invariant !fellBack && Underway(run, plan, results, started)
      decreases |Remaining(plan, results.Keys)|
    {
      NotNone(Pending(plan, results.Keys));
      var ready := FindReady(plan, pending, results);
      if ready == [] {
        fellBack := true;
        UnderwayStuck(run, plan, results, started);
        started := started + Pending(plan, results.Keys);
        results := RunPending(run, plan, pending, results);
        break;
      }
      UnderwayRound(run, plan, results, started);
      started := started + ready;
      PendingLater(plan, results.Keys, Ids(ready));
      pending := Deleted(pending, ready);
      results := RunBatch(run, ready, results);
    }
    if !fellBack { UnderwayDone(run, plan, results, started); }
    FinalKeys(run, plan, map[]);
    ordered := Ordered(plan, results);
  }

  /** plan.steps.map at the end. */
  method Ordered<R>(plan: seq<Step>, results: Results<R>) returns (ordered: seq<R>)
    requires Ids(plan) <= results.Keys
    ensures |ordered| == |plan| && forall k :: 0 <= k < |plan| ==>
      plan[k].id in results && ordered[k] == results[plan[k].id]
  {
    hide Ids;
    ordered := [];
    for k := 0 to |plan|
      invariant |ordered| == k && forall j :: 0 <= j < k ==> plan[j].id in results && ordered[j] == results[plan[j].id]
    {
      InIds(plan, k);
      ordered := ordered + [results[plan[k].id]];
    }
  }

  /** The results and starts so far, and those to come, make up the whole schedule. */
  ghost predicate Underway<R>(run: (Step, Results<R>) -> R, plan: seq<Step>, results: Results<R>, started: seq<Step>) {
    && Final(run, plan, results) == Final(run, plan, map[])
    && started + (Flat(Rounds(plan, results.Keys)) + Stuck(plan, results.Keys))
      == Flat(Rounds(plan, {})) + Stuck(plan, {})
    && Stuck(plan, results.Keys) == Stuck(plan, {})
  }

  lemma UnderwayAtStart<R>(run: (Step, Results<R>) -> R, plan: seq<Step>, results: Results<R>)
    requires results == map[]
    ensures Underway(run, plan, results, []) && results.Keys == {}
  {
    hide Final, Rounds, Stuck, Flat;
    assert results.Keys == {};
  }

  lemma FinalStep<R>(run: (Step, Results<R>) -> R, plan: seq<Step>, results: Results<R>)
    requires Ready(plan, results.Keys) != []
    ensures var after := RunRound(run, Ready(plan, results.Keys), results, results);
      Final(run, plan, results) == Final(run, plan, after)
  {
    hide RunRound, Ready, Remaining;
  }

  lemma ScheduleStep(plan: seq<Step>, done: set<string>)
    requires Ready(plan, done) != []
    ensures var ready, more := Ready(plan, done), done + Ids(Ready(plan, done));
      Flat(Rounds(plan, done)) == ready + Flat(Rounds(plan, more)) && Stuck(plan, done) == Stuck(plan, more)
  {
    hide Ready, Remaining, Ids, Flat;
    FlatSteps(Ready(plan, done), Rounds(plan, done + Ids(Ready(plan, done))));
  }

  lemma UnderwayRound<R>(run: (Step, Results<R>) -> R, plan: seq<Step>, results: Results<R>, started: seq<Step>)
    requires Underway(run, plan, results, started) && Ready(plan, results.Keys) != []
    ensures var ready := Ready(plan, results.Keys);
      var after := RunRound(run, ready, results, results);
      && Underway(run, plan, after, started + ready) && after.Keys == results.Keys + Ids(ready)
      && |Remaining(plan, results.Keys + Ids(ready))| < |Remaining(plan, results.Keys)|
  {
    hide RunRound, Ready, Remaining, Ids, Flat, Final, Rounds, Stuck;
    var ready := Ready(plan, results.Keys);
    RoundKeys(run, ready, results, results);
    RoundShortens(plan, results.Keys);
    FinalStep(run, plan, results);
    ScheduleStep(plan, results.Keys);
    var more := results.Keys + Ids(ready);
    var later, tail := Flat(Rounds(plan, more)), Stuck(plan, more);
    assert started + ((ready + later) + tail) == (started + ready) + (later + tail);
  }

  lemma UnderwayStuck<R>(run: (Step, Results<R>) -> R, plan: seq<Step>, results: Results<R>, started: seq<Step>)
    requires Underway(run, plan, results, started) && Ready(plan, results.Keys) == []
    ensures var rest := Pending(plan, results.Keys);
      && RunInTurn(run, rest, results) == Final(run, plan, map[])
      && started + rest == Flat(Rounds(plan, {})) + Stuck(plan, {}) && Stuck(plan, {}) == rest
  {
    hide RunInTurn, Remaining, Pending, Ready, Flat;
    NothingReady(plan, results.Keys);
  }

  lemma UnderwayDone<R>(run: (Step, Results<R>) -> R, plan: seq<Step>, results: Results<R>, started: seq<Step>)
    requires Underway(run, plan, results, started) && IdsOf(Pending(plan, results.Keys)) == []
    ensures results == Final(run, plan, map[])
    ensures started == Flat(Rounds(plan, {})) + Stuck(plan, {}) && Stuck(plan, {}) == []
  {
    hide Remaining, Pending, Ready, Flat, Final, Rounds, Stuck;
    AllDone(run, plan, results);
    assert started + ([] + []) == started;
  }

  lemma InIds(plan: seq<Step>, k: nat)
    requires k < |plan|
    ensures plan[k].id in Ids(plan)
  {
  }

  function IdsOf(steps: seq<Step>): (ids: seq<string>)
    ensures |ids| == |steps| && forall i :: 0 <= i < |ids| ==> ids[i] == steps[i].id
  {
    seq(|steps|, i requires 0 <= i < |steps| => steps[i].id)
  }

  /** new Set(plan.steps.map(...)): the ids in the order they first occur. */
  method DistinctIds(plan: seq<Step>) returns (ids: seq<string>)
    ensures ids == IdsOf(Pending(plan, {}))
  {
    hide Pending;
    ids := [];
    ghost var done: set<string> := {};
    assert plan[0..] == plan;
    for i := 0 to |plan|
      invariant ids + IdsOf(Pending(plan[i..], done)) == IdsOf(Pending(plan, {}))
      invariant forall id :: id in ids <==> id in done
    {
      PendingStep(plan, i, done);
      if plan[i].id !in ids {
        ids := ids + [plan[i].id];
        done := done + {plan[i].id};
      }
    }
    NonePending(plan[|plan|..], done);
  }

  lemma PendingStep(plan: seq<Step>, i: nat, done: set<string>)
    requires i < |plan|
    ensures IdsOf(Pending(plan[i..], done)) ==
      if plan[i].id in done then IdsOf(Pending(plan[i + 1..], done))
      else [plan[i].id] + IdsOf(Pending(plan[i + 1..], done + {plan[i].id}))
  {
    assert plan[i..][0] == plan[i] && plan[i..][1..] == plan[i + 1..];
    var rest := Pending(plan[i + 1..], done + {plan[i].id});
    assert IdsOf([plan[i]] + rest) == [plan[i].id] + IdsOf(rest);
  }

  lemma NonePending(plan: seq<Step>, done: set<string>)
    requires plan == []
    ensures Pending(plan, done) == []
  {
  }

  /** What is left of the pending ids when the ids of a round are deleted. */
  function Deleted(ids: seq<string>, round: seq<Step>): seq<string> {
    Without(ids, Ids(round))
  }

  function Without(ids: seq<string>, gone: set<string>): seq<string> {
    if ids == [] then [] else (if ids[0] in gone then [] else [ids[0]]) + Without(ids[1..], gone)
  }

  lemma WithoutFirst(id: string, ids: seq<string>, gone: set<string>)
    ensures Without([id] + ids, gone) == (if id in gone then [] else [id]) + Without(ids, gone)
  {
    assert ([id] + ids)[1..] == ids;
  }

  lemma {:induction false} PendingLater(plan: seq<Step>, done: set<string>, more: set<string>)
    ensures Without(IdsOf(Pending(plan, done)), more) == IdsOf(Pending(plan, done + more))
  {
    hide *;
    if plan == [] {
      NonePending(plan, done);
      NonePending(plan, done + more);
      NoIds();
    } else {
      var id, rest := plan[0].id, plan[1..];
      PendingFirst(plan, done);
      PendingFirst(plan, done + more);
      if id in done {
        PendingLater(rest, done, more);
      } else {
        PendingLater(rest, done + {id}, more);
        WithoutFirst(id, IdsOf(Pending(rest, done + {id})), more);
        DoneInEitherOrder(done, more, id);
      }
    }
  }

  lemma PendingFirst(plan: seq<Step>, done: set<string>)
    requires plan != []
    ensures IdsOf(Pending(plan, done)) ==
      if plan[0].id in done then IdsOf(Pending(plan[1..], done))
      else [plan[0].id] + IdsOf(Pending(plan[1..], done + {plan[0].id}))
  {
    hide IdsOf, Pending;
    assert plan[0..] == plan;
    PendingStep(plan, 0, done);
  }

  lemma DoneInEitherOrder(done: set<string>, more: set<string>, id: string)
    ensures (done + {id}) + more == (done + more) + {id}
    ensures id in more ==> (done + {id}) + more == done + more
  {
  }

  lemma NoIds()
    ensures IdsOf([]) == [] && forall gone :: Without([], gone) == []
  {
  }

  /** plan.steps.filter */
  method FindReady<R>(plan: seq<Step>, pending: seq<string>, results: Results<R>) returns (ready: seq<Step>)
    requires pending == IdsOf(Pending(plan, results.Keys))
    ensures ready == Ready(plan, results.Keys)
  {
    hide IsReady, Ready, Pending;
    ready := [];
    assert plan[0..] == plan;
    for i := 0 to |plan|
      invariant ready + Ready(plan[i..], results.Keys) == Ready(plan, results.Keys)
    {
      ReadyStep(plan, i, results.Keys);
      PendingIsNotDone(plan, results.Keys, plan[i]);
      if plan[i].id in pending && IsReady(plan[i], results.Keys) { ready := ready + [plan[i]]; }
    }
    NoSteps(plan[|plan|..], results.Keys);
  }

  lemma ReadyStep(plan: seq<Step>, i: nat, done: set<string>)
    requires i < |plan|
    ensures Ready(plan[i..], done) ==
      (if plan[i].id !in done && IsReady(plan[i], done) then [plan[i]] else []) + Ready(plan[i + 1..], done)
  {
    hide IsReady;
    assert plan[i..][0] == plan[i] && plan[i..][1..] == plan[i + 1..];
  }

  lemma NoSteps(plan: seq<Step>, done: set<string>)
    requires plan == []
    ensures Ready(plan, done) == []
  {
  }

  lemma PendingIsNotDone(plan: seq<Step>, done: set<string>, s: Step)
    requires s in plan
    ensures s.id in IdsOf(Pending(plan, done)) <==> s.id !in done
  {
    hide Pending;
    var r := Pending(plan, done);
    if s.id !in done {
      var k := PendingHas(plan, done, s);
      assert IdsOf(r)[k] == s.id;
    }
    if s.id in IdsOf(r) {
      var i :| 0 <= i < |r| && IdsOf(r)[i] == s.id;
      assert r[i] in r;
    }
  }

  /** Promise.all over a round, then the results are stored. */
  method RunBatch<R>(run: (Step, Results<R>) -> R, ready: seq<Step>, before: Results<R>) returns (results: Results<R>)
    ensures results == RunRound(run, ready, before, before)
  {
    hide RunRound;
    results := before;
    assert ready[0..] == ready;
    for i := 0 to |ready|
      invariant RunRound(run, ready[i..], before, results) == RunRound(run, ready, before, before)
    {
      RoundStep(run, ready, i, before, results);
      results := results[ready[i].id := run(ready[i], before)];
    }
    NothingRun(run, ready[|ready|..], before, results);
  }

  lemma RoundStep<R>(run: (Step, Results<R>) -> R, steps: seq<Step>, i: nat, before: Results<R>, results: Results<R>)
    requires i < |steps|
    ensures RunRound(run, steps[i..], before, results)
      == RunRound(run, steps[i + 1..], before, results[steps[i].id := run(steps[i], before)])
    ensures RunInTurn(run, steps[i..], results)
      == RunInTurn(run, steps[i + 1..], results[steps[i].id := run(steps[i], results)])
  {
    assert steps[i..][0] == steps[i] && steps[i..][1..] == steps[i + 1..];
  }

  lemma NothingRun<R>(run: (Step, Results<R>) -> R, steps: seq<Step>, before: Results<R>, results: Results<R>)
    requires steps == []
    ensures RunRound(run, steps, before, results) == results && RunInTurn(run, steps, results) == results
  {
  }

  /** The step with an id, as plan.steps.find finds it. */
  function StepWith(plan: seq<Step>, id: string): Option<Step> {
    if plan == [] then None else if plan[0].id == id then Some(plan[0]) else StepWith(plan[1..], id)
  }

  lemma {:induction false} StepIsFound(plan: seq<Step>, done: set<string>, s: Step)
    requires s in Pending(plan, done)
    ensures StepWith(plan, s.id) == Some(s)
  {
    if plan[0].id in done {
      StepIsFound(plan[1..], done, s);
    } else if s != plan[0] {
      assert s in Pending(plan[1..], done + {plan[0].id});
      StepIsFound(plan[1..], done + {plan[0].id}, s);
    }
  }

  /** The loop over the pending ids. */
  method RunPending<R>(run: (Step, Results<R>) -> R, plan: seq<Step>, pending: seq<string>, before: Results<R>)
    returns (results: Results<R>)
    requires pending == IdsOf(Pending(plan, before.Keys))
    ensures results == RunInTurn(run, Pending(plan, before.Keys), before)
  {
    hide StepWith, RunInTurn, Pending;
    ghost var steps := Pending(plan, before.Keys);
    results := before;
    assert steps[0..] == steps;
    for i := 0 to |pending|
      invariant RunInTurn(run, steps[i..], results) == RunInTurn(run, steps, before)
    {
      assert steps[i] in steps;
      StepIsFound(plan, before.Keys, steps[i]);
      RoundStep(run, steps, i, before, results);
      var step := StepWith(plan, pending[i]).value;
      results := results[step.id := run(step, results)];
    }
    NothingRun(run, steps[|pending|..], before, results);
  }

  lemma FlatSteps(a: seq<Step>, rounds: seq<seq<Step>>)
    ensures Flat([a] + rounds) == a + Flat(rounds) && Flat([]) == []
  {
    assert ([a] + rounds)[1..] == rounds;
  }

  lemma NothingReady(plan: seq<Step>, done: set<string>)
    requires Ready(plan, done) == []
    ensures Flat(Rounds(plan, done)) + Stuck(plan, done) == Pending(plan, done) == Stuck(plan, done)
  {
    hide Remaining, Pending, Ready;
    FlatSteps([], []);
  }

  lemma NotNone(steps: seq<Step>)
    ensures IdsOf(steps) != [] <==> steps != []
  {
  }

  lemma AllDone<R>(run: (Step, Results<R>) -> R, plan: seq<Step>, results: Results<R>)
    requires IdsOf(Pending(plan, results.Keys)) == []
    ensures Final(run, plan, results) == results
    ensures Flat(Rounds(plan, results.Keys)) == [] && Stuck(plan, results.Keys) == []
  {
    NotNone(Pending(plan, results.Keys));
    NoneReady(plan, results.Keys);
    FlatSteps([], []);
    hide Remaining, Pending, Ready;
  }

  lemma NoneReady(plan: seq<Step>, done: set<string>)
    ensures |Ready(plan, done)| > 0 ==> |Pending(plan, done)| > 0
  {
    hide Pending;
    if |Ready(plan, done)| > 0 {
      assert Ready(plan, done)[0] in Ready(plan, done);
      var k := PendingHas(plan, done, Ready(plan, done)[0]);
    }
  }

  lemma {:induction false} InTurnKeys<R>(run: (Step, Results<R>) -> R, steps: seq<Step>, results: Results<R>)
    ensures RunInTurn(run, steps, results).Keys == results.Keys + Ids(steps)
  {
    if steps != [] {
      InTurnKeys(run, steps[1..], results[steps[0].id := run(steps[0], results)]);
      assert forall s :: s in steps <==> s == steps[0] || s in steps[1..];
      assert Ids(steps) == {steps[0].id} + Ids(steps[1..]);
    }
  }

  lemma PendingIds(plan: seq<Step>, done: set<string>)
    ensures done + Ids(Pending(plan, done)) == done + Ids(plan)
  {
    hide Pending;
    var r := Pending(plan, done);
    forall id | id in Ids(plan) && id !in done ensures id in Ids(r) {
      var s :| s in plan && s.id == id;
      var k := PendingHas(plan, done, s);
      assert r[k] in r;
    }
  }

  /** Every step of the plan has a result in the end. */
  lemma {:induction false} FinalKeys<R>(run: (Step, Results<R>) -> R, plan: seq<Step>, results: Results<R>)
    ensures Final(run, plan, results).Keys == results.Keys + Ids(plan)
    decreases |Remaining(plan, results.Keys)|
  {
    var ready := Ready(plan, results.Keys);
    if ready == [] {
      var rest := Pending(plan, results.Keys);
      InTurnKeys(run, rest, results);
      PendingIds(plan, results.Keys);
    } else {
      RoundKeys(run, ready, results, results);
      RoundShortens(plan, results.Keys);
      FinalKeys(run, plan, RunRound(run, ready, results, results));
      assert Ids(ready) <= Ids(plan);
    }
  }

  // ---- Every step runs once ----------------------------------------------------------------------

  lemma MultisetOfFirst(s: Step, rest: seq<Step>)
    ensures multiset([s] + rest) == multiset{s} + multiset(rest) && [] + rest == rest
  {
  }

  /** Splitting any part of the plan by what is ready; a step whose id is done by another is passed over. */
  lemma {:induction false} RemainingSplit(plan: seq<Step>, part: seq<Step>, done: set<string>)
    requires forall s :: s in part ==> s in plan
    ensures multiset(Ready(part, done))
      + multiset(Remaining(part, done + Ids(Ready(plan, done)))) <= multiset(Remaining(part, done))
    ensures UniqueIds(plan) ==>
      multiset(Remaining(part, done))
        == multiset(Ready(part, done)) + multiset(Remaining(part, done + Ids(Ready(plan, done))))
  {
    hide IsReady, UniqueIds, Ids;
    if part != [] {
      var s, rest, more := part[0], part[1..], done + Ids(Ready(plan, done));
      RemainingSplit(plan, rest, done);
      ReadyHasId(plan, done, s);
      if UniqueIds(plan) { ReadyById(plan, done, s); }
      MultisetOfFirst(s, Remaining(rest, done));
      MultisetOfFirst(s, Ready(rest, done));
      MultisetOfFirst(s, Remaining(rest, more));
    }
  }

  lemma ReadyHasId(plan: seq<Step>, done: set<string>, s: Step)
    requires s in plan
    ensures s.id !in done && IsReady(s, done) ==> s.id in Ids(Ready(plan, done))
  {
    hide IsReady;
    if s.id !in done && IsReady(s, done) { assert s in Ready(plan, done); }
  }

  /** Every remaining step is pending when no id is repeated, and no step is pending twice. */
  lemma {:induction false} PendingOfRemaining(plan: seq<Step>, done: set<string>)
    ensures multiset(Pending(plan, done)) <= multiset(Remaining(plan, done))
    ensures UniqueIds(plan) ==> Pending(plan, done) == Remaining(plan, done)
  {
    if plan != [] {
      var s, rest := plan[0], plan[1..];
      if s.id in done {
        PendingOfRemaining(rest, done);
      } else {
        PendingOfRemaining(rest, done + {s.id});
        MoreDone(rest, done, s.id);
        MultisetOfFirst(s, Pending(rest, done + {s.id}));
        MultisetOfFirst(s, Remaining(rest, done));
      }
    }
  }

  lemma RemainingStep(plan: seq<Step>, done: set<string>)
    requires plan != []
    ensures var rest := Remaining(plan[1..], done);
      Remaining(plan, done) == if plan[0].id in done then rest else [plan[0]] + rest
  {
  }

  lemma {:induction false} MoreDone(plan: seq<Step>, done: set<string>, id: string)
    ensures multiset(Remaining(plan, done + {id})) <= multiset(Remaining(plan, done))
    ensures (forall s :: s in plan ==> s.id != id) ==> Remaining(plan, done + {id}) == Remaining(plan, done)
  {
    if plan != [] {
      RemainingStep(plan, done);
      RemainingStep(plan, done + {id});
      MoreDone(plan[1..], done, id);
      hide Remaining;
      MultisetOfFirst(plan[0], Remaining(plan[1..], done));
      MultisetOfFirst(plan[0], Remaining(plan[1..], done + {id}));
      assert plan[0] in plan;
    }
  }

  lemma ReadyById(plan: seq<Step>, done: set<string>, s: Step)
    requires UniqueIds(plan) && s in plan
    ensures s.id in Ids(Ready(plan, done)) <==> s.id !in done && IsReady(s, done)
  {
    hide IsReady;
    if s.id in Ids(Ready(plan, done)) {
      var t :| t in Ready(plan, done) && t.id == s.id;
      SameStep(plan, s, t);
    }
    if s.id !in done && IsReady(s, done) { assert s in Ready(plan, done); }
  }

  lemma SameStep(plan: seq<Step>, s: Step, t: Step)
    requires UniqueIds(plan) && s in plan && t in plan && s.id == t.id
    ensures s == t
  {
  }

  lemma {:induction false} ScheduleFrom(plan: seq<Step>, done: set<string>)
    ensures multiset(Flat(Rounds(plan, done)) + Stuck(plan, done)) <= multiset(Remaining(plan, done))
    ensures UniqueIds(plan) ==>
      multiset(Flat(Rounds(plan, done)) + Stuck(plan, done)) == multiset(Remaining(plan, done))
    decreases |Remaining(plan, done)|
  {
    hide Remaining, Pending, Ready, Flat, UniqueIds, Ids;
    var ready := Ready(plan, done);
    if ready == [] {
      NothingReady(plan, done);
      PendingOfRemaining(plan, done);
    } else {
      RoundShortens(plan, done);
      var more := done + Ids(ready);
      ScheduleFrom(plan, more);
      FlatSteps(ready, Rounds(plan, more));
      RemainingSplit(plan, plan, done);
      assert (ready + Flat(Rounds(plan, more))) + Stuck(plan, more)
        == ready + (Flat(Rounds(plan, more)) + Stuck(plan, more));
    }
  }

  lemma {:induction false} AllRemain(plan: seq<Step>)
    ensures Remaining(plan, {}) == plan
  {
    if plan != [] {
      AllRemain(plan[1..]);
      assert plan == [plan[0]] + plan[1..];
    }
  }

  /** Every step is started at most once, in a round or by the fallback, and exactly once when no id is repeated. */
  lemma EveryStepRunsOnce(plan: seq<Step>)
    ensures multiset(Flat(Rounds(plan, {})) + Stuck(plan, {})) <= multiset(plan)
    ensures UniqueIds(plan) ==> multiset(Flat(Rounds(plan, {})) + Stuck(plan, {})) == multiset(plan)
  {
    hide Rounds, Stuck, Remaining;
    ScheduleFrom(plan, {});
    AllRemain(plan);
  }

  // ---- Dependencies ---------------------------------------------------------------------------------

  /** Every step of a round has its dependencies in earlier rounds. */
  ghost predicate InOrder(rounds: seq<seq<Step>>, done: set<string>)
    decreases |rounds|
  {
    rounds == [] || ((forall s :: s in rounds[0] ==> IsReady(s, done)) && InOrder(rounds[1..], done + Ids(rounds[0])))
  }

  lemma {:induction false} RoundsAreInOrder(plan: seq<Step>, done: set<string>)
    ensures InOrder(Rounds(plan, done), done)
    decreases |Remaining(plan, done)|
  {
    hide IsReady, Ids;
    var ready := Ready(plan, done);
    if ready != [] {
      RoundShortens(plan, done);
      RoundsAreInOrder(plan, done + Ids(ready));
      assert Rounds(plan, done)[1..] == Rounds(plan, done + Ids(ready));
    }
  }

  /** The step's result was computed from results that include those of all its dependencies. */
  ghost predicate SawDependencies<R(!new)>(run: (Step, Results<R>) -> R, final: Results<R>, s: Step) {
    s.id in final && exists known: Results<R> ::
      && final[s.id] == run(s, known) && IsReady(s, known.Keys)
      && forall id :: id in known ==> id in final && final[id] == known[id]
  }

  /** What a step of a round is given: the results of every step it depends on. */
  lemma {:induction false} StartsAfterDependencies<R(!new)>(run: (Step, Results<R>) -> R, plan: seq<Step>,
                                                     results: Results<R>, s: Step)
    requires UniqueIds(plan) && s in plan && s.id !in results && s !in Stuck(plan, results.Keys)
    ensures SawDependencies(run, Final(run, plan, results), s)
    decreases |Remaining(plan, results.Keys)|
  {
    hide IsReady, RunRound, RunInTurn, UniqueIds;
    var ready := Ready(plan, results.Keys);
    if ready != [] {
      var after := RunRound(run, ready, results, results);
      RoundKeys(run, ready, results, results);
      RoundShortens(plan, results.Keys);
      if s in ready {
        RoundGives(run, plan, results, s);
        FinalKeeps(run, plan, results);
        FinalKeeps(run, plan, after);
      } else {
        ReadyById(plan, results.Keys, s);
        StartsAfterDependencies(run, plan, after, s);
      }
    } else {
      PendingOfRemaining(plan, results.Keys);
    }
  }

  lemma RoundGives<R>(run: (Step, Results<R>) -> R, plan: seq<Step>, results: Results<R>, s: Step)
    requires UniqueIds(plan) && s in Ready(plan, results.Keys)
    ensures var after := RunRound(run, Ready(plan, results.Keys), results, results);
      s.id in after && after[s.id] == run(s, results)
  {
    hide IsReady;
    ReadyIsUnique(plan, results.Keys);
    RoundValue(run, Ready(plan, results.Keys), results, results, s);
  }

  lemma {:induction false} ReadyIsUnique(plan: seq<Step>, done: set<string>)
    requires UniqueIds(plan)
    ensures UniqueIds(Ready(plan, done))
  {
    hide IsReady;
    if plan != [] {
      ReadyIsUnique(plan[1..], done);
      var rest := Ready(plan[1..], done);
      forall j | 0 <= j < |rest| ensures rest[j].id != plan[0].id {
        assert rest[j] in rest && rest[j] in plan[1..];
        var i :| 0 <= i < |plan[1..]| && plan[1..][i] == rest[j];
        assert plan[i + 1] == rest[j];
      }
    }
  }

  lemma {:induction false} RoundValue<R>(run: (Step, Results<R>) -> R, steps: seq<Step>, before: Results<R>,
                                         results: Results<R>, s: Step)
    requires UniqueIds(steps) && s in steps
    ensures var after := RunRound(run, steps, before, results); s.id in after && after[s.id] == run(s, before)
  {
    var next := results[steps[0].id := run(steps[0], before)];
    if s == steps[0] {
      RoundKeeps(run, steps[1..], before, next, s.id);
    } else {
      assert s in steps[1..];
      RoundValue(run, steps[1..], before, next, s);
    }
  }

  /** A result that is there stays, unless a step of that id runs again. */
  lemma {:induction false} RoundKeeps<R>(run: (Step, Results<R>) -> R, steps: seq<Step>, before: Results<R>,
                                         results: Results<R>, id: string)
    requires id in results && forall i :: 0 <= i < |steps| ==> steps[i].id != id
    ensures id in RunRound(run, steps, before, results) && RunRound(run, steps, before, results)[id] == results[id]
  {
    if steps != [] {
      assert steps[0].id != id;
      RoundKeeps(run, steps[1..], before, results[steps[0].id := run(steps[0], before)], id);
    }
  }

  lemma {:induction false} InTurnKeeps<R>(run: (Step, Results<R>) -> R, steps: seq<Step>, results: Results<R>,
                                          id: string)
    requires id in results && forall i :: 0 <= i < |steps| ==> steps[i].id != id
    ensures id in RunInTurn(run, steps, results) && RunInTurn(run, steps, results)[id] == results[id]
  {
    if steps != [] {
      assert steps[0].id != id;
      InTurnKeeps(run, steps[1..], results[steps[0].id := run(steps[0], results)], id);
    }
  }

  lemma {:induction false} FinalKeeps<R>(run: (Step, Results<R>) -> R, plan: seq<Step>, results: Results<R>)
    ensures forall id :: id in results ==>
      id in Final(run, plan, results) && Final(run, plan, results)[id] == results[id]
    decreases |Remaining(plan, results.Keys)|
  {
    hide IsReady, RunRound, RunInTurn;
    var ready := Ready(plan, results.Keys);
    if ready == [] {
      var rest := Pending(plan, results.Keys);
      forall id | id in results ensures id in Final(run, plan, results)
        && Final(run, plan, results)[id] == results[id] {
        forall i | 0 <= i < |rest| ensures rest[i].id != id { assert rest[i] in rest; }
        InTurnKeeps(run, rest, results, id);
      }
    } else {
      var after := RunRound(run, ready, results, results);
      RoundKeys(run, ready, results, results);
      RoundShortens(plan, results.Keys);
      FinalKeeps(run, plan, after);
      forall id | id in results ensures id in after && after[id] == results[id] {
        forall i | 0 <= i < |ready| ensures ready[i].id != id { assert ready[i] in ready; }
        RoundKeeps(run, ready, results, results, id);
      }
    }
  }

  // ---- When the fallback is taken -----------------------------------------------------------------

  predicate Closed(plan: seq<Step>) {
    forall s, i :: s in plan && 0 <= i < |s.dependsOn| ==> s.dependsOn[i] in Ids(plan)
  }

  predicate DependsOn(s: Step, t: Step) { t.id in s.dependsOn }

  /** A walk from each step to one it depends on. */
  ghost predicate IsWalk(plan: seq<Step>, walk: seq<Step>) {
    && (forall i :: 0 <= i < |walk| ==> walk[i] in plan)
    && forall i :: 0 <= i < |walk| - 1 ==> DependsOn(walk[i], walk[i + 1])
  }

  ghost predicate IsCycle(plan: seq<Step>, walk: seq<Step>) {
    IsWalk(plan, walk) && |walk| >= 2 && walk[0] == walk[|walk| - 1]
  }

  ghost predicate Acyclic(plan: seq<Step>) { forall walk :: !IsCycle(plan, walk) }

  /** When nothing is ready, every remaining step waits for another remaining step. */
  lemma Waits(plan: seq<Step>, done: set<string>, s: Step) returns (t: Step)
    requires Closed(plan) && Ready(plan, done) == [] && s in Remaining(plan, done)
    ensures t in Remaining(plan, done) && DependsOn(s, t)
  {
    assert s !in Ready(plan, done);
    var i :| 0 <= i < |s.dependsOn| && s.dependsOn[i] !in done;
    assert s.dependsOn[i] in Ids(plan);
    t :| t in plan && t.id == s.dependsOn[i];
  }

  lemma WalkExtended(plan: seq<Step>, walk: seq<Step>, t: Step)
    requires IsWalk(plan, walk) && t in plan && (walk != [] ==> DependsOn(walk[|walk| - 1], t))
    ensures IsWalk(plan, walk + [t])
  {
    hide DependsOn;
  }

  lemma {:induction false} LongWalk(plan: seq<Step>, done: set<string>, n: nat) returns (walk: seq<Step>)
    requires Closed(plan) && Ready(plan, done) == [] && Remaining(plan, done) != []
    ensures |walk| == n + 1 && IsWalk(plan, walk) && forall i :: 0 <= i < |walk| ==> walk[i] in Remaining(plan, done)
  {
    hide Closed, DependsOn, IsWalk, Ready;
    if n == 0 {
      var s := Remaining(plan, done)[0];
      NoWalk(plan);
      WalkExtended(plan, [], s);
      walk := [] + [s];
    } else {
      var w := LongWalk(plan, done, n - 1);
      var t := Waits(plan, done, w[n - 1]);
      WalkExtended(plan, w, t);
      walk := w + [t];
    }
  }

  lemma NoWalk(plan: seq<Step>)
    ensures IsWalk(plan, [])
  {
  }

  /** A list longer than its set of elements has an element twice. */
  lemma {:induction false} Repeats<T>(l: seq<T>, within: set<T>) returns (i: nat, j: nat)
    requires |l| > |within| && forall k :: 0 <= k < |l| ==> l[k] in within
    ensures i < j < |l| && l[i] == l[j]
    decreases |l|
  {
    var init, last := l[..|l| - 1], l[|l| - 1];
    if k :| 0 <= k < |init| && init[k] == last {
      i, j := k, |l| - 1;
    } else {
      assert last in within;
      i, j := Repeats(init, within - {last});
    }
  }

  lemma CycleIn(plan: seq<Step>, walk: seq<Step>, i: nat, j: nat)
    requires IsWalk(plan, walk) && i < j < |walk| && walk[i] == walk[j]
    ensures IsCycle(plan, walk[i..j + 1])
  {
    hide DependsOn;
    var w := walk[i..j + 1];
    forall k | 0 <= k < |w| - 1 ensures DependsOn(w[k], w[k + 1]) {
      assert w[k] == walk[i + k] && w[k + 1] == walk[i + k + 1];
    }
  }

  /** A stuck remainder of a closed plan has a cycle in it. */
  lemma StuckHasCycle(plan: seq<Step>, done: set<string>)
    requires Closed(plan) && Ready(plan, done) == [] && Remaining(plan, done) != []
    ensures !Acyclic(plan)
  {
    hide Closed, IsWalk;
    var members := set s | s in plan;
    var walk := LongWalk(plan, done, |members|);
    forall k | 0 <= k < |walk| ensures walk[k] in members { assert walk[k] in Remaining(plan, done); }
    var i, j := Repeats(walk, members);
    CycleIn(plan, walk, i, j);
  }

  lemma {:induction false} AcyclicIsNotStuck(plan: seq<Step>, done: set<string>)
    requires Closed(plan) && Acyclic(plan)
    ensures Stuck(plan, done) == []
    decreases |Remaining(plan, done)|
  {
    hide Closed, Acyclic, Remaining, Pending, Ready;
    var ready := Ready(plan, done);
    if ready == [] {
      PendingOfRemaining(plan, done);
      if Remaining(plan, done) != [] { StuckHasCycle(plan, done); }
    } else {
      RoundShortens(plan, done);
      AcyclicIsNotStuck(plan, done + Ids(ready));
    }
  }

  /** A set of steps that wait for each other, or for something outside the plan, is never run in a round. */
  ghost predicate Waiting(plan: seq<Step>, group: set<string>, done: set<string>) {
    && group * done == {}
    && forall s :: s in plan && s.id in group ==>
      exists i :: 0 <= i < |s.dependsOn| && (s.dependsOn[i] in group || s.dependsOn[i] !in Ids(plan))
  }

  lemma WaitingIsNotReady(plan: seq<Step>, group: set<string>, done: set<string>, s: Step)
    requires Waiting(plan, group, done) && s in plan && s.id in group && done <= Ids(plan)
    ensures !IsReady(s, done)
  {
    var i :| 0 <= i < |s.dependsOn| && (s.dependsOn[i] in group || s.dependsOn[i] !in Ids(plan));
    assert s.dependsOn[i] !in group * done;
  }

  lemma StillWaiting(plan: seq<Step>, group: set<string>, done: set<string>)
    requires Waiting(plan, group, done) && done <= Ids(plan)
    ensures Waiting(plan, group, done + Ids(Ready(plan, done))) && done + Ids(Ready(plan, done)) <= Ids(plan)
  {
    hide IsReady;
    var ready := Ready(plan, done);
    forall t | t in ready ensures t.id !in group && t in plan {
      if t.id in group { WaitingIsNotReady(plan, group, done, t); }
    }
  }

  lemma {:induction false} WaitingIsStuck(plan: seq<Step>, done: set<string>, group: set<string>, s: Step)
    requires UniqueIds(plan) && Waiting(plan, group, done) && s in plan && s.id in group && done <= Ids(plan)
    ensures s in Stuck(plan, done)
    decreases |Remaining(plan, done)|
  {
    hide Ready, Ids, UniqueIds, Pending;
    var ready := Ready(plan, done);
    if ready == [] {
      PendingOfRemaining(plan, done);
      NotDone(plan, group, done, s);
    } else {
      RoundShortens(plan, done);
      StillWaiting(plan, group, done);
      hide Waiting;
      WaitingIsStuck(plan, done + Ids(ready), group, s);
    }
  }

  lemma NotDone(plan: seq<Step>, group: set<string>, done: set<string>, s: Step)
    requires Waiting(plan, group, done) && s in plan && s.id in group
    ensures s in Remaining(plan, done)
  {
    assert s.id !in group * done;
  }

  lemma CycleIsStuck(plan: seq<Step>, walk: seq<Step>)
    requires UniqueIds(plan) && IsCycle(plan, walk)
    ensures walk[0] in Stuck(plan, {})
  {
    var group := set i | 0 <= i < |walk| :: walk[i].id;
    forall s | s in plan && s.id in group
      ensures exists i :: 0 <= i < |s.dependsOn| && (s.dependsOn[i] in group || s.dependsOn[i] !in Ids(plan))
    {
      var k :| 0 <= k < |walk| && walk[k].id == s.id;
      SameStep(plan, s, walk[k]);
      var m := if k == |walk| - 1 then 0 else k;
      assert walk[m] == s && DependsOn(walk[m], walk[m + 1]) && walk[m + 1].id in group;
    }
    WaitingIsStuck(plan, {}, group, walk[0]);
  }

  lemma OpenIsStuck(plan: seq<Step>, s: Step, i: nat)
    requires UniqueIds(plan) && s in plan && i < |s.dependsOn| && s.dependsOn[i] !in Ids(plan)
    ensures s in Stuck(plan, {})
  {
    forall t | t in plan && t.id in {s.id}
      ensures exists k :: 0 <= k < |t.dependsOn| && (t.dependsOn[k] in {s.id} || t.dependsOn[k] !in Ids(plan))
    {
      SameStep(plan, s, t);
    }
    WaitingIsStuck(plan, {}, {s.id}, s);
  }

  /** The fallback is taken exactly when the graph has a cycle or a dependency outside the plan. */
  lemma FallbackExactly(plan: seq<Step>)
    requires UniqueIds(plan)
    ensures Stuck(plan, {}) == [] <==> Closed(plan) && Acyclic(plan)
  {
    hide Stuck, UniqueIds, IsCycle;
    if Closed(plan) && Acyclic(plan) {
      AcyclicIsNotStuck(plan, {});
    } else if !Closed(plan) {
      var s, i :| s in plan && 0 <= i < |s.dependsOn| && s.dependsOn[i] !in Ids(plan);
      OpenIsStuck(plan, s, i);
    } else {
      var walk :| IsCycle(plan, walk);
      CycleIsStuck(plan, walk);
    }
  }
}
