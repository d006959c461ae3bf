/**
 * The telemetry aggregator (packages/gateway/src/debug-telemetry.ts): events of many requests
 * merged into one record per trace, in a buffer that drops its oldest record when full. Clock
 * readings are parameters; events carry an opaque payload.
 */
module Telemetry {
  import opened Prelude

  datatype Event =
    | Routing(data: nat)
    | Sandbox(executionId: string, isFinal: bool, data: nat)
    | Adapter(executionId: string, data: nat)
    | Terminal(completed: bool, data: nat)

  datatype Status = Pending | Complete | Failed

  datatype Run = Run(executionId: string, isFinal: bool, sandbox: Option<Event>, adapter: Option<Event>)

  datatype Record = Record(
    runId: string, status: Status, completedAt: Option<int>, receivedAt: int, apiKeyId: Option<string>,
    queryHash: Option<string>, query: Option<string>, routing: Option<Event>, terminal: Option<Event>, runs: seq<Run>)

  // ---- One record ------------------------------------------------------------------------

  function Fresh(runId: string, receivedAt: int, apiKeyId: Option<string>): Record {
    Record(runId, Pending, None, receivedAt, apiKeyId, None, None, None, None, [])
  }

  /** The run of an execution. */
  function Recorded(runs: seq<Run>, id: string): (r: Option<Run>)
    ensures r.Some? ==> r.value.executionId == id && r.value in runs
  {
    if runs == [] then None else if runs[0].executionId == id then Some(runs[0]) else Recorded(runs[1..], id)
  }

  /** upsertRun and the write to its result: the run of the same execution is replaced, or this one added. */
  function Written(runs: seq<Run>, run: Run): seq<Run> {
    if runs == [] then [run]
    else if runs[0].executionId == run.executionId then [run] + runs[1..]
    else [runs[0]] + Written(runs[1..], run)
  }

  predicate AllFinal(runs: seq<Run>) { forall k :: 0 <= k < |runs| ==> runs[k].isFinal }

  function Target(terminal: Event): Status
    requires terminal.Terminal?
  {
    if terminal.completed then Complete else Failed
  }

  /** maybeTransition */
  function Transitioned(rec: Record, target: Status, now: int): Record {
    if rec.status == Pending && AllFinal(rec.runs) then rec.(status := target, completedAt := Some(now)) else rec
  }

  function WithRun(rec: Record, run: Run): Record { rec.(runs := Written(rec.runs, run)) }

  function RunOf(runs: seq<Run>, id: string): Run {
    var r := Recorded(runs, id);
    if r.Some? then r.value else Run(id, false, None, None)
  }

  /** The switch on the kind of event. */
  function Merged(rec: Record, e: Event, now: int): Record {
    match e
    case Routing(_) => rec.(routing := Some(e))
    case Sandbox(id, isFinal, _) => WithRun(rec,
      RunOf(rec.runs, id).(executionId := id, isFinal := isFinal, sandbox := Some(e)))
    case Adapter(id, _) => WithRun(rec, RunOf(rec.runs, id).(executionId := id, isFinal := true, adapter := Some(e)))
    case Terminal(_, _) => Transitioned(rec.(terminal := Some(e)), Target(e), now)
  }

  function Applied(rec: Record, e: Event, now: int): Record {
    var m := Merged(rec, e, now);
    if m.status == Pending && m.terminal.Some? && m.terminal.value.Terminal?
      then Transitioned(m, Target(m.terminal.value), now) else m
  }

  // ---- The aggregator's statements ------------------------------------------------------------

  /** upsertRun with the write to the entry it returns. */
  method Upsert(runs: seq<Run>, run: Run) returns (r: seq<Run>)
    ensures r == Written(runs, run)
  {
    hide Written;
    var k := 0;
    assert runs[0..] == runs && runs[..0] == [];
    while k < |runs| && runs[k].executionId != run.executionId
      invariant k <= |runs| && runs[..k] + Written(runs[k..], run) == Written(runs, run)
    {
      WrittenFurther(runs, run, k);
      k := k + 1;
    }
    WrittenHere(runs, run, k);
    r := if k < |runs| then runs[k := run] else runs + [run];
  }

  lemma WrittenFurther(runs: seq<Run>, run: Run, k: nat)
    requires k < |runs| && runs[k].executionId != run.executionId
    ensures runs[..k] + Written(runs[k..], run) == runs[..k + 1] + Written(runs[k + 1..], run)
  {
    var tail := Written(runs[k + 1..], run);
    assert runs[k..][0] == runs[k] && runs[k..][1..] == runs[k + 1..];
    assert Written(runs[k..], run) == [runs[k]] + tail;
    hide Written;
    assert runs[..k + 1] == runs[..k] + [runs[k]];
  }

  lemma WrittenHere(runs: seq<Run>, run: Run, k: nat)
    requires k <= |runs| && (k < |runs| ==> runs[k].executionId == run.executionId)
    ensures runs[..k] + Written(runs[k..], run) == if k < |runs| then runs[k := run] else runs + [run]
  {
    if k < |runs| {
      assert runs[k..][0] == runs[k] && runs[k..][1..] == runs[k + 1..];
      assert Written(runs[k..], run) == [run] + runs[k + 1..];
      hide Written;
      assert runs[k := run] == runs[..k] + ([run] + runs[k + 1..]);
    } else {
      assert runs[k..] == [] && runs[..k] == runs;
    }
  }

  method MaybeTransition(rec: Record, target: Status, now: int) returns (r: Record)
    ensures r == Transitioned(rec, target, now)
  {
    if rec.status != Pending { return rec; }
    for k := 0 to |rec.runs|
      invariant forall j :: 0 <= j < k ==> rec.runs[j].isFinal
    {
      if !rec.runs[k].isFinal { return rec; }
    }
    return rec.(status := target, completedAt := Some(now));
  }

  /** The body of record, once the record of the trace is at hand. */
  method Merge(rec: Record, e: Event, now: int) returns (r: Record)
    ensures r == Applied(rec, e, now)
  {
    hide Written, Recorded, Transitioned;
    r := rec;
    match e {
      case Routing(_) => r := r.(routing := Some(e));
      case Sandbox(id, isFinal, _) =>
        var runs := Upsert(r.runs, RunOf(r.runs, id).(executionId := id, isFinal := isFinal, sandbox := Some(e)));
        r := r.(runs := runs);
      case Adapter(id, _) =>
        var runs := Upsert(r.runs, RunOf(r.runs, id).(executionId := id, isFinal := true, adapter := Some(e)));
        r := r.(runs := runs);
      case Terminal(_, _) => r := MaybeTransition(r.(terminal := Some(e)), Target(e), now);
    }
    if r.status == Pending && r.terminal.Some? && r.terminal.value.Terminal? {
      r := MaybeTransition(r, Target(r.terminal.value), now);
    }
  }

  // ---- What every record keeps -------------------------------------------------------------

  ghost predicate DistinctIds(runs: seq<Run>) {
    forall i, j :: 0 <= i < j < |runs| ==> runs[i].executionId != runs[j].executionId
  }

  ghost predicate ValidRecord(rec: Record) {
    && DistinctIds(rec.runs)
    && (rec.terminal.Some? ==> rec.terminal.value.Terminal?)
    && (rec.status == Pending && rec.terminal.Some? ==> !AllFinal(rec.runs))
    && (rec.status != Pending ==> rec.terminal.Some?)
  }

  lemma {:induction false} IdsOfWritten(runs: seq<Run>, run: Run, r: Run)
    requires r in Written(runs, run)
    ensures r == run || r in runs
  {
    if runs != [] && runs[0].executionId != run.executionId && r != runs[0] { IdsOfWritten(runs[1..], run, r); }
  }

  lemma {:induction false} WrittenKeepsIds(runs: seq<Run>, run: Run)
    requires DistinctIds(runs)
    ensures DistinctIds(Written(runs, run))
  {
    if runs != [] && runs[0].executionId != run.executionId {
      var tail := Written(runs[1..], run);
      WrittenKeepsIds(runs[1..], run);
      forall j | 0 <= j < |tail| ensures tail[j].executionId != runs[0].executionId {
        IdsOfWritten(runs[1..], run, tail[j]);
      }
    }
  }

  /**
   * An event keeps the record valid: execution ids stay unique, and a pending record that has its
   * terminal event still waits for a run. A status once decided stays.
   */
  lemma AppliedKeepsValid(rec: Record, e: Event, now: int)
    requires ValidRecord(rec)
    ensures ValidRecord(Applied(rec, e, now))
    ensures rec.status != Pending ==>
      Applied(rec, e, now).status == rec.status && Applied(rec, e, now).completedAt == rec.completedAt
    ensures Applied(rec, e, now).runId == rec.runId && Applied(rec, e, now).receivedAt == rec.receivedAt
  {
    hide Recorded, Written, DistinctIds, RunOf;
    match e
    case Sandbox(id, isFinal, _) => WrittenKeepsIds(rec.runs,
      RunOf(rec.runs, id).(executionId := id, isFinal := isFinal, sandbox := Some(e)));
    case Adapter(id, _) => WrittenKeepsIds(rec.runs,
      RunOf(rec.runs, id).(executionId := id, isFinal := true, adapter := Some(e)));
    case _ =>
  }

  // ---- The order of one trace's events --------------------------------------------------------

  datatype Stamped = Stamped(event: Event, now: int)

  function AppliedAll(rec: Record, es: seq<Stamped>): Record
    decreases |es|
  {
    if es == [] then rec
    else
      var last := es[|es| - 1];
      Applied(AppliedAll(rec, es[..|es| - 1]), last.event, last.now)
  }

  /** Events of the same slot overwrite each other. */
  datatype Key = RoutingKey | CreatedKey(id: string) | FinalKey(id: string) | AdapterKey(id: string) | TerminalKey

  function KeyOf(e: Event): Key {
    match e
    case Routing(_) => RoutingKey
    case Sandbox(id, isFinal, _) => if isFinal then FinalKey(id) else CreatedKey(id)
    case Adapter(id, _) => AdapterKey(id)
    case Terminal(_, _) => TerminalKey
  }

  /** The last event of a key. */
  function Find(es: seq<Stamped>, k: Key): (r: Option<Event>)
    ensures r.Some? ==> KeyOf(r.value) == k
    decreases |es|
  {
    if es == [] then None
    else if KeyOf(es[|es| - 1].event) == k then Some(es[|es| - 1].event)
    else Find(es[..|es| - 1], k)
  }

  /** No execution is announced after it has ended. */
  ghost predicate CreatedFirst(es: seq<Stamped>) {
    forall i, j :: 0 <= i < j < |es| && es[j].event.Sandbox? && !es[j].event.isFinal ==>
      KeyOf(es[i].event) != FinalKey(es[j].event.executionId)
        && KeyOf(es[i].event) != AdapterKey(es[j].event.executionId)
  }

  /** What the last events of each slot say of one execution, however they came between. */
  function Told(es: seq<Stamped>, id: string): Option<Run> {
    var created, final, adapter := Find(es, CreatedKey(id)), Find(es, FinalKey(id)), Find(es, AdapterKey(id));
    if created.None? && final.None? && adapter.None? then None
    else Some(Run(id, final.Some? || adapter.Some?, if final.Some? then final else created, adapter))
  }

  lemma {:induction false} RecordedAfterRun(runs: seq<Run>, run: Run, id: string)
    ensures Recorded(Written(runs, run), id) == if id == run.executionId then Some(run) else Recorded(runs, id)
  {
    var r := Written(runs, run);
    if runs == [] {
      assert r[1..] == [];
    } else if runs[0].executionId == run.executionId {
      assert r[1..] == runs[1..];
    } else {
      assert r[1..] == Written(runs[1..], run);
      RecordedAfterRun(runs[1..], run, id);
    }
  }

  /** The run an event leaves behind for its execution. */
  function RunAfter(before: Option<Run>, id: string, e: Event): Option<Run> {
    var was := if before.Some? then before.value else Run(id, false, None, None);
    match e
    case Sandbox(x, isFinal, _) => if x == id
      then Some(was.(executionId := id, isFinal := isFinal, sandbox := Some(e))) else before
    case Adapter(x, _) => if x == id then Some(was.(executionId := id, isFinal := true, adapter := Some(e))) else before
    case _ => before
  }

  lemma RecordedAfterEvent(rec: Record, e: Event, now: int, id: string)
    ensures Recorded(Applied(rec, e, now).runs, id) == RunAfter(Recorded(rec.runs, id), id, e)
  {
    hide Recorded, Written, AllFinal;
    match e
    case Sandbox(x, isFinal, _) =>
      RecordedAfterRun(rec.runs, RunOf(rec.runs, x).(executionId := x, isFinal := isFinal, sandbox := Some(e)), id);
    case Adapter(x, _) =>
      RecordedAfterRun(rec.runs, RunOf(rec.runs, x).(executionId := x, isFinal := true, adapter := Some(e)), id);
    case _ =>
  }

  lemma ToldOneMore(es: seq<Stamped>, id: string)
    requires es != [] && CreatedFirst(es)
    ensures Told(es, id) == RunAfter(Told(es[..|es| - 1], id), id, es[|es| - 1].event)
  {
    NoEarlier(es, FinalKey(id));
    NoEarlier(es, AdapterKey(id));
    hide CreatedFirst;
  }

  /** Before an announcement there is no end of its execution. */
  lemma NoEarlier(es: seq<Stamped>, k: Key)
    requires es != [] && CreatedFirst(es)
    ensures var init, e := es[..|es| - 1], es[|es| - 1].event;
      e.Sandbox? && !e.isFinal && (k == FinalKey(e.executionId) || k == AdapterKey(e.executionId)) ==>
        Find(init, k) == None
  {
    var init := es[..|es| - 1];
    if Find(init, k).Some? { var i := FoundAt(init, k); }
  }

  lemma {:induction false} FoundAt(es: seq<Stamped>, k: Key) returns (i: nat)
    requires Find(es, k).Some?
    ensures i < |es| && es[i].event == Find(es, k).value
    decreases |es|
  {
    i := |es| - 1;
    if KeyOf(es[|es| - 1].event) != k { i := FoundAt(es[..|es| - 1], k); }
  }

  lemma PrefixIsOrdered(es: seq<Stamped>)
    requires es != [] && CreatedFirst(es)
    ensures CreatedFirst(es[..|es| - 1])
  {
  }

  /** A fresh record holds of each execution what its last events tell. */
  lemma {:induction false} RunsAreTold(rec: Record, es: seq<Stamped>, id: string)
    requires rec.runs == [] && CreatedFirst(es)
    ensures Recorded(AppliedAll(rec, es).runs, id) == Told(es, id)
    decreases |es|
  {
    hide CreatedFirst, Applied, Told, Recorded, RunAfter;
    if es == [] {
      NothingTold(rec, es, id);
    } else {
      var init, last := es[..|es| - 1], es[|es| - 1];
      PrefixIsOrdered(es);
      RunsAreTold(rec, init, id);
      RecordedAfterEvent(AppliedAll(rec, init), last.event, last.now, id);
      ToldOneMore(es, id);
    }
  }

  lemma NothingTold(rec: Record, es: seq<Stamped>, id: string)
    requires rec.runs == [] && es == []
    ensures Recorded(AppliedAll(rec, es).runs, id) == Told(es, id)
  {
  }

  lemma TerminalAfterEvent(rec: Record, e: Event, now: int)
    ensures Applied(rec, e, now).terminal == if e.Terminal? then Some(e) else rec.terminal
  {
    hide Recorded, Written, AllFinal, RunOf;
  }

  lemma {:induction false} TerminalIsTold(rec: Record, es: seq<Stamped>)
    requires ValidRecord(rec) && rec.terminal == None
    ensures ValidRecord(AppliedAll(rec, es)) && AppliedAll(rec, es).terminal == Find(es, TerminalKey)
    decreases |es|
  {
    hide ValidRecord, Applied;
    if es != [] {
      var init, last := es[..|es| - 1], es[|es| - 1];
      TerminalIsTold(rec, init);
      AppliedKeepsValid(AppliedAll(rec, init), last.event, last.now);
      TerminalAfterEvent(AppliedAll(rec, init), last.event, last.now);
    }
  }

  /** Every execution that is announced or ends, ends. */
  ghost predicate AllEnd(es: seq<Stamped>) {
    forall id :: Told(es, id).Some? ==> Told(es, id).value.isFinal
  }

  /** The status is decided by the terminal event alone, once everything has ended. */
  lemma StatusIsTold(rec: Record, es: seq<Stamped>)
    requires ValidRecord(rec) && rec.terminal == None && rec.runs == []
    requires CreatedFirst(es) && AllEnd(es) && Find(es, TerminalKey).Some?
    ensures AppliedAll(rec, es).status != Pending
  {
    hide CreatedFirst, AppliedAll, Told, Find;
    TerminalIsTold(rec, es);
    var r := AppliedAll(rec, es);
    if r.status == Pending {
      var k :| 0 <= k < |r.runs| && !r.runs[k].isFinal;
      var id := r.runs[k].executionId;
      RunsAreTold(rec, es, id);
      RecordedAt(r.runs, k);
    }
  }

  lemma {:induction false} RecordedAt(runs: seq<Run>, k: nat)
    requires k < |runs| && DistinctIds(runs)
    ensures Recorded(runs, runs[k].executionId) == Some(runs[k])
  {
    if k > 0 {
      assert runs[1..][k - 1] == runs[k];
      RecordedAt(runs[1..], k - 1);
    }
  }

  /** The status that was set is that of a terminal event. */
  ghost predicate StatusFits(rec: Record) {
    rec.status != Pending ==>
      rec.terminal.Some? && rec.terminal.value.Terminal? && rec.status == Target(rec.terminal.value)
  }

  /** All terminal events, however many, report the same outcome. */
  ghost predicate OneOutcome(es: seq<Stamped>) {
    forall i, j :: 0 <= i < |es| && 0 <= j < |es| && es[i].event.Terminal? && es[j].event.Terminal? ==>
      es[i].event.completed == es[j].event.completed
  }

  lemma AppliedFits(rec: Record, e: Event, now: int)
    requires ValidRecord(rec) && StatusFits(rec)
    requires e.Terminal? && rec.terminal.Some? ==> rec.terminal.value.completed == e.completed
    ensures StatusFits(Applied(rec, e, now))
  {
    hide Recorded, Written, AllFinal, RunOf, DistinctIds;
  }

  lemma {:induction false} StatusFitsTerminal(rec: Record, es: seq<Stamped>)
    requires ValidRecord(rec) && rec.terminal == None && OneOutcome(es)
    ensures StatusFits(AppliedAll(rec, es))
    decreases |es|
  {
    hide Applied, ValidRecord, StatusFits;
    if es == [] {
      PendingFits(rec);
    } else {
      var init, last := es[..|es| - 1], es[|es| - 1];
      StatusFitsTerminal(rec, init);
      TerminalIsTold(rec, init);
      SameOutcome(es);
      AppliedFits(AppliedAll(rec, init), last.event, last.now);
    }
  }

  lemma SameOutcome(es: seq<Stamped>)
    requires es != [] && OneOutcome(es)
    ensures var r, e := Find(es[..|es| - 1], TerminalKey), es[|es| - 1].event;
      e.Terminal? && r.Some? ==> r.value.Terminal? && r.value.completed == e.completed
  {
    var init := es[..|es| - 1];
    if Find(init, TerminalKey).Some? {
      var i := FoundAt(init, TerminalKey);
      assert init[i] == es[i];
    }
  }

  lemma PendingFits(rec: Record)
    requires ValidRecord(rec) && rec.terminal == None
    ensures StatusFits(rec)
  {
  }

  ghost predicate Has(es: seq<Stamped>, e: Event) { exists i :: 0 <= i < |es| && es[i].event == e }

  /** The same events, at whatever times and in whatever order. */
  ghost predicate SameEvents(es: seq<Stamped>, fs: seq<Stamped>) {
    forall e :: Has(es, e) <==> Has(fs, e)
  }

  lemma {:induction false} ThereIsFound(es: seq<Stamped>, e: Event)
    requires Has(es, e)
    ensures Find(es, KeyOf(e)).Some?
    decreases |es|
  {
    var i :| 0 <= i < |es| && es[i].event == e;
    if i < |es| - 1 {
      assert es[..|es| - 1][i] == es[i];
      ThereIsFound(es[..|es| - 1], e);
    }
  }

  /** Whether a slot is filled does not depend on the order. */
  lemma FilledAlike(es: seq<Stamped>, fs: seq<Stamped>, k: Key)
    requires SameEvents(es, fs)
    ensures Find(es, k).Some? <==> Find(fs, k).Some?
  {
    hide Find;
    if Find(es, k).Some? {
      var i := FoundAt(es, k);
      assert Has(es, es[i].event);
      ThereIsFound(fs, es[i].event);
    }
    if Find(fs, k).Some? {
      var i := FoundAt(fs, k);
      assert Has(fs, fs[i].event);
      ThereIsFound(es, fs[i].event);
    }
  }

  lemma EndAlike(es: seq<Stamped>, fs: seq<Stamped>)
    requires SameEvents(es, fs) && AllEnd(es)
    ensures AllEnd(fs)
  {
    hide Find, SameEvents;
    forall id | Told(fs, id).Some? ensures Told(fs, id).value.isFinal {
      FilledAlike(es, fs, CreatedKey(id));
      FilledAlike(es, fs, FinalKey(id));
      FilledAlike(es, fs, AdapterKey(id));
      assert Told(es, id).Some?;
    }
  }

  lemma OutcomeAlike(es: seq<Stamped>, fs: seq<Stamped>)
    requires SameEvents(es, fs) && OneOutcome(es)
    ensures OneOutcome(fs)
    ensures Find(es, TerminalKey).Some? ==>
      Find(fs, TerminalKey).Some? && Find(es, TerminalKey).value.completed == Find(fs, TerminalKey).value.completed
  {
    hide Find;
    forall j | 0 <= j < |fs| ensures exists i :: 0 <= i < |es| && es[i].event == fs[j].event {
      assert Has(fs, fs[j].event);
    }
    FilledAlike(es, fs, TerminalKey);
    if Find(es, TerminalKey).Some? {
      var i := FoundAt(es, TerminalKey);
      var j := FoundAt(fs, TerminalKey);
    }
  }

  /** The last events of an execution are the same: of its ends, or of its announcements when it has no sandbox end. */
  ghost predicate LastsAgree(es: seq<Stamped>, fs: seq<Stamped>, id: string) {
    && Find(es, FinalKey(id)) == Find(fs, FinalKey(id))
    && Find(es, AdapterKey(id)) == Find(fs, AdapterKey(id))
    && (Find(es, FinalKey(id)).None? ==> Find(es, CreatedKey(id)) == Find(fs, CreatedKey(id)))
  }

  /** Two orders leave the same run of an execution exactly when its last events are the same. */
  lemma RunsAgreeExactly(rec: Record, es: seq<Stamped>, fs: seq<Stamped>, id: string)
    requires rec.runs == [] && CreatedFirst(es) && CreatedFirst(fs) && SameEvents(es, fs)
    ensures Recorded(AppliedAll(rec, es).runs, id) == Recorded(AppliedAll(rec, fs).runs, id) <==> LastsAgree(es, fs, id)
  {
    hide CreatedFirst, AppliedAll, Find, SameEvents, Recorded;
    RunsAreTold(rec, es, id);
    RunsAreTold(rec, fs, id);
    FilledAlike(es, fs, CreatedKey(id));
    FilledAlike(es, fs, FinalKey(id));
    FilledAlike(es, fs, AdapterKey(id));
  }

  /**
   * Any two orders of one trace's events, each execution announced before it ends, every execution
   * ended and the request finished with one outcome, leave the same status, and the same run for
   * every execution whose last events are the same.
   */
  lemma OrderDoesNotMatter(rec: Record, es: seq<Stamped>, fs: seq<Stamped>, id: string)
    requires ValidRecord(rec) && rec.terminal == None && rec.runs == []
    requires CreatedFirst(es) && CreatedFirst(fs) && SameEvents(es, fs)
    requires AllEnd(es) && Find(es, TerminalKey).Some? && OneOutcome(es)
    ensures AppliedAll(rec, es).status == AppliedAll(rec, fs).status != Pending
    ensures Recorded(AppliedAll(rec, es).runs, id) == Recorded(AppliedAll(rec, fs).runs, id) <==> LastsAgree(es, fs, id)
  {
    hide CreatedFirst, AppliedAll, AllEnd, Find, SameEvents, OneOutcome, LastsAgree, ValidRecord, Recorded;
    RunsAgreeExactly(rec, es, fs, id);
    EndAlike(es, fs);
    OutcomeAlike(es, fs);
    StatusIsTold(rec, es);
    StatusIsTold(rec, fs);
    StatusFitsTerminal(rec, es);
    StatusFitsTerminal(rec, fs);
    TerminalIsTold(rec, es);
    TerminalIsTold(rec, fs);
  }

  ghost predicate OnePerKey(es: seq<Stamped>) {
    forall i, j :: 0 <= i < j < |es| ==> KeyOf(es[i].event) != KeyOf(es[j].event)
  }

  /** When no slot is written twice, the last events are the same in every order. */
  lemma UnrepeatedAgree(es: seq<Stamped>, fs: seq<Stamped>, id: string)
    requires SameEvents(es, fs) && OnePerKey(es)
    ensures LastsAgree(es, fs, id)
  {
    hide Find, OnePerKey, SameEvents;
    OnlyOne(es, fs, FinalKey(id));
    OnlyOne(es, fs, AdapterKey(id));
    OnlyOne(es, fs, CreatedKey(id));
  }

  lemma OnlyOne(es: seq<Stamped>, fs: seq<Stamped>, k: Key)
    requires SameEvents(es, fs) && OnePerKey(es)
    ensures Find(es, k) == Find(fs, k)
  {
    hide Find;
    FilledAlike(es, fs, k);
    if Find(es, k).Some? {
      var i := FoundAt(es, k);
      var j := FoundAt(fs, k);
      assert Has(fs, fs[j].event);
      var l :| 0 <= l < |es| && es[l].event == fs[j].event;
      assert l == i;
    }
  }

  /** Two ends of one execution that are swapped leave different runs. */
  lemma TwoEndsDiffer(rec: Record, id: string, a: nat, b: nat, now: int)
    requires rec.runs == [] && a != b
    ensures var x, y := Stamped(Sandbox(id, true, a), now), Stamped(Sandbox(id, true, b), now);
      && CreatedFirst([x, y]) && CreatedFirst([y, x]) && SameEvents([x, y], [y, x])
      && Recorded(AppliedAll(rec, [x, y]).runs, id) != Recorded(AppliedAll(rec, [y, x]).runs, id)
  {
    var x, y := Stamped(Sandbox(id, true, a), now), Stamped(Sandbox(id, true, b), now);
    hide AppliedAll, Recorded;
    assert SameEvents([x, y], [y, x]) by {
      forall e ensures Has([x, y], e) <==> Has([y, x], e) {
        assert [x, y][0] == [y, x][1] == x && [x, y][1] == [y, x][0] == y;
      }
    }
    RunsAgreeExactly(rec, [x, y], [y, x], id);
  }

  /** The event at `i`, moved to the front. */
  function Fronted(es: seq<Stamped>, i: nat): seq<Stamped>
    requires i < |es|
  {
    [es[i]] + es[..i] + es[i + 1..]
  }

  lemma FrontedIsAnOrder(es: seq<Stamped>, i: nat)
    requires i < |es| && es[i].event.Terminal? && CreatedFirst(es)
    ensures CreatedFirst(Fronted(es, i)) && SameEvents(es, Fronted(es, i))
  {
    var fs := Fronted(es, i);
    forall e ensures Has(es, e) <==> Has(fs, e) {
      if k :| 0 <= k < |es| && es[k].event == e {
        assert fs[if k < i then k + 1 else if k == i then 0 else k] == es[k];
      }
      if k :| 0 <= k < |fs| && fs[k].event == e {
        assert fs[k] == es[if k == 0 then i else if k <= i then k - 1 else k];
      }
    }
    assert forall k :: 0 <= k < |fs| ==> fs[k] == es[if k == 0 then i else if k <= i then k - 1 else k];
  }

  /** A terminal event that comes first settles the status, whatever follows. */
  lemma {:induction false} FirstTerminalSettles(rec: Record, es: seq<Stamped>)
    requires ValidRecord(rec) && rec.status == Pending && rec.runs == [] && es != [] && es[0].event.Terminal?
    ensures ValidRecord(AppliedAll(rec, es)) && AppliedAll(rec, es).status == Target(es[0].event)
    decreases |es|
  {
    var init, last := es[..|es| - 1], es[|es| - 1];
    if init == [] {
      assert AppliedAll(rec, init) == rec;
    } else {
      FirstTerminalSettles(rec, init);
    }
    AppliedKeepsValid(AppliedAll(rec, init), last.event, last.now);
    hide ValidRecord, Recorded, Written, RunOf;
  }

  /** The status is the same in every order exactly when the terminal events report one outcome. */
  lemma StatusAgreesExactly(rec: Record, es: seq<Stamped>)
    requires ValidRecord(rec) && rec.status == Pending && rec.terminal == None && rec.runs == []
    requires CreatedFirst(es) && AllEnd(es) && Find(es, TerminalKey).Some?
    ensures (forall fs :: CreatedFirst(fs) && SameEvents(es, fs) ==>
      AppliedAll(rec, fs).status == AppliedAll(rec, es).status)
      <==> OneOutcome(es)
  {
    hide CreatedFirst, AppliedAll, AllEnd, Find, SameEvents, ValidRecord, Recorded;
    if OneOutcome(es) {
      forall fs | CreatedFirst(fs) && SameEvents(es, fs) ensures AppliedAll(rec, fs).status
        == AppliedAll(rec, es).status {
        hide OneOutcome;
        OrderDoesNotMatter(rec, es, fs, "");
      }
    } else {
      var i, j :| 0 <= i < |es| && 0 <= j < |es| && es[i].event.Terminal? && es[j].event.Terminal?
        && es[i].event.completed != es[j].event.completed;
      FrontedIsAnOrder(es, i);
      FrontedIsAnOrder(es, j);
      FirstTerminalSettles(rec, Fronted(es, i));
      FirstTerminalSettles(rec, Fronted(es, j));
    }
  }
}
