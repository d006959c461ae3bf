/**
 * The buffer of telemetry records (packages/gateway/src/debug-telemetry.ts,
 * DebugTelemetryBuffer): records in the order they were inserted, at most `capacity` of them.
 */
module TelemetryBuffer {
  import opened Prelude
  import opened Telemetry

  /** Where the record of a trace is, |records| when there is none. */
  function Index(records: seq<Record>, id: string): (k: nat)
    ensures k <= |records| && (k < |records| ==> records[k].runId == id)
    ensures forall j :: 0 <= j < k ==> records[j].runId != id
  {
    if records == [] || records[0].runId == id then 0 else 1 + Index(records[1..], id)
  }

  ghost predicate UniqueIds(records: seq<Record>) {
    forall i, j :: 0 <= i < j < |records| ==> records[i].runId != records[j].runId
  }

  ghost predicate AllValid(records: seq<Record>) { forall k :: 0 <= k < |records| ==> ValidRecord(records[k]) }

  ghost predicate IsOldest(records: seq<Record>, k: nat) {
    k < |records| && (forall j :: 0 <= j < |records| ==> records[k].receivedAt <= records[j].receivedAt)
    && forall j :: 0 <= j < k ==> records[k].receivedAt < records[j].receivedAt
  }

  ghost predicate IsLatest(records: seq<Record>, k: nat) {
    k < |records| && (forall j :: 0 <= j < |records| ==> records[j].receivedAt <= records[k].receivedAt)
    && forall j :: k < j < |records| ==> records[j].receivedAt < records[k].receivedAt
  }

  /** The first record with the least receivedAt. */
  function Oldest(records: seq<Record>): (k: nat)
    requires records != []
    ensures IsOldest(records, k)
  {
    if |records| == 1 then 0
    else
      var init := records[..|records| - 1];
      var k := Oldest(init);
      assert forall j :: 0 <= j < |init| ==> init[j] == records[j];
      if records[|records| - 1].receivedAt < records[k].receivedAt then |records| - 1 else k
  }

  function Without(records: seq<Record>, k: nat): seq<Record>
    requires k < |records|
  {
    records[..k] + records[k + 1..]
  }

  function Evicted(records: seq<Record>, capacity: nat): (r: seq<Record>)
    ensures |r| <= capacity && |r| <= |records|
    decreases |records|
  {
    if |records| <= capacity then records else Evicted(Without(records, Oldest(records)), capacity)
  }

  lemma OldestIsUnique(records: seq<Record>, k: nat)
    requires IsOldest(records, k)
    ensures k == Oldest(records)
  {
  }

  /** Dropping a record keeps the others valid and distinct. */
  lemma {:induction false} EvictedKeeps(records: seq<Record>, capacity: nat)
    requires UniqueIds(records) && AllValid(records)
    ensures UniqueIds(Evicted(records, capacity)) && AllValid(Evicted(records, capacity))
    ensures forall r :: r in Evicted(records, capacity) ==> r in records
    decreases |records|
  {
    hide ValidRecord;
    if |records| > capacity { EvictedKeeps(Without(records, Oldest(records)), capacity); }
  }

  // ---- One call -----------------------------------------------------------------------------

  /** What a request start knows of its request. */
  datatype Metadata = Metadata(receivedAt: Option<int>, apiKeyId: Option<string>, queryHash: Option<string>,
    query: Option<string>)

  /** A call of record, or one of recordRequestStart. */
  datatype Call =
    | EventCall(traceId: string, now: int, receivedAt: Option<int>, apiKeyId: Option<string>, event: Event)
    | StartCall(traceId: string, now: int, metadata: Metadata)

  /** record ignores an event without a trace; a start is bound whatever its trace is called. */
  predicate IsIgnored(c: Call) { c.EventCall? && c.traceId == "" }

  predicate IsFor(c: Call, t: string) { c.traceId == t && !IsIgnored(c) }

  function OrElse<T>(a: Option<T>, b: T): T { if a.Some? then a.value else b }

  function Or<T>(a: Option<T>, b: Option<T>): Option<T> { if a.Some? then a else b }

  function FreshFor(c: Call): Record {
    match c
    case EventCall(_, _, _, _, _) => Fresh(c.traceId, OrElse(c.receivedAt, c.now), c.apiKeyId)
    case StartCall(_, _, m) => Fresh(c.traceId, OrElse(m.receivedAt, c.now), m.apiKeyId)
  }

  /** What a request start sets; a record made for it already has the key and the time. */
  function Bound(rec: Record, known: bool, m: Metadata): Record {
    rec.(apiKeyId := if known then Or(m.apiKeyId, rec.apiKeyId) else rec.apiKeyId,
         receivedAt := if known then OrElse(m.receivedAt, rec.receivedAt) else rec.receivedAt,
         queryHash := Or(m.queryHash, rec.queryHash), query := Or(m.query, rec.query))
  }

  /** The records with one more for the trace, when it had none, and the oldest dropped if that is too many. */
  function Admitted(records: seq<Record>, capacity: nat, rec: Record): seq<Record> {
    if Index(records, rec.runId) < |records| then records else Evicted(records + [rec], capacity)
  }

  /** What a call makes of the record of its trace, known before or made for it. */
  function Changed(rec: Record, known: bool, c: Call): Record {
    match c
    case EventCall(_, _, _, _, event) => Applied(rec, event, c.now)
    case StartCall(_, _, m) => Bound(rec, known, m)
  }

  /** The record of the trace changed; a record dropped on arrival is changed unseen. */
  function WithChange(records: seq<Record>, known: bool, c: Call): seq<Record> {
    var k := Index(records, c.traceId);
    if k < |records| then records[k := Changed(records[k], known, c)] else records
  }

  function AfterCall(records: seq<Record>, capacity: nat, c: Call): seq<Record> {
    if IsIgnored(c) then records
    else WithChange(Admitted(records, capacity, FreshFor(c)), Index(records, c.traceId) < |records|, c)
  }

  lemma FreshIsValid(c: Call)
    ensures ValidRecord(FreshFor(c)) && FreshFor(c).runId == c.traceId
  {
  }

  lemma AdmittedKeeps(records: seq<Record>, capacity: nat, rec: Record)
    requires UniqueIds(records) && AllValid(records) && ValidRecord(rec)
    ensures UniqueIds(Admitted(records, capacity, rec)) && AllValid(Admitted(records, capacity, rec))
    ensures |records| <= capacity ==> |Admitted(records, capacity, rec)| <= capacity
  {
    hide ValidRecord;
    if Index(records, rec.runId) == |records| { EvictedKeeps(records + [rec], capacity); }
  }

  lemma BoundKeepsValid(rec: Record, known: bool, m: Metadata)
    requires ValidRecord(rec)
    ensures ValidRecord(Bound(rec, known, m)) && Bound(rec, known, m).runId == rec.runId
  {
  }

  lemma ChangedKeepsValid(rec: Record, known: bool, c: Call)
    requires ValidRecord(rec)
    ensures ValidRecord(Changed(rec, known, c))
  {
    hide ValidRecord, Applied, Bound;
    match c
    case EventCall(_, _, _, _, event) => AppliedKeepsValid(rec, event, c.now);
    case StartCall(_, _, m) => BoundKeepsValid(rec, known, m);
  }

  lemma ChangedId(rec: Record, known: bool, c: Call)
    ensures Changed(rec, known, c).runId == rec.runId
  {
    hide Applied;
    if c.EventCall? { AppliedId(rec, c.event, c.now); }
  }

  lemma AppliedId(rec: Record, e: Event, now: int)
    ensures Applied(rec, e, now).runId == rec.runId
  {
    hide Recorded, Written, AllFinal, RunOf;
  }

  lemma WithChangeKeeps(records: seq<Record>, known: bool, c: Call)
    requires UniqueIds(records) && AllValid(records)
    ensures UniqueIds(WithChange(records, known, c)) && AllValid(WithChange(records, known, c))
    ensures |WithChange(records, known, c)| == |records|
  {
    hide ValidRecord, Changed;
    var k := Index(records, c.traceId);
    if k < |records| {
      ChangedKeepsValid(records[k], known, c);
      ChangedId(records[k], known, c);
    }
  }

  /** One call keeps what every state of the buffer has. */
  lemma AfterCallKeeps(records: seq<Record>, capacity: nat, c: Call)
    requires UniqueIds(records) && AllValid(records) && |records| <= capacity
    ensures var rs := AfterCall(records, capacity, c); UniqueIds(rs) && AllValid(rs) && |rs| <= capacity
  {
    hide Changed, Evicted, UniqueIds, AllValid, ValidRecord, Index, WithChange, Admitted, FreshFor;
    FreshIsValid(c);
    AdmittedKeeps(records, capacity, FreshFor(c));
    WithChangeKeeps(Admitted(records, capacity, FreshFor(c)), Index(records, c.traceId) < |records|, c);
  }

  class DebugTelemetryBuffer {
    const capacity: nat
    var records: seq<Record>

    ghost predicate Valid()
      reads this
    {
      UniqueIds(records) && AllValid(records) && |records| <= capacity
    }

    constructor (capacity: nat)
      ensures Valid() && records == [] && this.capacity == capacity
    {
      this.capacity, records := capacity, [];
    }

    /** evictIfNeeded */
    method EvictIfNeeded()
      modifies this`records
      ensures records == Evicted(old(records), capacity)
    {
      while |records| > capacity
        invariant Evicted(records, capacity) == Evicted(old(records), capacity)
        decreases |records|
      {
        var k := FindOldest();
        OldestIsUnique(records, k);
        records := Without(records, k);
      }
    }

    method FindOldest() returns (k: nat)
      requires records != []
      ensures IsOldest(records, k)
    {
      k := 0;
      for i := 1 to |records|
        invariant k < i && (forall j :: 0 <= j < i ==> records[k].receivedAt <= records[j].receivedAt)
        invariant forall j :: 0 <= j < k ==> records[k].receivedAt < records[j].receivedAt
      {
        if records[i].receivedAt < records[k].receivedAt { k := i; }
      }
    }

    /** record */
    method RecordEvent(traceId: string, event: Event, now: int, receivedAt: Option<int>, apiKeyId: Option<string>)
      requires Valid()
      modifies this`records
      ensures Valid() && records == AfterCall(old(records), capacity,
        EventCall(traceId, now, receivedAt, apiKeyId, event))
    {
      hide Applied, Evicted, UniqueIds, AllValid, ValidRecord, Index;
      AfterCallKeeps(records, capacity, EventCall(traceId, now, receivedAt, apiKeyId, event));
      if traceId == "" { return; }
      if Index(records, traceId) == |records| {
        records := records + [Fresh(traceId, if receivedAt.Some? then receivedAt.value else now, apiKeyId)];
        EvictIfNeeded();
      }
      var k := Index(records, traceId);
      if k < |records| {
        var rec := Merge(records[k], event, now);
        records := records[k := rec];
      }
    }

    /** recordRequestStart: metadata is bound to the record of the trace, made for it if need be. */
    method RecordRequestStart(traceId: string, now: int, m: Metadata)
      requires Valid()
      modifies this`records
      ensures Valid() && records == AfterCall(old(records), capacity, StartCall(traceId, now, m))
    {
      hide Evicted, UniqueIds, AllValid, ValidRecord, Index;
      AfterCallKeeps(records, capacity, StartCall(traceId, now, m));
      var k := Index(records, traceId);
      ghost var known := k < |records|;
      ghost var admitted := Admitted(records, capacity, FreshFor(StartCall(traceId, now, m)));
      if k == |records| {
        records := records + [Fresh(traceId, if m.receivedAt.Some? then m.receivedAt.value else now, m.apiKeyId)];
        EvictIfNeeded();
        k := Index(records, traceId);
      } else {
        if m.apiKeyId.Some? { records := records[k := records[k].(apiKeyId := m.apiKeyId)]; }
        if m.receivedAt.Some? { records := records[k := records[k].(receivedAt := m.receivedAt.value)]; }
      }
      if k < |records| {
        if m.queryHash.Some? { records := records[k := records[k].(queryHash := m.queryHash)]; }
        if m.query.Some? { records := records[k := records[k].(query := m.query)]; }
        assert records == admitted[k := Bound(admitted[k], known, m)];
      }
    }

    /** latest: the last inserted of those received last. */
    method Latest() returns (r: Option<Record>)
      ensures r.None? <==> records == []
      ensures r.Some? ==> exists k: nat :: k < |records| && IsLatest(records, k) && records[k] == r.value
    {
      if records == [] { return None; }
      var k := 0;
      for i := 1 to |records|
        invariant k < i && forall j :: 0 <= j < i ==> records[j].receivedAt <= records[k].receivedAt
        invariant forall j :: k < j < i ==> records[j].receivedAt < records[k].receivedAt
      {
        if records[i].receivedAt >= records[k].receivedAt { k := i; }
      }
      assert IsLatest(records, k);
      return Some(records[k]);
    }
  }

  // ---- Many requests at once ----------------------------------------------------------------------

  function AfterCalls(capacity: nat, calls: seq<Call>): seq<Record>
    decreases |calls|
  {
    if calls == [] then [] else AfterCall(AfterCalls(capacity, calls[..|calls| - 1]), capacity, calls[|calls| - 1])
  }

  function TraceOf(c: Call): set<string> { if IsIgnored(c) then {} else {c.traceId} }

  function Traces(calls: seq<Call>): set<string> { set c | c in calls && !IsIgnored(c) :: c.traceId }

  /** The events of one trace. */
  function EventsOf(calls: seq<Call>, t: string): seq<Stamped>
    decreases |calls|
  {
    if calls == [] then []
    else
      var c := calls[|calls| - 1];
      EventsOf(calls[..|calls| - 1], t) + if IsFor(c, t) && c.EventCall? then [Stamped(c.event, c.now)] else []
  }

  /** The metadata of the request starts of one trace. */
  function StartsOf(calls: seq<Call>, t: string): seq<Metadata>
    decreases |calls|
  {
    if calls == [] then []
    else
      var c := calls[|calls| - 1];
      StartsOf(calls[..|calls| - 1], t) + if IsFor(c, t) && c.StartCall? then [c.metadata] else []
  }

  function FirstOf(calls: seq<Call>, t: string): Option<Call>
    decreases |calls|
  {
    if calls == [] then None
    else
      var before := FirstOf(calls[..|calls| - 1], t);
      if before.Some? then before else if IsFor(calls[|calls| - 1], t) then Some(calls[|calls| - 1]) else None
  }

  /** One metadata after the other: of each field, the last value given. */
  function BoundAll(rec: Record, ms: seq<Metadata>): Record
    decreases |ms|
  {
    if ms == [] then rec else Bound(BoundAll(rec, ms[..|ms| - 1]), true, ms[|ms| - 1])
  }

  function RecordOf(records: seq<Record>, t: string): Option<Record> {
    var k := Index(records, t);
    if k < |records| then Some(records[k]) else None
  }

  function Ids(records: seq<Record>): set<string> { set r | r in records :: r.runId }

  lemma {:induction false} IdsCount(records: seq<Record>)
    requires UniqueIds(records)
    ensures |Ids(records)| == |records|
  {
    if records == [] {
      assert Ids(records) == {};
    } else {
      var rest := records[1..];
      IdsCount(rest);
      assert forall r :: r in records <==> r == records[0] || r in rest;
      assert Ids(records) == Ids(rest) + {records[0].runId};
      assert records[0].runId !in Ids(rest);
    }
  }

  lemma TracesOfMore(calls: seq<Call>)
    requires calls != []
    ensures Traces(calls) == Traces(calls[..|calls| - 1]) + TraceOf(calls[|calls| - 1])
  {
    var init, c := calls[..|calls| - 1], calls[|calls| - 1];
    assert calls == init + [c];
  }

  lemma AdmittedLookup(records: seq<Record>, capacity: nat, rec: Record, t: string)
    requires Index(records, rec.runId) == |records| ==> |records| < capacity
    ensures var a := Admitted(records, capacity, rec);
      && RecordOf(a, t) == (if RecordOf(records, t).Some? then RecordOf(records, t) else if rec.runId == t
        then Some(rec) else None)
      && Ids(a) == Ids(records) + {rec.runId}
      && Index(a, rec.runId) < |a|
  {
    hide Index;
    var k := Index(records, rec.runId);
    if k < |records| {
      assert records[k] in records;
    } else {
      AppendedIndex(records, rec, t);
      AppendedIndex(records, rec, rec.runId);
      assert Ids(records + [rec]) == Ids(records) + {rec.runId};
    }
  }

  lemma WithChangeLookup(records: seq<Record>, known: bool, c: Call, t: string)
    requires Index(records, c.traceId) < |records|
    ensures RecordOf(WithChange(records, known, c), t) ==
      if c.traceId == t then Some(Changed(RecordOf(records, t).value, known, c)) else RecordOf(records, t)
    ensures Ids(WithChange(records, known, c)) == Ids(records)
  {
    hide Index, Changed, Ids;
    var k := Index(records, c.traceId);
    ChangedId(records[k], known, c);
    UpdatedIndex(records, k, Changed(records[k], known, c), t);
    UpdatedIds(records, k, Changed(records[k], known, c));
    if c.traceId != t { DifferentIndex(records, c.traceId, t); }
  }

  lemma DifferentIndex(records: seq<Record>, s: string, t: string)
    requires s != t && Index(records, s) < |records|
    ensures Index(records, t) != Index(records, s)
  {
  }

  /** What a call makes of what the buffer has of its trace. */
  function Next(was: Option<Record>, c: Call): Record {
    Changed(if was.Some? then was.value else FreshFor(c), was.Some?, c)
  }

  lemma AfterCallLookup(records: seq<Record>, capacity: nat, c: Call, t: string)
    requires Index(records, c.traceId) == |records| && !IsIgnored(c) ==> |records| < capacity
    ensures RecordOf(AfterCall(records, capacity, c), t) ==
      if IsFor(c, t) then Some(Next(RecordOf(records, t), c)) else RecordOf(records, t)
    ensures Ids(AfterCall(records, capacity, c)) == Ids(records) + TraceOf(c)
  {
    hide Changed, Admitted, WithChange, Ids, Index, FreshFor;
    if !IsIgnored(c) {
      FreshIsValid(c);
      AdmittedLookup(records, capacity, FreshFor(c), t);
      WithChangeLookup(Admitted(records, capacity, FreshFor(c)), Index(records, c.traceId) < |records|, c, t);
    }
  }

  lemma {:induction false} AppendedIndex(records: seq<Record>, rec: Record, t: string)
    ensures Index(records, t) < |records| ==> Index(records + [rec], t) == Index(records, t)
    ensures Index(records, t) == |records| ==> Index(records + [rec], t) == |records| + if rec.runId == t then 0 else 1
  {
    if records == [] {
      assert records + [rec] == [rec] && [rec][1..] == [];
    } else {
      assert (records + [rec])[0] == records[0] && (records + [rec])[1..] == records[1..] + [rec];
      if records[0].runId != t { AppendedIndex(records[1..], rec, t); }
    }
  }

  lemma {:induction false} UpdatedIndex(records: seq<Record>, k: nat, rec: Record, t: string)
    requires k < |records| && rec.runId == records[k].runId
    ensures Index(records[k := rec], t) == Index(records, t)
  {
    var r := records[k := rec];
    if records[0].runId != t {
      if k == 0 {
        assert r[1..] == records[1..];
      } else {
        assert r[1..] == records[1..][k - 1 := rec];
        UpdatedIndex(records[1..], k - 1, rec, t);
      }
    }
  }

  lemma UpdatedIds(records: seq<Record>, k: nat, rec: Record)
    requires k < |records| && rec.runId == records[k].runId
    ensures Ids(records[k := rec]) == Ids(records)
  {
    var r := records[k := rec];
    forall id ensures id in Ids(r) <==> id in Ids(records) {
      if id in Ids(r) {
        var i :| 0 <= i < |r| && r[i].runId == id;
        assert records[i] in records && records[i].runId == id;
      }
      if id in Ids(records) {
        var i :| 0 <= i < |records| && records[i].runId == id;
        assert r[i] in r && r[i].runId == id;
      }
    }
  }

  lemma {:induction false} CallsKeepValid(capacity: nat, calls: seq<Call>)
    ensures var rs := AfterCalls(capacity, calls); UniqueIds(rs) && AllValid(rs) && |rs| <= capacity
    decreases |calls|
  {
    hide AfterCall, UniqueIds, AllValid;
    if calls == [] {
      NoneIsValid();
    } else {
      CallsKeepValid(capacity, calls[..|calls| - 1]);
      AfterCallKeeps(AfterCalls(capacity, calls[..|calls| - 1]), capacity, calls[|calls| - 1]);
    }
  }

  lemma NoneIsValid()
    ensures UniqueIds([]) && AllValid([])
  {
  }

  /** What the calls of one trace make of its record. */
  function Summary(calls: seq<Call>, t: string): Option<Record>
    decreases |calls|
  {
    if calls == [] then None
    else
      var before, c := Summary(calls[..|calls| - 1], t), calls[|calls| - 1];
      if IsFor(c, t) then Some(Next(before, c)) else before
  }

  lemma {:induction false} RecordsAreSummaries(capacity: nat, calls: seq<Call>, t: string)
    requires |Traces(calls)| <= capacity
    ensures Ids(AfterCalls(capacity, calls)) == Traces(calls)
    ensures RecordOf(AfterCalls(capacity, calls), t) == Summary(calls, t)
    decreases |calls|
  {
    hide Next, AfterCall, IsFor, IsIgnored, RecordOf, Ids, Index, Traces;
    if calls == [] {
      NoRecord(t);
      NoTraces(calls);
    } else {
      var init, c := calls[..|calls| - 1], calls[|calls| - 1];
      TracesOfMore(calls);
      FewerTraces(Traces(init), c.traceId, Traces(calls));
      RecordsAreSummaries(capacity, init, t);
      RoomForTrace(capacity, init, c, Traces(calls));
      AfterCallLookup(AfterCalls(capacity, init), capacity, c, t);
    }
  }

  lemma NoTraces(calls: seq<Call>)
    requires calls == []
    ensures Traces(calls) == {}
  {
  }

  /** Events read and write nothing of what a request start binds, and starts nothing of what events write. */
  lemma BindingCommutes(rec: Record, known: bool, m: Metadata, e: Event, now: int)
    ensures Applied(Bound(rec, known, m), e, now) == Bound(Applied(rec, e, now), known, m)
  {
    hide Recorded, Written, AllFinal, RunOf, Or, OrElse;
  }

  lemma {:induction false} BindingCommutesWithAll(rec: Record, m: Metadata, es: seq<Stamped>)
    ensures AppliedAll(Bound(rec, true, m), es) == Bound(AppliedAll(rec, es), true, m)
    decreases |es|
  {
    hide Applied, Bound;
    if es != [] {
      var last := es[|es| - 1];
      BindingCommutesWithAll(rec, m, es[..|es| - 1]);
      BindingCommutes(AppliedAll(rec, es[..|es| - 1]), true, m, last.event, last.now);
    }
  }

  lemma {:induction false} SummaryOfTrace(calls: seq<Call>, t: string)
    ensures Summary(calls, t) ==
      if FirstOf(calls, t).None? then None
      else Some(AppliedAll(BoundAll(FreshFor(FirstOf(calls, t).value), StartsOf(calls, t)), EventsOf(calls, t)))
    ensures FirstOf(calls, t).None? ==> EventsOf(calls, t) == [] && StartsOf(calls, t) == []
    decreases |calls|
  {
    hide Applied, AppliedAll, Bound, BoundAll, FreshFor, IsFor;
    if calls != [] {
      var init, c := calls[..|calls| - 1], calls[|calls| - 1];
      var es, ms := EventsOf(init, t), StartsOf(init, t);
      SummaryOfTrace(init, t);
      assert es + [] == es && ms + [] == ms;
      if IsFor(c, t) {
        var rec := FreshFor(if FirstOf(init, t).Some? then FirstOf(init, t).value else c);
        if c.EventCall? {
          EventAppended(BoundAll(rec, ms), es, c.event, c.now);
        } else {
          StartAppended(rec, ms, es, c.metadata);
        }
        NothingApplied(rec);
        if c.StartCall? { FreshIsBound(c); }
      }
    }
  }

  /**
   * While the traces fit the buffer, each record is made of the calls of its own trace and no
   * others, and it is the same as if its request starts had all come before its events.
   */
  lemma TracesDoNotMix(capacity: nat, calls: seq<Call>, t: string)
    requires |Traces(calls)| <= capacity
    ensures RecordOf(AfterCalls(capacity, calls), t) ==
      if FirstOf(calls, t).None? then None
      else Some(AppliedAll(BoundAll(FreshFor(FirstOf(calls, t).value), StartsOf(calls, t)), EventsOf(calls, t)))
  {
    hide RecordOf, AfterCalls, AppliedAll, BoundAll, EventsOf, StartsOf, FirstOf, Summary;
    RecordsAreSummaries(capacity, calls, t);
    SummaryOfTrace(calls, t);
  }

  lemma NoRecord(t: string)
    ensures RecordOf([], t) == None && Ids([]) == {}
  {
  }

  lemma NothingApplied(rec: Record)
    ensures AppliedAll(rec, []) == rec && BoundAll(rec, []) == rec
  {
  }

  /** A record made for a start already has the key and the time that the start would set. */
  lemma FreshIsBound(c: Call)
    requires c.StartCall?
    ensures Bound(FreshFor(c), false, c.metadata) == Bound(FreshFor(c), true, c.metadata)
  {
  }

  lemma EventAppended(rec: Record, es: seq<Stamped>, e: Event, now: int)
    ensures AppliedAll(rec, es + [Stamped(e, now)]) == Applied(AppliedAll(rec, es), e, now)
  {
    hide Applied;
    var more := es + [Stamped(e, now)];
    assert more[..|more| - 1] == es;
  }

  lemma StartAppended(rec: Record, ms: seq<Metadata>, es: seq<Stamped>, m: Metadata)
    ensures AppliedAll(BoundAll(rec, ms + [m]), es) == Bound(AppliedAll(BoundAll(rec, ms), es), true, m)
  {
    hide Bound, AppliedAll;
    var more := ms + [m];
    assert more[..|more| - 1] == ms;
    BindingCommutesWithAll(BoundAll(rec, ms), m, es);
  }

  lemma FewerTraces(a: set<string>, t: string, b: set<string>)
    requires a <= b
    ensures |a| <= |b| && (t !in a && t in b ==> |a| < |b|)
  {
    assert b == a + (b - a);
    if t !in a && t in b { assert t in b - a; }
  }

  lemma RoomForTrace(capacity: nat, init: seq<Call>, c: Call, all: set<string>)
    requires Ids(AfterCalls(capacity, init)) == Traces(init) && |all| <= capacity
    requires all == Traces(init) + TraceOf(c)
    ensures var rs := AfterCalls(capacity, init);
      Index(rs, c.traceId) == |rs| && !IsIgnored(c) ==> |rs| < capacity
  {
    hide AfterCalls, ValidRecord;
    var rs := AfterCalls(capacity, init);
    CallsKeepValid(capacity, init);
    IdsCount(rs);
    if Index(rs, c.traceId) == |rs| && !IsIgnored(c) {
      assert c.traceId !in Ids(rs);
      FewerTraces(Ids(rs), c.traceId, all);
    }
  }
}
