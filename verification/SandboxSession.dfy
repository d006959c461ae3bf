/**
 * The life of a sandbox session (packages/core/src/sandbox-runner.ts): preparation, one run or a
 * spawned process, and the teardown, for every pattern of failures. A failure pattern says of
 * every operation what it throws; cleanup and closes are attempted at most once, so one answer
 * for each is enough.
 */
module SandboxSession {
  import opened Prelude

  datatype Op =
    | InstallationId | BuildSnapshot | ToDescriptor | ResolvePolicy | ResolveProfile | SelectBackend | MatchProfile
    | PrepareTopology | ProvisionSecrets | MakeSessionRoot | MakeSessionDir | LaunchProxy | VerifySnapshot
    | PrepareBackend | BuildSpec | RunBackend | SpawnBackend
    | CloseProcess | Cleanup | CloseProxy | RemoveSessionDir | AwaitExit

  /** What is thrown; a containment error carries its reasons. */
  datatype Error = Error(message: string, reasons: Option<seq<string>>)

  type Failures = Op -> Option<Error>

  /** An isolation level; None is 'none'. */
  type Level = Option<string>

  datatype Meta = Meta(level: Level, backend: string, degraded: bool, reasons: seq<string>)
  datatype BackendResult = BackendResult(exitCode: int, timedOut: bool, stdout: string, stderr: string, meta: Meta)
  datatype Output = Output(success: bool, error: Option<string>, level: Level, backend: string, meta: Meta)

  // ---- Sequences of operations ---------------------------------------------------------------

  /** The operations that are attempted: up to and including the first that fails. */
  function Attempted(fails: Failures, ops: seq<Op>): seq<Op> {
    if ops == [] then [] else [ops[0]] + if fails(ops[0]).Some? then [] else Attempted(fails, ops[1..])
  }

  function FirstError(fails: Failures, ops: seq<Op>): Option<Error> {
    if ops == [] then None else if fails(ops[0]).Some? then fails(ops[0]) else FirstError(fails, ops[1..])
  }

  const BEFORE_BACKEND: seq<Op> := [InstallationId, BuildSnapshot, ToDescriptor, ResolvePolicy, ResolveProfile,
    SelectBackend]
  const BEFORE_DIR: seq<Op> := [MatchProfile, PrepareTopology, ProvisionSecrets, MakeSessionRoot, MakeSessionDir]
  const BEFORE_PREPARED: seq<Op> := [VerifySnapshot, PrepareBackend]

  function Preparation(): (ops: seq<Op>)
    ensures |ops| == 14
  {
    BEFORE_BACKEND + BEFORE_DIR + [LaunchProxy] + BEFORE_PREPARED
  }

  predicate Selected(fails: Failures) { FirstError(fails, BEFORE_BACKEND).None? }
  predicate DirMade(fails: Failures) { Selected(fails) && FirstError(fails, BEFORE_DIR).None? }
  predicate Launched(fails: Failures) { DirMade(fails) && fails(LaunchProxy).None? }
  predicate IsPrepared(fails: Failures) { Launched(fails) && FirstError(fails, BEFORE_PREPARED).None? }

  /** What is to be undone, in this order. */
  function Undone(backend: bool, proxy: bool, dir: bool): seq<Op> {
    (if backend then [Cleanup] else []) + (if proxy then [CloseProxy] else []) + if dir then [RemoveSessionDir] else []
  }

  function Teardown(fails: Failures): seq<Op> { Undone(Selected(fails), Launched(fails), DirMade(fails)) }

  lemma AttemptedStep(fails: Failures, ops: seq<Op>, i: nat)
    requires i < |ops|
    ensures FirstError(fails, ops[i..]) == if fails(ops[i]).Some? then fails(ops[i])
      else FirstError(fails, ops[i + 1..])
    ensures Attempted(fails, ops[i..]) == [ops[i]] + if fails(ops[i]).Some? then [] else Attempted(fails, ops[i + 1..])
  {
    assert ops[i..][0] == ops[i] && ops[i..][1..] == ops[i + 1..];
  }

  lemma Logged(log: seq<Op>, op: Op, tail: seq<Op>)
    ensures log + ([op] + tail) == (log + [op]) + tail && (log + [op]) + [] == log + [op]
  {
  }

  lemma NothingAttempted(fails: Failures, ops: seq<Op>, log: seq<Op>)
    requires ops == []
    ensures FirstError(fails, ops).None? && log + Attempted(fails, ops) == log
  {
  }

  lemma {:induction false} AttemptedConcat(fails: Failures, a: seq<Op>, b: seq<Op>)
    ensures Attempted(fails, a + b) == Attempted(fails, a) + if FirstError(fails, a).None? then Attempted(fails, b)
      else []
    ensures FirstError(fails, a + b) == if FirstError(fails, a).Some? then FirstError(fails, a)
      else FirstError(fails, b)
  {
    if a == [] {
      assert a + b == b;
    } else {
      assert (a + b)[1..] == a[1..] + b;
      AttemptedConcat(fails, a[1..], b);
    }
  }

  lemma AttemptedOne(fails: Failures, op: Op)
    ensures Attempted(fails, [op]) == [op] && FirstError(fails, [op]) == fails(op)
  {
    assert [op][1..] == [];
  }

  // ---- Outputs -----------------------------------------------------------------------------------

  /** What a failed cleanup is reported as. */
  function Containment(e: Error): seq<string> { if e.reasons.Some? then e.reasons.value else [e.message] }

  function Downgraded(meta: Meta, containment: Option<Error>, soft: seq<string>): Meta {
    if containment.Some? then Meta(None, meta.backend, true, meta.reasons + Containment(containment.value) + soft)
    else if soft != [] then meta.(degraded := true, reasons := meta.reasons + soft)
    else meta
  }

  /** toRunOutput */
  function RunOutput(result: BackendResult, level: Level, kind: string, containment: Option<Error>,
                     soft: seq<string>): Output {
    var meta := Downgraded(result.meta, containment, soft);
    if containment.Some? then Output(false, None, None, kind, meta)
    else Output(result.exitCode == 0 && !result.timedOut, None, level, kind, meta)
  }

  /** toErrorOutput */
  function ErrorOutput(message: string, level: Level, kind: string, containment: Option<Error>,
                       soft: seq<string>): Output {
    if containment.Some? then Output(false, Some(message), None, kind,
      Meta(None, kind, true, Containment(containment.value) + soft))
    else Output(false, Some(message), level, kind, Meta(level, kind, soft != [], soft))
  }

  /** A reason for every soft failure, in the order of the attempts. */
  function SoftReasons(fails: Failures): seq<string> {
    (if fails(CloseProxy).Some? then ["proxy close failed: " + fails(CloseProxy).value.message] else [])
    + if fails(RemoveSessionDir).Some? then ["session dir removal failed: " + fails(RemoveSessionDir).value.message]
      else []
  }

  // ---- The runner ---------------------------------------------------------------------------------

  datatype Prepared = Ready | Refused(output: Output, error: Error)

  class Runner {
    const fails: Failures
    const level: Level
    const kind: string
    const result: BackendResult
    /** Every operation that has been attempted. */
    var log: seq<Op>

    constructor (fails: Failures, level: Level, kind: string, result: BackendResult)
      ensures this.fails == fails && this.level == level && this.kind == kind && this.result == result && log == []
    {
      this.fails, this.level, this.kind, this.result, log := fails, level, kind, result, [];
    }

    /** toErrorOutput for a preparation that failed, perhaps before there was a backend. */
    function RefusedOutput(message: string): Output {
      ErrorOutput(message, if Selected(fails) then level else None, if Selected(fails) then kind else "none", None, [])
    }

    method Attempt(op: Op) returns (e: Option<Error>)
      modifies this`log
      ensures e == fails(op) && log == old(log) + [op]
    {
      log := log + [op];
      e := fails(op);
    }

    /** A run of statements; the first that throws ends it. */
    method AttemptAll(ops: seq<Op>) returns (e: Option<Error>)
      modifies this`log
      ensures e == FirstError(fails, ops) && log == old(log) + Attempted(fails, ops)
    {
      hide Attempted, FirstError;
      ghost var log0 := log;
      assert ops[0..] == ops;
      for i := 0 to |ops|
        invariant FirstError(fails, ops) == FirstError(fails, ops[i..])
        invariant log + Attempted(fails, ops[i..]) == log0 + Attempted(fails, ops)
      {
        AttemptedStep(fails, ops, i);
        Logged(log, ops[i], if fails(ops[i]).Some? then [] else Attempted(fails, ops[i + 1..]));
        e := Attempt(ops[i]);
        if e.Some? { return; }
      }
      NothingAttempted(fails, ops[|ops|..], log);
      e := None;
    }

    /** The teardown statements of a failed preparation; what they throw is dropped. */
    method Undo(haveBackend: bool, haveProxy: bool, haveDir: bool)
      modifies this`log
      ensures log == old(log) + Undone(haveBackend, haveProxy, haveDir)
    {
      if haveBackend { var ignored := Attempt(Cleanup); }
      if haveProxy { var ignored := Attempt(CloseProxy); }
      if haveDir { var ignored := Attempt(RemoveSessionDir); }
    }

    /** prepareSession, with its own teardown when it fails. */
    method PrepareSession() returns (r: Prepared)
      modifies this`log
      ensures r.Ready? <==> IsPrepared(fails)
      ensures log == old(log) + Attempted(fails, Preparation()) + if r.Ready? then [] else Teardown(fails)
      ensures r.Refused? ==> FirstError(fails, Preparation()) == Some(r.error)
      ensures r.Refused? ==> r.output == RefusedOutput(r.error.message)
    {
      hide Attempted, FirstError, Preparation, Undone;
      PreparationParts(fails);
      var haveBackend, haveDir, haveProxy := false, false, false;
      var e := AttemptAll(BEFORE_BACKEND);
      if e.None? {
        haveBackend := true;
        e := AttemptAll(BEFORE_DIR);
        if e.None? {
          haveDir := true;
          e := Attempt(LaunchProxy);
          if e.None? {
            haveProxy := true;
            e := AttemptAll(BEFORE_PREPARED);
            if e.None? { return Ready; }
          }
        }
      }
      Undo(haveBackend, haveProxy, haveDir);
      r := Refused(ErrorOutput(e.value.message, if haveBackend then level else None, if haveBackend then kind
        else "none", None, []), e.value);
    }

    /** The cleanup of a run: containment failures apart from soft ones. */
    method TearDown() returns (containment: Option<Error>, soft: seq<string>)
      modifies this`log
      ensures log == old(log) + ([Cleanup] + [CloseProxy] + [RemoveSessionDir])
      ensures containment == fails(Cleanup) && soft == SoftReasons(fails)
    {
      soft := [];
      containment := Attempt(Cleanup);
      var e := Attempt(CloseProxy);
      if e.Some? { soft := soft + ["proxy close failed: " + e.value.message]; }
      e := Attempt(RemoveSessionDir);
      if e.Some? { soft := soft + ["session dir removal failed: " + e.value.message]; }
      assert soft == SoftReasons(fails);
    }

    /** run */
    method Run() returns (o: Output)
      modifies this`log
      ensures log == old(log) + RunLog(fails)
      ensures !IsPrepared(fails) ==> !o.success && o.error.Some?
      ensures IsPrepared(fails) ==> o == AfterRun(fails, result, level, kind)
      ensures IsPrepared(fails) && fails(Cleanup).Some?
        ==> !o.success && o.level == o.meta.level == None && o.meta.degraded
      ensures IsPrepared(fails) && fails(Cleanup).None? ==>
        && o.level == level
        && (o.success <==> o.error.None? && result.exitCode == 0 && !result.timedOut)
        && o.meta.level == (if o.error.Some? then level else result.meta.level)
        && o.meta.reasons == (if o.error.Some? then [] else result.meta.reasons) + SoftReasons(fails)
    {
      if IsPrepared(fails) { ContainmentDowngrades(fails, result, level, kind); }
      hide Attempted, FirstError, Preparation, SoftReasons, Teardown, IsPrepared, Downgraded;
      var session := PrepareSession();
      if session.Refused? { return session.output; }
      var runError := AttemptAll([BuildSpec, RunBackend]);
      var containment, soft := TearDown();
      TeardownOfPrepared(fails);
      if runError.Some? {
        o := ErrorOutput(runError.value.message, level, kind, containment, soft);
      } else {
        o := RunOutput(result, level, kind, containment, soft);
      }
    }

    /** The part of spawn before a session exists. */
    method Spawn() returns (e: Option<Error>)
      modifies this`log
      ensures log == old(log) + SpawnLog(fails)
      ensures e.None? <==> IsPrepared(fails) && FirstError(fails, [BuildSpec, SpawnBackend]).None?
      ensures IsPrepared(fails) ==> e == FirstError(fails, [BuildSpec, SpawnBackend])
    {
      hide Attempted, FirstError, Preparation;
      var session := PrepareSession();
      if session.Refused? { return Some(session.error); }
      e := AttemptAll([BuildSpec, SpawnBackend]);
      if e.Some? {
        TeardownOfPrepared(fails);
        var ignored := Attempt(Cleanup);
        ignored := Attempt(CloseProxy);
        ignored := Attempt(RemoveSessionDir);
      }
    }
  }

  lemma PreparationParts(fails: Failures)
    ensures Attempted(fails, Preparation()) ==
      Attempted(fails, BEFORE_BACKEND)
      + if !Selected(fails) then []
        else Attempted(fails, BEFORE_DIR)
             + if !DirMade(fails) then []
               else [LaunchProxy] + if !Launched(fails) then [] else Attempted(fails, BEFORE_PREPARED)
    ensures FirstError(fails, Preparation()) ==
      if !Selected(fails) then FirstError(fails, BEFORE_BACKEND)
      else if !DirMade(fails) then FirstError(fails, BEFORE_DIR)
      else if !Launched(fails) then fails(LaunchProxy)
      else FirstError(fails, BEFORE_PREPARED)
  {
    hide Attempted, FirstError;
    AttemptedConcat(fails, BEFORE_BACKEND + BEFORE_DIR + [LaunchProxy], BEFORE_PREPARED);
    AttemptedConcat(fails, BEFORE_BACKEND + BEFORE_DIR, [LaunchProxy]);
    AttemptedConcat(fails, BEFORE_BACKEND, BEFORE_DIR);
    AttemptedOne(fails, LaunchProxy);
  }

  lemma TeardownOfPrepared(fails: Failures)
    requires IsPrepared(fails)
    ensures Teardown(fails) == [Cleanup] + [CloseProxy] + [RemoveSessionDir]
  {
    hide FirstError;
  }

  /** Everything one run attempts. */
  function RunLog(fails: Failures): seq<Op> {
    Attempted(fails, Preparation()) + (if IsPrepared(fails) then Attempted(fails, [BuildSpec, RunBackend]) else [])
      + Teardown(fails)
  }

  function SpawnLog(fails: Failures): seq<Op> {
    Attempted(fails, Preparation())
    + (if IsPrepared(fails) then Attempted(fails, [BuildSpec, SpawnBackend]) else [])
    + if IsPrepared(fails) && FirstError(fails, [BuildSpec, SpawnBackend]).None? then [] else Teardown(fails)
  }

  // ---- Every resource is given back once, in order ------------------------------------------------

  predicate IsTeardown(op: Op) { op == Cleanup || op == CloseProxy || op == RemoveSessionDir }

  lemma {:induction false} AttemptedAreFrom(fails: Failures, ops: seq<Op>, op: Op)
    ensures op in Attempted(fails, ops) ==> op in ops
  {
    if ops != [] { AttemptedAreFrom(fails, ops[1..], op); }
  }

  /** An operation of a list was attempted, and did not throw. */
  predicate Succeeded(fails: Failures, ops: seq<Op>, op: Op) { op in Attempted(fails, ops) && fails(op).None? }

  lemma {:induction false} LastSucceeded(fails: Failures, ops: seq<Op>)
    requires ops != []
    ensures FirstError(fails, ops).None? ==> Succeeded(fails, ops, ops[|ops| - 1])
    ensures (forall i :: 0 <= i < |ops| - 1 ==> ops[i] != ops[|ops| - 1]) && Succeeded(fails, ops, ops[|ops| - 1])
            ==> FirstError(fails, ops).None?
  {
    var last := ops[|ops| - 1];
    if |ops| == 1 {
      AttemptedOne(fails, last);
      assert ops == [last];
    } else {
      LastSucceeded(fails, ops[1..]);
      assert forall i :: 0 <= i < |ops| - 2 ==> ops[1..][i] == ops[i + 1];
      assert ops[1..][|ops| - 2] == last;
    }
  }

  lemma PreparationKeepsNothing(fails: Failures, op: Op)
    requires IsTeardown(op)
    ensures op !in Attempted(fails, Preparation()) && op !in Attempted(fails, [BuildSpec, RunBackend])
    ensures op !in Attempted(fails, [BuildSpec, SpawnBackend])
  {
    hide Attempted;
    AttemptedAreFrom(fails, Preparation(), op);
    AttemptedAreFrom(fails, [BuildSpec, RunBackend], op);
    AttemptedAreFrom(fails, [BuildSpec, SpawnBackend], op);
  }

  /**
   * For every failure pattern a run ends with its teardown: the backend, once selected, is cleaned
   * up exactly once; then the proxy, once launched, is closed once; then the session directory,
   * once made, is removed once; and nothing of the kind is done earlier.
   */
  lemma RunTearsDownOnce(fails: Failures)
    ensures var log, n := RunLog(fails), |Teardown(fails)|;
      && log[|log| - n..] == Teardown(fails)
      && (forall i :: 0 <= i < |log| - n ==> !IsTeardown(log[i]))
      && (Cleanup in log <==> SelectBackend in log && fails(SelectBackend).None?)
      && (CloseProxy in log <==> LaunchProxy in log && fails(LaunchProxy).None?)
      && (RemoveSessionDir in log <==> MakeSessionDir in log && fails(MakeSessionDir).None?)
  {
    hide Attempted, FirstError, Teardown;
    var log, tail := RunLog(fails), Teardown(fails);
    var head := Attempted(fails, Preparation()) + if IsPrepared(fails) then Attempted(fails, [BuildSpec, RunBackend])
      else [];
    assert log == head + tail;
    forall i | 0 <= i < |head| ensures !IsTeardown(log[i]) {
      assert log[i] == head[i] && head[i] in head;
      if IsTeardown(head[i]) { PreparationKeepsNothing(fails, head[i]); }
    }
    TeardownMembers(fails);
    ResourceOps(fails);
    NotInSpec(fails);
    PreparationKeepsNothing(fails, Cleanup);
    PreparationKeepsNothing(fails, CloseProxy);
    PreparationKeepsNothing(fails, RemoveSessionDir);
  }

  lemma TeardownMembers(fails: Failures)
    ensures var t := Teardown(fails);
      && (Cleanup in t <==> Selected(fails)) && (CloseProxy in t <==> Launched(fails))
        && (RemoveSessionDir in t <==> DirMade(fails))
      && SelectBackend !in t && LaunchProxy !in t && MakeSessionDir !in t
  {
    hide FirstError;
  }

  lemma NotInSpec(fails: Failures)
    ensures var s := Attempted(fails, [BuildSpec, RunBackend]);
      SelectBackend !in s && LaunchProxy !in s && MakeSessionDir !in s
  {
    hide Attempted;
    AttemptedAreFrom(fails, [BuildSpec, RunBackend], SelectBackend);
    AttemptedAreFrom(fails, [BuildSpec, RunBackend], LaunchProxy);
    AttemptedAreFrom(fails, [BuildSpec, RunBackend], MakeSessionDir);
  }

  /** Having got a resource is having got past the operation that makes it. */
  lemma ResourceOps(fails: Failures)
    ensures Selected(fails) <==> Succeeded(fails, Preparation(), SelectBackend)
    ensures DirMade(fails) <==> Succeeded(fails, Preparation(), MakeSessionDir)
    ensures Launched(fails) <==> Succeeded(fails, Preparation(), LaunchProxy)
  {
    hide Attempted, FirstError, Preparation;
    PreparationParts(fails);
    LastSucceeded(fails, BEFORE_BACKEND);
    LastSucceeded(fails, BEFORE_DIR);
    assert BEFORE_BACKEND[5] == SelectBackend && BEFORE_DIR[4] == MakeSessionDir;
    OnlyThere(fails);
  }

  lemma OnlyThere(fails: Failures)
    ensures SelectBackend !in Attempted(fails, BEFORE_DIR) && SelectBackend !in Attempted(fails, BEFORE_PREPARED)
    ensures MakeSessionDir !in Attempted(fails, BEFORE_BACKEND) && MakeSessionDir !in Attempted(fails, BEFORE_PREPARED)
    ensures LaunchProxy !in Attempted(fails, BEFORE_BACKEND) && LaunchProxy !in Attempted(fails, BEFORE_DIR)
    ensures LaunchProxy !in Attempted(fails, BEFORE_PREPARED)
  {
    hide Attempted;
    AttemptedAreFrom(fails, BEFORE_DIR, SelectBackend);
    AttemptedAreFrom(fails, BEFORE_PREPARED, SelectBackend);
    AttemptedAreFrom(fails, BEFORE_BACKEND, MakeSessionDir);
    AttemptedAreFrom(fails, BEFORE_PREPARED, MakeSessionDir);
    AttemptedAreFrom(fails, BEFORE_BACKEND, LaunchProxy);
    AttemptedAreFrom(fails, BEFORE_DIR, LaunchProxy);
    AttemptedAreFrom(fails, BEFORE_PREPARED, LaunchProxy);
  }

  /** What run returns once the preparation has succeeded. */
  function AfterRun(fails: Failures, result: BackendResult, level: Level, kind: string): Output {
    var e := FirstError(fails, [BuildSpec, RunBackend]);
    if e.Some? then ErrorOutput(e.value.message, level, kind, fails(Cleanup), SoftReasons(fails))
    else RunOutput(result, level, kind, fails(Cleanup), SoftReasons(fails))
  }

  /** What the caller is told of the isolation: a cleanup that failed leaves none, a soft failure keeps the level. */
  lemma ContainmentDowngrades(fails: Failures, result: BackendResult, level: Level, kind: string)
    ensures var o := AfterRun(fails, result, level, kind);
      && (o.error.Some? <==> FirstError(fails, [BuildSpec, RunBackend]).Some?)
      && (fails(Cleanup).Some? ==> !o.success && o.level == o.meta.level == None && o.meta.degraded)
      && (fails(Cleanup).None? ==>
           && o.level == level
           && (o.success <==> o.error.None? && result.exitCode == 0 && !result.timedOut)
           && o.meta.level == (if o.error.Some? then level else result.meta.level)
           && o.meta.reasons == (if o.error.Some? then [] else result.meta.reasons) + SoftReasons(fails))
      && (SoftReasons(fails) != [] ==> o.meta.degraded)
  {
    hide FirstError, SoftReasons;
    assert result.meta.reasons + [] == result.meta.reasons && [] + SoftReasons(fails) == SoftReasons(fails);
  }

  // ---- A spawn gives back what it keeps ------------------------------------------------------------------

  const CLOSE_LOG: seq<Op> := [CloseProcess, Cleanup, CloseProxy, RemoveSessionDir, AwaitExit]

  predicate IsSpawned(fails: Failures) { IsPrepared(fails) && FirstError(fails, [BuildSpec, SpawnBackend]).None? }

  /** A spawn and, when it gave a session, the first close of that session. */
  function LifeLog(fails: Failures): seq<Op> { SpawnLog(fails) + if IsSpawned(fails) then CLOSE_LOG else [] }

  function TeardownsOf(log: seq<Op>): seq<Op> {
    if log == [] then [] else (if IsTeardown(log[0]) then [log[0]] else []) + TeardownsOf(log[1..])
  }

  lemma {:induction false} TeardownsOfConcat(a: seq<Op>, b: seq<Op>)
    ensures TeardownsOf(a + b) == TeardownsOf(a) + TeardownsOf(b)
  {
    if a == [] {
      assert a + b == b;
    } else {
      assert (a + b)[1..] == a[1..] + b;
      TeardownsOfConcat(a[1..], b);
    }
  }

  lemma {:induction false} NoTeardowns(log: seq<Op>)
    requires forall i :: 0 <= i < |log| ==> !IsTeardown(log[i])
    ensures TeardownsOf(log) == []
  {
    if log != [] { NoTeardowns(log[1..]); }
  }

  lemma TeardownsOfFive(a: Op, b: Op, c: Op, d: Op, e: Op)
    requires !IsTeardown(a) && IsTeardown(b) && IsTeardown(c) && IsTeardown(d) && !IsTeardown(e)
    ensures TeardownsOf([a, b, c, d, e]) == [b, c, d]
  {
    hide IsTeardown;
    assert [a, b, c, d, e][1..] == [b, c, d, e] && [b, c, d, e][1..] == [c, d, e] && [c, d, e][1..] == [d, e];
    TeardownsOfTwo(d, e);
    assert TeardownsOf([c, d, e]) == [c] + [d];
    assert TeardownsOf([b, c, d, e]) == [b] + ([c] + [d]);
    assert TeardownsOf([a, b, c, d, e]) == [] + TeardownsOf([b, c, d, e]);
  }

  lemma TeardownsOfTwo(d: Op, e: Op)
    requires IsTeardown(d) && !IsTeardown(e)
    ensures TeardownsOf([d, e]) == [d]
  {
    hide IsTeardown;
    assert [d, e][1..] == [e] && [e][1..] == [];
    assert TeardownsOf([e]) == [] + TeardownsOf([]);
    assert TeardownsOf([d, e]) == [d] + TeardownsOf([e]);
  }

  lemma TeardownsAfter(head: seq<Op>, tail: seq<Op>)
    requires forall i :: 0 <= i < |head| ==> !IsTeardown(head[i])
    ensures TeardownsOf(head + tail) == TeardownsOf(tail)
  {
    hide *;
    NoTeardowns(head);
    TeardownsOfConcat(head, tail);
    assert [] + TeardownsOf(tail) == TeardownsOf(tail);
  }

  lemma TeardownsOfUndone(backend: bool, proxy: bool, dir: bool)
    ensures TeardownsOf(Undone(backend, proxy, dir)) == Undone(backend, proxy, dir)
  {
    hide TeardownsOf;
    var a, b, c := if backend then [Cleanup] else [], if proxy then [CloseProxy] else [], if dir
      then [RemoveSessionDir] else [];
    TeardownsOfConcat(a + b, c);
    TeardownsOfConcat(a, b);
    TeardownsOfOne(Cleanup);
    TeardownsOfOne(CloseProxy);
    TeardownsOfOne(RemoveSessionDir);
    NoTeardowns([]);
  }

  lemma TeardownsOfOne(op: Op)
    requires IsTeardown(op)
    ensures TeardownsOf([op]) == [op]
  {
    assert [op][1..] == [];
  }

  /**
   * For every failure pattern: a spawn that fails gives back what it acquired, each resource once
   * and in order, after everything else; one that succeeds gives nothing back, and the first close
   * of its session does all of it, the backend first.
   */
  lemma SpawnTearsDownOnce(fails: Failures)
    ensures TeardownsOf(LifeLog(fails)) == Teardown(fails)
    ensures IsSpawned(fails) ==>
      TeardownsOf(SpawnLog(fails)) == [] && Teardown(fails) == [Cleanup] + [CloseProxy] + [RemoveSessionDir]
    ensures !IsSpawned(fails) ==>
      var log, n := SpawnLog(fails), |Teardown(fails)|;
      log[|log| - n..] == Teardown(fails) && forall i :: 0 <= i < |log| - n ==> !IsTeardown(log[i])
    ensures var log := LifeLog(fails);
      && (Cleanup in log <==> SelectBackend in log && fails(SelectBackend).None?)
      && (CloseProxy in log <==> LaunchProxy in log && fails(LaunchProxy).None?)
      && (RemoveSessionDir in log <==> MakeSessionDir in log && fails(MakeSessionDir).None?)
  {
    hide *;
    var head := SpawnStart(fails);
    SpawnHead(fails, head);
    SpawnInParts(fails);
    LifeIsTornDown(fails, head);
    LifeMembers(fails, head);
    if !IsSpawned(fails) { AfterHead(head, Teardown(fails)); }
  }

  /** What a spawn attempts before any teardown. */
  function SpawnStart(fails: Failures): seq<Op> {
    Attempted(fails, Preparation()) + if IsPrepared(fails) then Attempted(fails, [BuildSpec, SpawnBackend]) else []
  }

  lemma SpawnInParts(fails: Failures)
    ensures SpawnLog(fails) == SpawnStart(fails) + if IsSpawned(fails) then [] else Teardown(fails)
    ensures LifeLog(fails) == SpawnStart(fails) + if IsSpawned(fails) then CLOSE_LOG else Teardown(fails)
    ensures IsSpawned(fails) ==> IsPrepared(fails)
  {
    hide Attempted, FirstError, Preparation, IsPrepared, Teardown;
  }

  lemma AfterHead(head: seq<Op>, tail: seq<Op>)
    requires forall i :: 0 <= i < |head| ==> !IsTeardown(head[i])
    ensures (head + tail)[|head + tail| - |tail|..] == tail
    ensures forall i :: 0 <= i < |head + tail| - |tail| ==> !IsTeardown((head + tail)[i])
  {
    hide IsTeardown;
  }

  lemma LifeIsTornDown(fails: Failures, head: seq<Op>)
    requires head == SpawnStart(fails) && forall i :: 0 <= i < |head| ==> !IsTeardown(head[i])
    ensures TeardownsOf(LifeLog(fails)) == Teardown(fails)
    ensures IsSpawned(fails) ==>
      TeardownsOf(SpawnLog(fails)) == [] && Teardown(fails) == [Cleanup] + [CloseProxy] + [RemoveSessionDir]
  {
    SpawnInParts(fails);
    if IsSpawned(fails) {
      TeardownOfPrepared(fails);
      hide *;
      TeardownsOfFive(CloseProcess, Cleanup, CloseProxy, RemoveSessionDir, AwaitExit) by { assert IsTeardown(Cleanup); }
      TeardownsAfter(head, CLOSE_LOG);
      TeardownsAfter(head, []);
      NoTeardowns([]);
    } else {
      TeardownsOfUndone(Selected(fails), Launched(fails), DirMade(fails));
      assert Teardown(fails) == Undone(Selected(fails), Launched(fails), DirMade(fails));
      hide *;
      TeardownsAfter(head, Teardown(fails));
    }
  }

  lemma InLog(head: seq<Op>, tail: seq<Op>, op: Op)
    ensures op in head + tail <==> op in head || op in tail
  {
  }

  lemma InClose(op: Op)
    ensures op in CLOSE_LOG <==> IsTeardown(op) || op == CloseProcess || op == AwaitExit
  {
  }

  lemma LifeMembers(fails: Failures, head: seq<Op>)
    requires head == SpawnStart(fails)
    ensures var log := LifeLog(fails);
      && (Cleanup in log <==> SelectBackend in log && fails(SelectBackend).None?)
      && (CloseProxy in log <==> LaunchProxy in log && fails(LaunchProxy).None?)
      && (RemoveSessionDir in log <==> MakeSessionDir in log && fails(MakeSessionDir).None?)
  {
    if IsSpawned(fails) { AllAcquired(fails); }
    hide Attempted, FirstError, Preparation, IsPrepared, Teardown, IsSpawned, LifeLog, SpawnStart, Selected, Launched,
      DirMade;
    SpawnHead(fails, head);
    SpawnInParts(fails);
    TeardownMembers(fails);
    ResourceOps(fails);
    var tail := if IsSpawned(fails) then CLOSE_LOG else Teardown(fails);
    forall op ensures op in LifeLog(fails) <==> op in head || op in tail { InLog(head, tail, op); }
    InClose(Cleanup); InClose(CloseProxy); InClose(RemoveSessionDir);
    InClose(SelectBackend); InClose(LaunchProxy); InClose(MakeSessionDir);
  }

  lemma AllAcquired(fails: Failures)
    requires IsPrepared(fails)
    ensures Selected(fails) && Launched(fails) && DirMade(fails)
  {
    hide FirstError;
  }

  lemma SpawnHead(fails: Failures, head: seq<Op>)
    requires head == SpawnStart(fails)
    ensures forall i :: 0 <= i < |head| ==> !IsTeardown(head[i])
    ensures Cleanup !in head && CloseProxy !in head && RemoveSessionDir !in head
    ensures SelectBackend in head <==> SelectBackend in Attempted(fails, Preparation())
    ensures LaunchProxy in head <==> LaunchProxy in Attempted(fails, Preparation())
    ensures MakeSessionDir in head <==> MakeSessionDir in Attempted(fails, Preparation())
  {
    hide Attempted, IsPrepared, Preparation;
    forall i | 0 <= i < |head| ensures !IsTeardown(head[i]) {
      assert head[i] in head;
      if IsTeardown(head[i]) { PreparationKeepsNothing(fails, head[i]); }
    }
    PreparationKeepsNothing(fails, Cleanup);
    PreparationKeepsNothing(fails, CloseProxy);
    PreparationKeepsNothing(fails, RemoveSessionDir);
    AttemptedAreFrom(fails, [BuildSpec, SpawnBackend], SelectBackend);
    AttemptedAreFrom(fails, [BuildSpec, SpawnBackend], LaunchProxy);
    AttemptedAreFrom(fails, [BuildSpec, SpawnBackend], MakeSessionDir);
  }

  // ---- A spawned session ------------------------------------------------------------------------------

  function CloseReasons(fails: Failures): seq<string> {
    (if fails(CloseProcess).Some? then ["process close failed: " + fails(CloseProcess).value.message] else [])
      + SoftReasons(fails)
  }

  /** The meta of the child, or of the backend when the child's result is lost. */
  function ExitMeta(fails: Failures, exitMeta: Meta, level: Level, kind: string): Meta {
    if fails(AwaitExit).Some? then Meta(level, kind, false, []) else exitMeta
  }

  class Session {
    const fails: Failures
    const level: Level
    const kind: string
    const exitMeta: Meta
    var log: seq<Op>
    var closeRan: bool
    var firstContainment: Option<Error>
    var resultMeta: Option<Meta>

    /** Before the first close nothing is torn down; afterwards everything is, and its outcome is kept. */
    predicate Valid()
      reads this
    {
      if closeRan then
        && log == CLOSE_LOG
        && firstContainment == fails(Cleanup)
        && resultMeta == Some(Downgraded(ExitMeta(fails, exitMeta, level, kind), fails(Cleanup), CloseReasons(fails)))
      else log == [] && firstContainment == None && resultMeta == None
    }

    constructor (fails: Failures, level: Level, kind: string, exitMeta: Meta)
      ensures Valid() && !closeRan && this.fails == fails && this.level == level && this.kind == kind
        && this.exitMeta == exitMeta
    {
      this.fails, this.level, this.kind, this.exitMeta := fails, level, kind, exitMeta;
      log, closeRan, firstContainment, resultMeta := [], false, None, None;
    }

    method Attempt(op: Op) returns (e: Option<Error>)
      modifies this`log
      ensures e == fails(op) && log == old(log) + [op]
    {
      log := log + [op];
      e := fails(op);
    }

    /** doClose; the thrown error, if any. */
    method Close() returns (thrown: Option<Error>)
      requires Valid()
      modifies this
      ensures Valid() && closeRan && thrown == fails(Cleanup)
      ensures old(closeRan) ==> log == old(log) && resultMeta == old(resultMeta)
    {
      if closeRan { return firstContainment; }
      closeRan := true;
      var soft := [];
      var e := Attempt(CloseProcess);
      if e.Some? { soft := soft + ["process close failed: " + e.value.message]; }
      var containment := Attempt(Cleanup);
      e := Attempt(CloseProxy);
      if e.Some? { soft := soft + ["proxy close failed: " + e.value.message]; }
      e := Attempt(RemoveSessionDir);
      if e.Some? { soft := soft + ["session dir removal failed: " + e.value.message]; }
      assert soft == CloseReasons(fails);
      e := Attempt(AwaitExit);
      var meta := if e.Some? then Meta(level, kind, false, []) else exitMeta;
      firstContainment := containment;
      resultMeta := Some(Downgraded(meta, containment, soft));
      return containment;
    }
  }

  /** Closing any number of times, one after the other: every close gives the outcome of the first. */
  method CloseRepeatedly(s: Session, times: nat) returns (outcomes: seq<Option<Error>>)
    requires s.Valid() && !s.closeRan
    modifies s
    ensures s.Valid() && (s.closeRan <==> times > 0)
    ensures |outcomes| == times && forall i :: 0 <= i < times ==> outcomes[i] == s.fails(Cleanup)
  {
    outcomes := [];
    for i := 0 to times
      invariant s.Valid() && (s.closeRan <==> i > 0)
      invariant |outcomes| == i && forall j :: 0 <= j < i ==> outcomes[j] == s.fails(Cleanup)
    {
      var o := s.Close();
      outcomes := outcomes + [o];
    }
  }
}
