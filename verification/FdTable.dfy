/**
 * Descriptor plumbing of a VM start: the pipes and temporary slots of
 * packages/sandbox-vm-native/src/engine.ts, the file actions and closes of native-binding.ts,
 * and the close of everything above the watermark in vm-helper.c. Foreign calls are modelled by
 * their effect on a table of descriptors. As the source assumes, dup2 of a descriptor onto
 * itself does nothing.
 */
module FdTable {
  /** An open file, and whether exec closes the descriptor. */
  datatype Slot = Slot(file: nat, cloexec: bool)

  type Table = map<nat, Slot>

  const H2G_READ: nat := 3
  const G2H_WRITE: nat := 4
  const ROOTFS: nat := 5
  const STDIO_OUT: nat := 6
  const STDIO_IN: nat := 7
  const WATERMARK: nat := 8
  const DUPFD_MIN: nat := 10

  /** The lowest free descriptor not below `min`, `used` being the open ones. */
  function LowestFree(used: set<nat>, min: nat): (fd: nat)
    ensures fd >= min && fd !in used && forall k :: min <= k < fd ==> k in used
    decreases |From(used, min)|
  {
    if min !in used then min
    else
      assert From(used, min + 1) == From(used, min) - {min};
      LowestFree(used, min + 1)
  }

  function From(used: set<nat>, min: nat): set<nat> { set k | k in used && k >= min }

  /** What a process gets that asks for one descriptor after another, each not below its minimum. */
  function Taken(used: set<nat>, mins: seq<nat>): (l: seq<nat>)
    ensures |l| == |mins|
    decreases |mins|
  {
    if mins == [] then [] else
      var fd := LowestFree(used, mins[0]);
      [fd] + Taken(used + {fd}, mins[1..])
  }

  // ---- What happens in the child ----------------------------------------------------------

  datatype Action = AddDup2(src: nat, target: nat)

  function Dup2(t: Table, a: Action): Table {
    if a.src == a.target || a.src !in t then t else t[a.target := Slot(t[a.src].file, false)]
  }

  function Replayed(t: Table, actions: seq<Action>): Table
    decreases |actions|
  {
    if actions == [] then t else Replayed(Dup2(t, actions[0]), actions[1..])
  }

  function Exec(t: Table): Table { map fd | fd in t && !t[fd].cloexec :: t[fd] }

  /** What is left from the watermark down, and beyond the ceiling when the loop had to do. */
  function Kept(t: Table, low: nat, closeRange: bool, ceiling: nat): Table {
    map fd | fd in t && (fd < low || (!closeRange && fd >= ceiling)) :: t[fd]
  }

  /** The ends and slots of one start. */
  datatype Ends = Ends(
    h2gRead: nat, h2gWrite: nat, g2hRead: nat, g2hWrite: nat,
    tempH2g: nat, tempG2h: nat, tempRootfs: nat,
    stdoutRead: nat, stdoutWrite: nat, stderrRead: nat, stderrWrite: nat, consInRead: nat, consInWrite: nat)

  function Actions(e: Ends): (acts: seq<Action>)
    ensures |acts| == 7
  {
    [AddDup2(e.tempH2g, H2G_READ), AddDup2(e.tempG2h, G2H_WRITE), AddDup2(e.tempRootfs, ROOTFS),
     AddDup2(e.stdoutWrite, 1), AddDup2(e.stderrWrite, 2), AddDup2(e.stdoutWrite, STDIO_OUT),
       AddDup2(e.consInRead, STDIO_IN)]
  }

  /** The descriptors handed to the child and the files they stand for. */
  ghost predicate Ready(t: Table, e: Ends) {
    && e.tempH2g in t && e.tempG2h in t && e.tempRootfs in t && e.stdoutWrite in t && e.stderrWrite in t
      && e.consInRead in t
    && e.tempH2g >= DUPFD_MIN && e.tempG2h >= DUPFD_MIN && e.tempRootfs >= DUPFD_MIN
    && t[e.stdoutWrite].cloexec && t[e.stderrWrite].cloexec && t[e.consInRead].cloexec
    && DifferentFiles(t[e.tempH2g].file, t[e.tempG2h].file, t[e.tempRootfs].file, t[e.stdoutWrite].file,
      t[e.stderrWrite].file,
                      t[e.consInRead].file)
  }

  predicate DifferentFiles(a: nat, b: nat, c: nat, d: nat, e: nat, f: nat) {
    && a != b && a != c && a != d && a != e && a != f && b != c && b != d && b != e && b != f
    && c != d && c != e && c != f && d != e && d != f && e != f
  }

  predicate OpenOn(t: Table, fd: nat, file: nat) { fd in t && t[fd] == Slot(file, false) }

  /** Descriptors 1 to 7 are the two output pipes, the control pipes, the root image and the stdio port. */
  predicate Wired(child: Table, t: Table, e: Ends)
    requires e.tempH2g in t && e.tempG2h in t && e.tempRootfs in t && e.stdoutWrite in t && e.stderrWrite in t
      && e.consInRead in t
  {
    && OpenOn(child, 1, t[e.stdoutWrite].file) && OpenOn(child, 2, t[e.stderrWrite].file)
    && OpenOn(child, H2G_READ, t[e.tempH2g].file) && OpenOn(child, G2H_WRITE, t[e.tempG2h].file)
    && OpenOn(child, ROOTFS, t[e.tempRootfs].file)
    && OpenOn(child, STDIO_OUT, t[e.stdoutWrite].file) && OpenOn(child, STDIO_IN, t[e.consInRead].file)
  }

  /** No stdio pipe end sits on a descriptor that the actions fill before, or while, they use it. */
  predicate EndsAreClear(e: Ends) {
    && !(1 <= e.stdoutWrite <= STDIO_OUT) && !(1 <= e.stderrWrite <= ROOTFS) && !(1 <= e.consInRead <= STDIO_IN)
  }

  lemma ReplayedStep(t: Table, actions: seq<Action>, k: nat)
    requires k < |actions|
    ensures Replayed(t, actions[k..]) == Replayed(Dup2(t, actions[k]), actions[k + 1..])
  {
    assert actions[k..][1..] == actions[k + 1..];
  }

  /** The control pipes and the root image: their sources are out of the way of every target. */
  function AfterControl(t: Table, e: Ends): Table {
    Dup2(Dup2(Dup2(t, AddDup2(e.tempH2g, H2G_READ)), AddDup2(e.tempG2h, G2H_WRITE)), AddDup2(e.tempRootfs, ROOTFS))
  }

  function AfterStdio(t: Table, e: Ends): Table {
    Dup2(Dup2(Dup2(Dup2(t, AddDup2(e.stdoutWrite, 1)), AddDup2(e.stderrWrite, 2)), AddDup2(e.stdoutWrite, STDIO_OUT)),
         AddDup2(e.consInRead, STDIO_IN))
  }

  lemma ReplayedInOrder(t: Table, e: Ends)
    ensures Replayed(t, Actions(e)) == AfterStdio(AfterControl(t, e), e)
  {
    hide Dup2, Replayed;
    var acts := Actions(e);
    assert acts[0..] == acts && acts[7..] == [];
    var t1 := Dup2(t, acts[0]);
    var t2 := Dup2(t1, acts[1]);
    var t3 := Dup2(t2, acts[2]);
    var t4 := Dup2(t3, acts[3]);
    var t5 := Dup2(t4, acts[4]);
    var t6 := Dup2(t5, acts[5]);
    ReplayedStep(t, acts, 0);
    ReplayedStep(t1, acts, 1);
    ReplayedStep(t2, acts, 2);
    ReplayedStep(t3, acts, 3);
    ReplayedStep(t4, acts, 4);
    ReplayedStep(t5, acts, 5);
    ReplayedStep(t6, acts, 6);
    NothingReplayed(Dup2(t6, acts[6]));
  }

  lemma NothingReplayed(t: Table)
    ensures Replayed(t, []) == t
  {
  }

  lemma ControlIsWired(t: Table, e: Ends)
    requires Ready(t, e)
    ensures var c := AfterControl(t, e);
      && OpenOn(c, H2G_READ, t[e.tempH2g].file) && OpenOn(c, G2H_WRITE, t[e.tempG2h].file)
        && OpenOn(c, ROOTFS, t[e.tempRootfs].file)
      && c.Keys == t.Keys + {3, 4, 5}
      && forall fd :: fd in t && fd !in {3, 4, 5} ==> c[fd] == t[fd]
  {
  }

  lemma ChildKeepsLow(t: Table, e: Ends, closeRange: bool, ceiling: nat, fd: nat, file: nat)
    requires fd < WATERMARK
    ensures OpenOn(Child(t, e, closeRange, ceiling), fd, file) <==> OpenOn(AfterStdio(AfterControl(t, e), e), fd, file)
  {
    hide AfterStdio, AfterControl;
    ReplayedInOrder(t, e);
  }

  /** The helper's table when it starts to parse its launch spec. */
  function Child(t: Table, e: Ends, closeRange: bool, ceiling: nat): Table {
    Kept(Exec(Replayed(t, Actions(e))), WATERMARK, closeRange, ceiling)
  }

  lemma StdioIsWired(c: Table, e: Ends, out: nat, err: nat, inp: nat)
    requires e.stdoutWrite in c && e.stderrWrite in c && e.consInRead in c && EndsAreClear(e)
    requires c[e.stdoutWrite].file == out && c[e.stderrWrite].file == err && c[e.consInRead].file == inp
    ensures var s := AfterStdio(c, e);
      && OpenOn(s, 1, out) && OpenOn(s, 2, err) && OpenOn(s, STDIO_OUT, out) && OpenOn(s, STDIO_IN, inp)
      && forall fd :: fd in {3, 4, 5} && fd in c ==> fd in s && s[fd] == c[fd]
  {
  }

  /** What goes wrong otherwise: some descriptor of the child is closed by exec or is another file. */
  lemma StdioIsNotWired(t: Table, e: Ends)
    requires Ready(t, e) && !EndsAreClear(e)
    ensures var s, out, err, inp := AfterStdio(AfterControl(t, e), e), t[e.stdoutWrite].file, t[e.stderrWrite].file,
      t[e.consInRead].file;
      !(OpenOn(s, 1, out) && OpenOn(s, 2, err) && OpenOn(s, STDIO_OUT, out) && OpenOn(s, STDIO_IN, inp))
  {
    hide AfterControl;
    ControlIsWired(t, e);
  }

  /** The child has the intended files on descriptors 1 to 7 exactly when the stdio ends are clear of them. */
  lemma ChildIsWired(t: Table, e: Ends, closeRange: bool, ceiling: nat)
    requires Ready(t, e)
    ensures Wired(Child(t, e, closeRange, ceiling), t, e) <==> EndsAreClear(e)
  {
    hide AfterStdio, AfterControl, Replayed, DifferentFiles, Actions, OpenOn, Child;
    ControlIsWired(t, e);
    var c := AfterControl(t, e);
    var out, err, inp := t[e.stdoutWrite].file, t[e.stderrWrite].file, t[e.consInRead].file;
    ChildKeepsLow(t, e, closeRange, ceiling, 1, out);
    ChildKeepsLow(t, e, closeRange, ceiling, 2, err);
    ChildKeepsLow(t, e, closeRange, ceiling, H2G_READ, t[e.tempH2g].file);
    ChildKeepsLow(t, e, closeRange, ceiling, G2H_WRITE, t[e.tempG2h].file);
    ChildKeepsLow(t, e, closeRange, ceiling, ROOTFS, t[e.tempRootfs].file);
    ChildKeepsLow(t, e, closeRange, ceiling, STDIO_OUT, out);
    ChildKeepsLow(t, e, closeRange, ceiling, STDIO_IN, inp);
    if EndsAreClear(e) {
      StdioIsWired(c, e, out, err, inp);
      KeptOpen(c, AfterStdio(c, e), H2G_READ, t[e.tempH2g].file);
      KeptOpen(c, AfterStdio(c, e), G2H_WRITE, t[e.tempG2h].file);
      KeptOpen(c, AfterStdio(c, e), ROOTFS, t[e.tempRootfs].file);
    } else {
      StdioIsNotWired(t, e);
    }
  }

  lemma KeptOpen(c: Table, s: Table, fd: nat, file: nat)
    requires OpenOn(c, fd, file) && fd in s && s[fd] == c[fd]
    ensures OpenOn(s, fd, file)
  {
  }

  // ---- The processes ----------------------------------------------------------------------------

  class Process {
    var fds: Table
    var nextFile: nat

    /** New files get numbers of their own. */
    ghost predicate Valid()
      reads this
    {
      forall fd :: fd in fds ==> fds[fd].file < nextFile
    }

    constructor (fds: Table, nextFile: nat)
      ensures this.fds == fds && this.nextFile == nextFile
    {
      this.fds, this.nextFile := fds, nextFile;
    }

    /** A pipe, the read end first; both ends close on exec. */
    method Pipe() returns (r: nat, w: nat)
      requires Valid()
      modifies this
      ensures Valid() && nextFile == old(nextFile) + 2 && r != w && r !in old(fds) && w !in old(fds)
      ensures r == LowestFree(old(fds).Keys, 0) && w == LowestFree(old(fds).Keys + {r}, 0)
      ensures fds == old(fds)[r := Slot(old(nextFile), true)][w := Slot(old(nextFile) + 1, true)]
    {
      r := LowestFree(fds.Keys, 0);
      fds := fds[r := Slot(nextFile, true)];
      assert fds.Keys == old(fds).Keys + {r};
      w := LowestFree(fds.Keys, 0);
      fds := fds[w := Slot(nextFile + 1, true)];
      nextFile := nextFile + 2;
    }

    /** fcntl(F_DUPFD_CLOEXEC) */
    method DupCloexec(src: nat, min: nat) returns (fd: nat)
      requires Valid() && src in fds
      modifies this`fds
      ensures Valid() && fd == LowestFree(old(fds).Keys, min) && fds == old(fds)[fd := Slot(old(fds)[src].file, true)]
    {
      fd := LowestFree(fds.Keys, min);
      fds := fds[fd := Slot(fds[src].file, true)];
    }

    method Close(fd: nat)
      requires Valid()
      modifies this`fds
      ensures Valid() && fds == old(fds) - {fd}
    {
      fds := fds - {fd};
    }

    /** mass_close_fds: one call where the kernel has it, otherwise a loop up to the resource limit. */
    method MassClose(low: nat, closeRange: bool, ceiling: nat)
      requires Valid()
      modifies this`fds
      ensures Valid() && fds == Kept(old(fds), low, closeRange, ceiling)
    {
      if closeRange {
        fds := map fd | fd in fds && fd < low :: fds[fd];
        return;
      }
      var fd := low;
      assert fds == map k | k in fds :: fds[k];
      while fd < ceiling
        invariant low <= fd && (fd <= ceiling || fd == low)
        invariant Valid() && fds == map k | k in old(fds) && (k < low || k >= fd) :: old(fds)[k]
      {
        Close(fd);
        fd := fd + 1;
      }
    }

    /** posix_spawn: the actions are replayed in the child's copy of the table, then exec. */
    method Spawn(actions: seq<Action>) returns (child: Process)
      requires Valid()
      ensures fresh(child) && child.Valid() && child.fds == Exec(Replayed(fds, actions))
    {
      child := new Process(fds, nextFile);
      assert actions[0..] == actions;
      for k := 0 to |actions|
        invariant child.Valid() && fresh(child) && Replayed(child.fds, actions[k..]) == Replayed(fds, actions)
      {
        ReplayedStep(child.fds, actions, k);
        child.fds := Dup2(child.fds, actions[k]);
      }
      assert actions[|actions|..] == [];
      child.fds := Exec(child.fds);
    }

    /** The control pipes, and the temporary slots for what the child gets of them and for the root image. */
    method AllocateControl(rootfs: nat) returns (l: seq<nat>)
      requires Valid() && rootfs in fds
      modifies this
      ensures Valid() && nextFile == old(nextFile) + 4 && l == Taken(old(fds).Keys, CONTROL_MINS)
        && FreshList(old(fds), l)
      ensures fds == Opened(old(fds), l, ControlFiles(old(nextFile), old(fds)[rootfs].file))
    {
      hide Opened, FreshList, Taken, LowestFree;
      ghost var t, n, f := fds, nextFile, fds[rootfs].file;
      var h2gRead, h2gWrite := Pipe();
      NoneOpened(t);
      PipeOpened(t, [], [], [], h2gRead, h2gWrite, n);
      var g2hRead, g2hWrite := Pipe();
      PipeOpened(t, [0, 0], [h2gRead, h2gWrite], [n, n + 1], g2hRead, g2hWrite, n + 2);
      ghost var l4 := [h2gRead, h2gWrite] + [g2hRead, g2hWrite];
      var tempH2g := DupCloexec(h2gRead, DUPFD_MIN);
      OneOpened(t, [0, 0] + [0, 0], l4, [n, n + 1] + [n + 2, n + 3], DUPFD_MIN, tempH2g, n);
      var tempG2h := DupCloexec(g2hWrite, DUPFD_MIN);
      OneOpened(t, [0, 0] + [0, 0] + [DUPFD_MIN], l4 + [tempH2g], [n, n + 1] + [n + 2, n + 3] + [n], DUPFD_MIN,
        tempG2h, n + 3);
      var tempRootfs := DupCloexec(rootfs, DUPFD_MIN);
      OneOpened(t, [0, 0] + [0, 0] + [DUPFD_MIN] + [DUPFD_MIN], l4 + [tempH2g] + [tempG2h],
                [n, n + 1] + [n + 2, n + 3] + [n] + [n + 3], DUPFD_MIN, tempRootfs, f);
      l := [h2gRead, h2gWrite, g2hRead, g2hWrite, tempH2g, tempG2h, tempRootfs];
      SevenInParts(h2gRead, h2gWrite, g2hRead, g2hWrite, tempH2g, tempG2h, tempRootfs);
      SevenInParts(0, 0, 0, 0, DUPFD_MIN, DUPFD_MIN, DUPFD_MIN);
      SevenInParts(n, n + 1, n + 2, n + 3, n, n + 3, f);
    }

    /** The three stdio pipes of the binding. */
    method AllocateStdio() returns (l: seq<nat>)
      requires Valid()
      modifies this
      ensures Valid() && l == Taken(old(fds).Keys, STDIO_MINS) && FreshList(old(fds), l)
      ensures fds == Opened(old(fds), l, StdioFiles(old(nextFile)))
    {
      hide Opened, FreshList, Taken, LowestFree;
      ghost var t, n := fds, nextFile;
      var stdoutRead, stdoutWrite := Pipe();
      NoneOpened(t);
      PipeOpened(t, [], [], [], stdoutRead, stdoutWrite, n);
      var stderrRead, stderrWrite := Pipe();
      PipeOpened(t, [0, 0], [stdoutRead, stdoutWrite], [n, n + 1], stderrRead, stderrWrite, n + 2);
      var consInRead, consInWrite := Pipe();
      ghost var l4 := [stdoutRead, stdoutWrite] + [stderrRead, stderrWrite];
      PipeOpened(t, [0, 0] + [0, 0], l4, [n, n + 1] + [n + 2, n + 3], consInRead, consInWrite, n + 4);
      l := [stdoutRead, stdoutWrite, stderrRead, stderrWrite, consInRead, consInWrite];
      SixInPairs(stdoutRead, stdoutWrite, stderrRead, stderrWrite, consInRead, consInWrite);
      SixInPairs(n, n + 1, n + 2, n + 3, n + 4, n + 5);
      SixInPairs(0, 0, 0, 0, 0, 0);
    }

    /** The descriptors one start allocates, each the lowest free one when its turn comes. */
    method Allocate(rootfs: nat) returns (e: Ends)
      requires Valid() && rootfs in fds
      modifies this
      ensures Valid() && EndsList(e) == Taken(old(fds).Keys, CONTROL_MINS + STDIO_MINS)
        && FreshList(old(fds), EndsList(e))
      ensures fds == Opened(old(fds), EndsList(e), Files(old(nextFile), old(fds)[rootfs].file))
    {
      hide Opened, FreshList, Taken;
      ghost var t0, file := fds, nextFile;
      var c := AllocateControl(rootfs);
      OpenedLookup(t0, c, ControlFiles(file, t0[rootfs].file));
      assert fds.Keys == t0.Keys + Set(c);
      var s := AllocateStdio();
      e := Ends(c[0], c[1], c[2], c[3], c[4], c[5], c[6], s[0], s[1], s[2], s[3], s[4], s[5]);
      OpenedTogether(t0, c, ControlFiles(file, t0[rootfs].file), s, StdioFiles(file + 4));
      TakenTogether(t0.Keys, CONTROL_MINS, STDIO_MINS);
      assert EndsList(e) == c + s;
    }

    /** The closes after the spawn: the child's ends and the temporary slots. */
    method CloseAll(list: seq<nat>)
      requires Valid()
      modifies this`fds
      ensures Valid() && fds == map fd | fd in old(fds) && fd !in list :: old(fds)[fd]
    {
      assert fds == map fd | fd in fds :: fds[fd];
      for k := 0 to |list|
        invariant Valid() && fds == map fd | fd in old(fds) && fd !in list[..k] :: old(fds)[fd]
      {
        assert list[..k + 1] == list[..k] + [list[k]];
        Close(list[k]);
      }
      assert list[..|list|] == list;
    }
  }

  /** From where each descriptor is taken: the temporary slots from 10 up, every pipe end from 0. */
  const CONTROL_MINS: seq<nat> := [0, 0, 0, 0, DUPFD_MIN, DUPFD_MIN, DUPFD_MIN]
  const STDIO_MINS: seq<nat> := [0, 0, 0, 0, 0, 0]

  function Set(l: seq<nat>): set<nat> { set fd | fd in l }

  lemma SixInPairs(a: nat, b: nat, c: nat, d: nat, e: nat, f: nat)
    ensures [a, b] + [c, d] + [e, f] == [a, b, c, d, e, f]
  {
  }

  lemma SevenInParts(a: nat, b: nat, c: nat, d: nat, e: nat, f: nat, g: nat)
    ensures [a, b] + [c, d] + [e] + [f] + [g] == [a, b, c, d, e, f, g]
  {
  }

  lemma NoneSet()
    ensures Set([]) == {}
  {
  }

  lemma SetOfFirst(used: set<nat>, fd: nat, rest: seq<nat>)
    ensures used + {fd} + Set(rest) == used + Set([fd] + rest)
  {
  }

  /** Asking in two rounds. */
  lemma {:induction false} TakenTogether(used: set<nat>, a: seq<nat>, b: seq<nat>)
    ensures Taken(used, a + b) == Taken(used, a) + Taken(used + Set(Taken(used, a)), b)
    decreases |a|
  {
    hide LowestFree, Set;
    if a == [] {
      assert a + b == b && used + Set([]) == used by { NoneSet(); }
    } else {
      var fd := LowestFree(used, a[0]);
      assert (a + b)[1..] == a[1..] + b;
      TakenTogether(used + {fd}, a[1..], b);
      SetOfFirst(used, fd, Taken(used + {fd}, a[1..]));
    }
  }

  lemma TakenOneMore(used: set<nat>, mins: seq<nat>, min: nat)
    ensures Taken(used, mins + [min]) == Taken(used, mins) + [LowestFree(used + Set(Taken(used, mins)), min)]
  {
    TakenTogether(used, mins, [min]);
    hide LowestFree;
    var now := used + Set(Taken(used, mins));
    assert [min][1..] == [] && [LowestFree(now, min)] + [] == [LowestFree(now, min)];
  }

  function EndsList(e: Ends): (l: seq<nat>)
    ensures |l| == 13
  {
    [e.h2gRead, e.h2gWrite, e.g2hRead, e.g2hWrite, e.tempH2g, e.tempG2h, e.tempRootfs, e.stdoutRead, e.stdoutWrite,
     e.stderrRead, e.stderrWrite, e.consInRead, e.consInWrite]
  }

  /** All on descriptors that were free, and all different. */
  ghost predicate FreshList(t: Table, l: seq<nat>) {
    && (forall i :: 0 <= i < |l| ==> l[i] !in t)
    && forall i, j :: 0 <= i < j < |l| ==> l[i] != l[j]
  }

  /** The table with new descriptors, all closed by exec. */
  function Opened(t: Table, l: seq<nat>, files: seq<nat>): Table
    requires |l| == |files|
    decreases |l|
  {
    if l == [] then t else Opened(t[l[0] := Slot(files[0], true)], l[1..], files[1..])
  }

  /** The two ends of the first pipe are the files `file` and `file` + 1, and so on. */
  function ControlFiles(file: nat, rootfs: nat): (f: seq<nat>)
    ensures |f| == 7
  {
    [file, file + 1, file + 2, file + 3, file, file + 3, rootfs]
  }

  function StdioFiles(file: nat): (f: seq<nat>)
    ensures |f| == 6
  {
    [file, file + 1, file + 2, file + 3, file + 4, file + 5]
  }

  function Files(file: nat, rootfs: nat): (f: seq<nat>)
    ensures |f| == 13
  {
    ControlFiles(file, rootfs) + StdioFiles(file + 4)
  }

  lemma {:induction false} OpenedTogether(t: Table, a: seq<nat>, f: seq<nat>, b: seq<nat>, g: seq<nat>)
    requires |a| == |f| && |b| == |g| && FreshList(t, a) && FreshList(Opened(t, a, f), b)
    ensures Opened(t, a + b, f + g) == Opened(Opened(t, a, f), b, g) && FreshList(t, a + b)
    decreases |a|
  {
    if a == [] {
      assert a + b == b && f + g == g;
    } else {
      var t1 := t[a[0] := Slot(f[0], true)];
      assert (a + b)[1..] == a[1..] + b && (f + g)[1..] == f[1..] + g;
      assert FreshList(t1, a[1..]);
      OpenedTogether(t1, a[1..], f[1..], b, g);
      FreshFromFirst(t, f[0], a + b);
      OpenedLookup(t, a, f);
      assert a[0] in Opened(t, a, f);
    }
  }

  lemma FreshFromFirst(t: Table, file: nat, l: seq<nat>)
    requires l != [] && l[0] !in t && FreshList(t[l[0] := Slot(file, true)], l[1..])
    ensures FreshList(t, l)
  {
    var rest := l[1..];
    assert forall i :: 1 <= i < |l| ==> l[i] == rest[i - 1];
  }

  /** What a table with new descriptors contains. */
  lemma {:induction false} OpenedLookup(t: Table, l: seq<nat>, files: seq<nat>)
    requires |l| == |files| && FreshList(t, l)
    ensures forall fd :: fd in Opened(t, l, files) <==> fd in t || fd in l
    ensures forall fd :: fd in t ==> Opened(t, l, files)[fd] == t[fd]
    ensures forall i :: 0 <= i < |l| ==>
      l[i] in Opened(t, l, files) && Opened(t, l, files)[l[i]] == Slot(files[i], true)
    decreases |l|
  {
    if l != [] {
      var t1, rest := t[l[0] := Slot(files[0], true)], l[1..];
      assert FreshList(t1, rest);
      OpenedLookup(t1, rest, files[1..]);
      assert forall i :: 1 <= i < |l| ==> l[i] == rest[i - 1] && files[i] == files[1..][i - 1];
    }
  }

  lemma NoneOpened(t: Table)
    ensures Opened(t, [], []) == t && FreshList(t, []) && Taken(t.Keys, []) == []
  {
  }

  /** One descriptor more. */
  lemma OneOpened(t: Table, mins: seq<nat>, l: seq<nat>, f: seq<nat>, min: nat, fd: nat, file: nat)
    requires |l| == |f| && FreshList(t, l) && l == Taken(t.Keys, mins) && fd == LowestFree(Opened(t, l, f).Keys, min)
    ensures FreshList(t, l + [fd]) && l + [fd] == Taken(t.Keys, mins + [min])
    ensures Opened(t, l + [fd], f + [file]) == Opened(t, l, f)[fd := Slot(file, true)]
  {
    var u := Opened(t, l, f);
    OpenedLookup(t, l, f);
    assert u.Keys == t.Keys + Set(l);
    TakenOneMore(t.Keys, mins, min);
    hide LowestFree, Taken;
    assert FreshList(u, [fd]);
    assert Opened(u, [fd], [file]) == u[fd := Slot(file, true)] by {
      assert [fd][1..] == [] && [file][1..] == [];
    }
    hide Opened, FreshList;
    OpenedTogether(t, l, f, [fd], [file]);
  }

  lemma PipeOpened(t: Table, mins: seq<nat>, l: seq<nat>, f: seq<nat>, r: nat, w: nat, file: nat)
    requires |l| == |f| && FreshList(t, l) && l == Taken(t.Keys, mins)
    requires r == LowestFree(Opened(t, l, f).Keys, 0) && w == LowestFree(Opened(t, l, f).Keys + {r}, 0)
    ensures FreshList(t, l + [r, w]) && l + [r, w] == Taken(t.Keys, mins + [0, 0])
    ensures Opened(t, l + [r, w], f + [file, file + 1])
      == Opened(t, l, f)[r := Slot(file, true)][w := Slot(file + 1, true)]
    ensures [] + [r, w] == [r, w] && [] + [file, file + 1] == [file, file + 1] && [] + [0, 0] == [0 as nat, 0]
  {
    hide Opened, FreshList, Taken, LowestFree;
    assert l + [r, w] == l + [r] + [w] && f + [file, file + 1] == f + [file] + [file + 1]
      && mins + [0, 0] == mins + [0] + [0];
    OneOpened(t, mins, l, f, 0, r, file);
    assert Opened(t, l + [r], f + [file]).Keys == Opened(t, l, f).Keys + {r};
    OneOpened(t, mins + [0], l + [r], f + [file], 0, w, file + 1);
  }

  function ClosedAfterSpawn(e: Ends): seq<nat> {
    [e.h2gRead, e.g2hWrite, e.tempH2g, e.tempG2h, e.tempRootfs, e.stdoutWrite, e.stderrWrite, e.consInRead]
  }

  function RetainedEnds(e: Ends): (l: seq<nat>)
    ensures |l| == 5
  {
    [e.h2gWrite, e.g2hRead, e.stdoutRead, e.stderrRead, e.consInWrite]
  }

  function RetainedFiles(file: nat): (f: seq<nat>)
    ensures |f| == 5
  {
    [file + 1, file + 2, file + 4, file + 6, file + 9]
  }

  lemma EndsByPosition(e: Ends)
    ensures var l := EndsList(e);
      && l[0] == e.h2gRead && l[1] == e.h2gWrite && l[2] == e.g2hRead && l[3] == e.g2hWrite && l[4] == e.tempH2g
        && l[5] == e.tempG2h
      && l[6] == e.tempRootfs && l[7] == e.stdoutRead && l[8] == e.stdoutWrite && l[9] == e.stderrRead
        && l[10] == e.stderrWrite
      && l[11] == e.consInRead && l[12] == e.consInWrite
  {
  }

  lemma FilesByPosition(file: nat, rootfs: nat)
    ensures var f := Files(file, rootfs);
      && f[0] == file && f[1] == file + 1 && f[2] == file + 2 && f[3] == file + 3 && f[4] == file && f[5] == file + 3
      && f[6] == rootfs && f[7] == file + 4 && f[8] == file + 5 && f[9] == file + 6 && f[10] == file + 7
      && f[11] == file + 8 && f[12] == file + 9
  {
  }

  /** Where the retained and the closed ends stand among all of them. */
  const RETAINED_AT: seq<nat> := [1, 2, 7, 9, 12]
  const CLOSED_AT: seq<nat> := [0, 3, 4, 5, 6, 8, 10, 11]

  lemma EndsAmongAll(e: Ends)
    ensures forall i :: 0 <= i < 5 ==> RETAINED_AT[i] < 13 && RetainedEnds(e)[i] == EndsList(e)[RETAINED_AT[i]]
    ensures |ClosedAfterSpawn(e)| == 8
    ensures forall i :: 0 <= i < 8 ==> CLOSED_AT[i] < 13 && ClosedAfterSpawn(e)[i] == EndsList(e)[CLOSED_AT[i]]
  {
  }

  lemma EndsArePartitioned(e: Ends, fd: nat)
    ensures fd in EndsList(e) <==> fd in RetainedEnds(e) || fd in ClosedAfterSpawn(e)
  {
  }

  lemma RetainedAreFresh(t: Table, e: Ends)
    requires FreshList(t, EndsList(e))
    ensures FreshList(t, RetainedEnds(e))
    ensures forall fd :: fd in ClosedAfterSpawn(e) ==> fd !in t && fd !in RetainedEnds(e)
  {
    EndsAmongAll(e);
    hide EndsList, RetainedEnds, ClosedAfterSpawn;
    var l, r, c := EndsList(e), RetainedEnds(e), ClosedAfterSpawn(e);
    forall i, j | 0 <= i < j < 5 ensures r[i] != r[j] {
      assert RETAINED_AT[i] < RETAINED_AT[j];
    }
    forall i, j | 0 <= i < 8 && 0 <= j < 5 ensures c[i] != r[j] {
      assert CLOSED_AT[i] != RETAINED_AT[j];
    }
  }

  /** Closing the child's ends leaves what was there before and the five retained ends. */
  lemma ClosedLeavesRetained(t0: Table, t: Table, e: Ends, file: nat, rootfs: nat)
    requires FreshList(t0, EndsList(e)) && t == Opened(t0, EndsList(e), Files(file, rootfs))
    ensures (map fd | fd in t && fd !in ClosedAfterSpawn(e) :: t[fd])
      == Opened(t0, RetainedEnds(e), RetainedFiles(file))
  {
    hide Opened, EndsList, RetainedEnds, ClosedAfterSpawn, Files, FreshList, RetainedFiles;
    var l, r, u := EndsList(e), RetainedEnds(e), Opened(t0, RetainedEnds(e), RetainedFiles(file));
    var kept := map fd | fd in t && fd !in ClosedAfterSpawn(e) :: t[fd];
    OpenedLookup(t0, l, Files(file, rootfs));
    RetainedAreFresh(t0, e);
    OpenedLookup(t0, r, RetainedFiles(file));
    RetainedValues(t, u, e, file, rootfs);
    forall fd ensures fd in kept <==> fd in u {
      EndsArePartitioned(e, fd);
    }
    forall fd | fd in kept ensures kept[fd] == u[fd] {
      EndsArePartitioned(e, fd);
    }
  }

  lemma RetainedValues(t: Table, u: Table, e: Ends, file: nat, rootfs: nat)
    requires forall i :: 0 <= i < 13 ==> EndsList(e)[i] in t && t[EndsList(e)[i]] == Slot(Files(file, rootfs)[i], true)
    requires forall i :: 0 <= i < 5 ==>
      RetainedEnds(e)[i] in u && u[RetainedEnds(e)[i]] == Slot(RetainedFiles(file)[i], true)
    ensures forall fd :: fd in RetainedEnds(e) ==> fd in t && fd in u && t[fd] == u[fd]
  {
    EndsByPosition(e);
    FilesByPosition(file, rootfs);
    var r := RetainedEnds(e);
    assert r[0] == EndsList(e)[1] && r[1] == EndsList(e)[2] && r[2] == EndsList(e)[7] && r[3] == EndsList(e)[9]
      && r[4] == EndsList(e)[12];
    var f := RetainedFiles(file);
    assert f[0] == file + 1 && f[1] == file + 2 && f[2] == file + 4 && f[3] == file + 6 && f[4] == file + 9;
    forall i | 0 <= i < 5 ensures r[i] in t && r[i] in u && t[r[i]] == u[r[i]] {
    }
  }

  lemma OpenedIsReady(t0: Table, t: Table, e: Ends, file: nat, rootfs: nat)
    requires FreshList(t0, EndsList(e)) && t == Opened(t0, EndsList(e), Files(file, rootfs)) && rootfs < file
    requires e.tempH2g >= DUPFD_MIN && e.tempG2h >= DUPFD_MIN && e.tempRootfs >= DUPFD_MIN
    ensures Ready(t, e)
    ensures t[e.tempH2g].file == file && t[e.tempG2h].file == file + 3 && t[e.tempRootfs].file == rootfs
    ensures t[e.stdoutWrite].file == file + 5 && t[e.stderrWrite].file == file + 7 && t[e.consInRead].file == file + 8
  {
    OpenedLookup(t0, EndsList(e), Files(file, rootfs));
    EndsByPosition(e);
    FilesByPosition(file, rootfs);
    hide Opened, EndsList, Files, FreshList;
  }

  // ---- Where the ends come to lie ------------------------------------------------------------

  /** The open descriptors that the stdio actions could clash with. */
  function LowOpen(used: set<nat>): set<nat> { set fd | 0 <= fd <= STDIO_OUT && fd in used }

  function CountZeros(mins: seq<nat>): (n: nat)
    ensures n <= |mins|
  {
    if mins == [] then 0 else CountZeros(mins[..|mins| - 1]) + if mins[|mins| - 1] == 0 then 1 else 0
  }

  lemma LowOpenIsSmall(used: set<nat>)
    ensures |LowOpen(used)| <= 7
    ensures |LowOpen(used)| == 7 <==> forall k :: 0 <= k <= STDIO_OUT ==> k in used
  {
    var low: set<nat> := {0, 1, 2, 3, 4, 5, 6};
    Subset(LowOpen(used), low);
    if forall k :: 0 <= k <= STDIO_OUT ==> k in used { assert LowOpen(used) == low; }
    if |LowOpen(used)| == 7 { assert forall k :: k in low ==> k in LowOpen(used); }
  }

  lemma {:induction false} Subset(a: set<nat>, b: set<nat>)
    requires a <= b
    ensures |a| <= |b| && (|a| == |b| ==> a == b)
    decreases |a|
  {
    if x :| x in a {
      Subset(a - {x}, b - {x});
      assert a == a - {x} + {x} && b == b - {x} + {x};
    }
  }

  /** One more descriptor fills the lowest gap below 7 while there is one. */
  lemma LowOpenAfter(used: set<nat>, min: nat)
    requires min == 0 || min == DUPFD_MIN
    ensures var fd, n := LowestFree(used, min), |LowOpen(used)|;
      && |LowOpen(used + {fd})| == (if min == 0 && n < 7 then n + 1 else n)
      && (min == 0 ==> (fd < 7 <==> n < 7))
  {
    var fd := LowestFree(used, min);
    LowOpenIsSmall(used);
    if fd < 7 {
      assert LowOpen(used + {fd}) == LowOpen(used) + {fd};
    } else {
      assert LowOpen(used + {fd}) == LowOpen(used);
    }
    hide LowestFree, LowOpen;
  }

  /** After some requests: how many low descriptors are open, and up to where all are. */
  lemma {:induction false} LowOpenAfterAll(used: set<nat>, mins: seq<nat>)
    requires forall i :: 0 <= i < |mins| ==> mins[i] == 0 || mins[i] == DUPFD_MIN
    ensures var now, n := used + Set(Taken(used, mins)), |LowOpen(used)| + CountZeros(mins);
      && |LowOpen(now)| == (if n < 7 then n else 7)
      && forall k :: 0 <= k < CountZeros(mins) ==> k in now
    decreases |mins|
  {
    hide LowestFree, LowOpen;
    LowOpenIsSmall(used);
    if mins == [] {
      assert used + Set(Taken(used, mins)) == used;
    } else {
      var init, min := mins[..|mins| - 1], mins[|mins| - 1];
      assert mins == init + [min];
      LowOpenAfterAll(used, init);
      TakenOneMore(used, init, min);
      var now := used + Set(Taken(used, init));
      assert used + Set(Taken(used, mins)) == now + {LowestFree(now, min)};
      LowOpenAfter(now, min);
      if min == 0 { FirstGap(now, CountZeros(init)); }
    }
  }

  lemma FirstGap(used: set<nat>, n: nat)
    requires forall k :: 0 <= k < n ==> k in used
    ensures LowestFree(used, 0) >= n && forall k :: 0 <= k < n + 1 ==> k in used + {LowestFree(used, 0)}
  {
  }

  lemma TakenAt(used: set<nat>, mins: seq<nat>, i: nat)
    requires i < |mins|
    ensures Taken(used, mins)[i] == LowestFree(used + Set(Taken(used, mins[..i])), mins[i])
  {
    var a, b := mins[..i], mins[i..];
    assert mins == a + b;
    TakenTogether(used, a, b);
    hide LowestFree;
  }

  /** Where a pipe end comes to lie, by what was open before. */
  lemma PipeEndAt(used: set<nat>, i: nat)
    requires i < 13 && i !in {4, 5, 6}
    ensures var mins := CONTROL_MINS + STDIO_MINS;
      var fd, z := Taken(used, mins)[i], CountZeros(mins[..i]);
      fd >= z && (fd < 7 <==> |LowOpen(used)| + z < 7)
  {
    var mins := CONTROL_MINS + STDIO_MINS;
    assert mins[i] == 0;
    TakenAt(used, mins, i);
    LowOpenAfterAll(used, mins[..i]);
    var now := used + Set(Taken(used, mins[..i]));
    hide LowestFree, LowOpen, Taken, CountZeros;
    FirstGap(now, CountZeros(mins[..i]));
    LowOpenAfter(now, 0);
    LowOpenIsSmall(used);
  }

  lemma ZerosBefore()
    ensures var mins := CONTROL_MINS + STDIO_MINS;
      CountZeros(mins[..8]) == 5 && CountZeros(mins[..10]) == 7 && CountZeros(mins[..11]) == 8
  {
    var mins := CONTROL_MINS + STDIO_MINS;
    assert mins[..0] == [];
    ZerosStep(mins, 0); ZerosStep(mins, 1); ZerosStep(mins, 2); ZerosStep(mins, 3); ZerosStep(mins, 4);
    ZerosStep(mins, 5);
    ZerosStep(mins, 6); ZerosStep(mins, 7); ZerosStep(mins, 8); ZerosStep(mins, 9); ZerosStep(mins, 10);
  }

  lemma ZerosStep(mins: seq<nat>, k: nat)
    requires k < |mins|
    ensures CountZeros(mins[..k + 1]) == CountZeros(mins[..k]) + if mins[k] == 0 then 1 else 0
  {
    assert mins[..k + 1][..k] == mins[..k];
  }

  /** The ends are clear exactly when two of the descriptors 0 to 6 were open before. */
  lemma EndsAreClearExactly(used: set<nat>, e: Ends)
    requires EndsList(e) == Taken(used, CONTROL_MINS + STDIO_MINS)
    ensures EndsAreClear(e) <==> |LowOpen(used)| >= 2
    ensures e.tempH2g >= DUPFD_MIN && e.tempG2h >= DUPFD_MIN && e.tempRootfs >= DUPFD_MIN
  {
    EndsByPosition(e);
    ZerosBefore();
    hide Taken, CountZeros, LowOpen, EndsList;
    PipeEndAt(used, 8);
    PipeEndAt(used, 10);
    PipeEndAt(used, 11);
    TakenAt(used, CONTROL_MINS + STDIO_MINS, 4);
    TakenAt(used, CONTROL_MINS + STDIO_MINS, 5);
    TakenAt(used, CONTROL_MINS + STDIO_MINS, 6);
  }

  /**
   * A start, with the table the helper sees. The parent keeps everything it held and gains five
   * pipe ends; the child has the intended files on descriptors 1 to 7 exactly when at least two of
   * the parent's descriptors 0 to 6 were open, and has nothing else that the close could reach.
   */
  method Start(p: Process, rootfs: nat, closeRange: bool, ceiling: nat) returns (child: Process, e: Ends)
    requires p.Valid() && rootfs in p.fds
    modifies p
    ensures FreshList(old(p.fds), EndsList(e))
    ensures p.fds == Opened(old(p.fds), RetainedEnds(e), RetainedFiles(old(p.nextFile)))
    ensures fresh(child) && forall fd :: fd in child.fds ==> fd < WATERMARK || (!closeRange && fd >= ceiling)
    ensures var file := old(p.nextFile);
      |set fd | 0 <= fd < 7 && fd in old(p.fds)| >= 2 <==>
        && OpenOn(child.fds, 1, file + 5) && OpenOn(child.fds, 2, file + 7)
        && OpenOn(child.fds, H2G_READ, file) && OpenOn(child.fds, G2H_WRITE, file + 3)
        && OpenOn(child.fds, ROOTFS, old(p.fds)[rootfs].file)
        && OpenOn(child.fds, STDIO_OUT, file + 5) && OpenOn(child.fds, STDIO_IN, file + 8)
  {
    hide FreshList, Opened, Ready, Actions, Replayed, Exec, EndsAreClear, OpenOn, EndsList, Files, ClosedAfterSpawn,
      RetainedEnds, Taken;
    ghost var t0, file, rootfsFile := p.fds, p.nextFile, p.fds[rootfs].file;
    e := p.Allocate(rootfs);
    ghost var t := p.fds;
    EndsAreClearExactly(t0.Keys, e);
    assert LowOpen(t0.Keys) == set fd | 0 <= fd < 7 && fd in t0;
    OpenedIsReady(t0, t, e, file, rootfsFile);
    child := p.Spawn(Actions(e));
    child.MassClose(WATERMARK, closeRange, ceiling);
    ChildIsWired(t, e, closeRange, ceiling);
    ClosedLeavesRetained(t0, t, e, file, rootfsFile);
    p.CloseAll(ClosedAfterSpawn(e));
  }

  /** Any two open descriptors below 7 are enough, such as the standard ones. */
  lemma TwoOpenAreEnough(t: Table, e: Ends, a: nat, b: nat)
    requires EndsList(e) == Taken(t.Keys, CONTROL_MINS + STDIO_MINS)
    requires a < b < 7 && a in t && b in t
    ensures EndsAreClear(e)
  {
    hide Taken, EndsAreClear, EndsList;
    EndsAreClearExactly(t.Keys, e);
    Subset({a, b}, LowOpen(t.Keys));
  }

  /** A parent with nothing open but the root image gets an output end that its own actions overwrite. */
  lemma RootImageAloneIsNotEnough(rootfs: nat, slot: Slot, e: Ends)
    requires EndsList(e) == Taken(map[rootfs := slot].Keys, CONTROL_MINS + STDIO_MINS)
    ensures !EndsAreClear(e)
  {
    hide Taken, EndsAreClear, EndsList;
    var used := map[rootfs := slot].Keys;
    EndsAreClearExactly(used, e);
    Subset(LowOpen(used), {rootfs});
  }
}
