/**
 * One directory block: the writer write_directory_block and the reader's scan inside
 * rd_dir_lookup (packages/sandbox-vm-native/src/vm-image-builder.c).
 */
module DirBlock {
  import opened Prelude
  import opened ImageBytes

  /** A directory entry; recLen bytes in the block, of which the name may leave some unused. */
  datatype Dirent = Dirent(inode: nat, recLen: nat, fileType: byte, name: seq<byte>)

  const DOT: seq<byte> := [46]
  const DOT_DOT: seq<byte> := [46, 46]
  const TYPE_DIR: byte := 2

  predicate WellFormed(d: Dirent) {
    && d.inode < 0x1_0000_0000 && d.recLen < 0x1_0000 && d.recLen % 4 == 0
    && |d.name| < 256 && 8 + |d.name| <= d.recLen
  }

  predicate AllWellFormed(ds: seq<Dirent>) {
    forall i :: 0 <= i < |ds| ==> WellFormed(ds[i])
  }

  function DirentBytes(d: Dirent): (s: seq<byte>)
    requires WellFormed(d)
    ensures |s| == d.recLen
  {
    Le32(d.inode) + Le16(d.recLen) + [|d.name|] + [d.fileType] + d.name + Zeros(d.recLen - 8 - |d.name|)
  }

  function Total(ds: seq<Dirent>): nat {
    if ds == [] then 0 else Total(ds[..|ds| - 1]) + ds[|ds| - 1].recLen
  }

  function Encode(ds: seq<Dirent>): (s: seq<byte>)
    requires AllWellFormed(ds)
    ensures |s| == Total(ds)
  {
    if ds == [] then [] else Encode(ds[..|ds| - 1]) + DirentBytes(ds[|ds| - 1])
  }

  /** The room an entry takes: header and name, rounded up to four bytes. */
  function Need(nameLen: nat): (n: nat)
    ensures n % 4 == 0 && 8 + nameLen <= n < 12 + nameLen
  {
    (8 + nameLen + 3) / 4 * 4
  }

  datatype Child = Child(inode: nat, fileType: byte, name: seq<byte>)

  predicate ValidChild(c: Child) {
    c.inode < 0x1_0000_0000 && |c.name| < 256
  }

  predicate AllValid(children: seq<Child>) {
    forall i :: 0 <= i < |children| ==> ValidChild(children[i])
  }

  function DirentOf(c: Child): Dirent { Dirent(c.inode, Need(|c.name|), c.fileType, c.name) }

  /** The entries in the order they are written, before the last one is stretched. */
  function Packed(self: nat, parent: nat, children: seq<Child>): (ds: seq<Dirent>)
    ensures |ds| == |children| + 2
  {
    [Dirent(self, 12, TYPE_DIR, DOT), Dirent(parent, 12, TYPE_DIR, DOT_DOT)]
    + seq(|children|, i requires 0 <= i < |children| => DirentOf(children[i]))
  }

  /** The last entry takes the rest of the block. */
  function Stretched(ds: seq<Dirent>): seq<Dirent>
    requires ds != [] && Total(ds) <= BLOCK_SIZE
  {
    var init, last := ds[..|ds| - 1], ds[|ds| - 1];
    init + [last.(recLen := BLOCK_SIZE - Total(init))]
  }

  datatype Outcome = Block(bytes: seq<byte>) | Overflow | OutOfBounds

  /**
   * What the writer does: it dies when the entries do not fit; when they end four bytes before
   * the end of the block, its scan for the last entry reads beyond the buffer.
   */
  function Written(self: nat, parent: nat, children: seq<Child>): Outcome
    requires self < 0x1_0000_0000 && parent < 0x1_0000_0000
    requires AllValid(children)
  {
    var ds := Packed(self, parent, children);
    if Total(ds) > BLOCK_SIZE then Overflow
    else if Total(ds) == BLOCK_SIZE - 4 then OutOfBounds
    else
      PackedIsWellFormed(self, parent, children);
      StretchedIsWellFormed(ds);
      Block(Encode(Stretched(ds)))
  }

  lemma PackedIsWellFormed(self: nat, parent: nat, children: seq<Child>)
    requires self < 0x1_0000_0000 && parent < 0x1_0000_0000
    requires AllValid(children)
    ensures AllWellFormed(Packed(self, parent, children))
  {
  }

  lemma {:induction false} TotalOfConcat(a: seq<Dirent>, b: seq<Dirent>)
    ensures Total(a + b) == Total(a) + Total(b)
  {
    if b == [] {
      assert a + b == a;
    } else {
      assert (a + b)[..|a + b| - 1] == a + b[..|b| - 1];
      TotalOfConcat(a, b[..|b| - 1]);
    }
  }

  lemma {:induction false} EncodeOfConcat(a: seq<Dirent>, b: seq<Dirent>)
    requires AllWellFormed(a) && AllWellFormed(b)
    ensures AllWellFormed(a + b) && Encode(a + b) == Encode(a) + Encode(b)
  {
    hide DirentBytes, WellFormed;
    if b == [] {
      assert a + b == a;
    } else {
      assert (a + b)[..|a + b| - 1] == a + b[..|b| - 1];
      EncodeOfConcat(a, b[..|b| - 1]);
    }
  }

  lemma {:induction false} TotalIsAligned(ds: seq<Dirent>)
    requires AllWellFormed(ds)
    ensures Total(ds) % 4 == 0
  {
    if ds != [] { TotalIsAligned(ds[..|ds| - 1]); }
  }

  lemma StretchedIsWellFormed(ds: seq<Dirent>)
    requires ds != [] && AllWellFormed(ds) && Total(ds) <= BLOCK_SIZE
    ensures AllWellFormed(Stretched(ds)) && Total(Stretched(ds)) == BLOCK_SIZE
  {
    var init, last := ds[..|ds| - 1], ds[|ds| - 1];
    TotalIsAligned(init);
    var longer := last.(recLen := BLOCK_SIZE - Total(init));
    assert Stretched(ds) == init + [longer] && (init + [longer])[..|init|] == init;
    assert WellFormed(longer) by { assert Total(ds) == Total(init) + last.recLen; }
  }

  // ---- Writing -----------------------------------------------------------------

  lemma ZerosSplit(m: nat, n: nat)
    ensures Zeros(m + n) == Zeros(m) + Zeros(n)
  {
  }

  /** Stores one entry into zeroed space, field by field; the record length comes last. */
  method PutDirent(blk: array<byte>, off: nat, d: Dirent, ghost before: seq<byte>, ghost after: seq<byte>)
    requires WellFormed(d) && blk[..] == before + Zeros(d.recLen) + after && off == |before|
    modifies blk
    ensures blk[..] == before + DirentBytes(d) + after
  {
    hide Le16, Le32, Zeros;
    ghost var room := d.recLen - 8;
    ZerosSplit(4, 4);
    ZerosSplit(8, room);
    PutInto(blk, off, Le32(d.inode), before, d.recLen, after);
    ghost var head := before + Le32(d.inode);
    assert Zeros(d.recLen - 4) == Zeros(4) + Zeros(room) by { ZerosSplit(4, room); }
    PutNameAndType(blk, off, d, head, room, after);
    ghost var tail := [|d.name| as byte] + [d.fileType] + d.name + Zeros(room - |d.name|) + after;
    PutInto(blk, off + 4, Le16(d.recLen), head, 2, tail);
    assert Zeros(0) == [];
  }

  method PutNameAndType(blk: array<byte>, off: nat, d: Dirent, ghost head: seq<byte>, ghost room: nat,
                        ghost after: seq<byte>)
    requires |d.name| < 256 && |d.name| <= room && |head| == off + 4
    requires blk[..] == head + (Zeros(4) + Zeros(room)) + after
    modifies blk
    ensures blk[..] == head + Zeros(2) + ([|d.name| as byte] + [d.fileType] + d.name + Zeros(room - |d.name|) + after)
  {
    hide Zeros;
    var nameLen: byte := |d.name|;
    ZerosSplit(2, 2);
    ZerosSplit(1, 1);
    assert Zeros(0) == [];
    ghost var h := head + Zeros(2);
    PutInto(blk, off + 6, [nameLen], h, 2, Zeros(room) + after);
    PutInto(blk, off + 7, [d.fileType], h + [nameLen], 1, Zeros(room) + after);
    PutInto(blk, off + 8, d.name, h + [nameLen] + [d.fileType], room, after);
  }

  /** memcpy into a run of `n` zeros between `before` and `after`. */
  method PutInto(blk: array<byte>, at: nat, s: seq<byte>, ghost before: seq<byte>, ghost n: nat, ghost after: seq<byte>)
    requires blk[..] == before + Zeros(n) + after && at == |before| && |s| <= n
    modifies blk
    ensures blk[..] == before + s + Zeros(n - |s|) + after
  {
    for i := 0 to |s|
      invariant blk[..] == before + s[..i] + Zeros(n - i) + after
    {
      blk[at + i] := s[i];
    }
  }

  lemma EncodeOfMore(ds: seq<Dirent>, k: nat)
    requires k < |ds| && AllWellFormed(ds)
    ensures AllWellFormed(ds[..k]) && AllWellFormed(ds[..k + 1])
    ensures Encode(ds[..k + 1]) == Encode(ds[..k]) + DirentBytes(ds[k])
    ensures Total(ds[..k + 1]) == Total(ds[..k]) + ds[k].recLen
  {
    assert ds[..k + 1][..k] == ds[..k];
  }

  lemma PrefixTotal(ds: seq<Dirent>, k: nat)
    requires k <= |ds|
    ensures Total(ds[..k]) <= Total(ds)
  {
    assert ds == ds[..k] + ds[k..];
    TotalOfConcat(ds[..k], ds[k..]);
  }

  lemma DirentFields(d: Dirent)
    requires WellFormed(d)
    ensures var s := DirentBytes(d);
            U32(s, 0) == d.inode && U16(s, 4) == d.recLen && s[6] == |d.name| && s[8..8 + |d.name|] == d.name
  {
    hide Le16, Le32, U16, U32;
    var s := DirentBytes(d);
    assert s[0..4] == Le32(d.inode) && s[4..6] == Le16(d.recLen);
    ReadBack32(s, 0, d.inode);
    ReadBack16(s, 4, d.recLen);
  }

  /** A field read inside a longer text. */
  lemma FieldWithin(b: seq<byte>, o: nat, s: seq<byte>, i: nat)
    requires o + |s| <= |b| && b[o..o + |s|] == s
    ensures i + 2 <= |s| ==> U16(b, o + i) == U16(s, i)
    ensures i + 4 <= |s| ==> U32(b, o + i) == U32(s, i)
    ensures i < |s| ==> b[o + i] == s[i]
  {
    assert forall j :: 0 <= j < |s| ==> b[o + j] == s[j];
  }

  lemma MiddlePart<T>(b: seq<T>, before: seq<T>, s: seq<T>, after: seq<T>)
    requires b == before + s + after
    ensures b[|before|..|before| + |s|] == s
  {
  }

  lemma EncodeAround(ds: seq<Dirent>, k: nat)
    requires k < |ds| && AllWellFormed(ds)
    ensures AllWellFormed(ds[..k]) && AllWellFormed(ds[k + 1..])
    ensures Encode(ds) == Encode(ds[..k]) + DirentBytes(ds[k]) + Encode(ds[k + 1..])
  {
    hide DirentBytes, WellFormed, Encode;
    EncodeOfMore(ds, k);
    EncodeOfConcat(ds[..k + 1], ds[k + 1..]);
    assert ds == ds[..k + 1] + ds[k + 1..];
  }

  lemma EntryWithin(ds: seq<Dirent>, k: nat, rest: seq<byte>)
    requires k < |ds| && AllWellFormed(ds)
    ensures var b, o := Encode(ds) + rest, Total(ds[..k]);
            o + ds[k].recLen <= |Encode(ds)| && b[o..o + ds[k].recLen] == DirentBytes(ds[k])
  {
    hide DirentBytes, WellFormed, Encode, Total;
    EncodeAround(ds, k);
    var before, entry, after := Encode(ds[..k]), DirentBytes(ds[k]), Encode(ds[k + 1..]);
    assert Encode(ds) + rest == before + entry + (after + rest);
    MiddlePart(Encode(ds) + rest, before, entry, after + rest);
  }

  lemma RecLenWithin(ds: seq<Dirent>, k: nat, rest: seq<byte>)
    requires k < |ds| && AllWellFormed(ds)
    ensures var b, o := Encode(ds) + rest, Total(ds[..k]);
            o + 6 <= |b| && U16(b, o + 4) == ds[k].recLen
  {
    hide U16, U32, Encode;
    EntryWithin(ds, k, rest);
    DirentFields(ds[k]);
    FieldWithin(Encode(ds) + rest, Total(ds[..k]), DirentBytes(ds[k]), 4);
  }

  lemma StretchedBytes(d: Dirent, z: nat)
    requires WellFormed(d) && WellFormed(d.(recLen := d.recLen + z))
    ensures var tail := DirentBytes(d)[6..] + Zeros(z);
            && DirentBytes(d) + Zeros(z) == Le32(d.inode) + Le16(d.recLen) + tail
            && DirentBytes(d.(recLen := d.recLen + z)) == Le32(d.inode) + Le16(d.recLen + z) + tail
  {
    hide Le16, Le32;
    ZerosSplit(d.recLen - 8 - |d.name|, z);
  }

  /** Overwrites a field in place. */
  method SetRecLen(blk: array<byte>, last: nat, recLen: nat, ghost head: seq<byte>, ghost was: nat,
                   ghost tail: seq<byte>)
    requires blk[..] == head + Le16(was) + tail && |head| == last + 4
    modifies blk
    ensures blk[..] == head + Le16(recLen) + tail
  {
    hide Le16;
    var v := Le16(recLen);
    blk[last + 4] := v[0];
    blk[last + 5] := v[1];
  }

  /** Finds the last entry the way the source does; None when the scan leaves the buffer. */
  method FindLast(blk: array<byte>, ghost ds: seq<Dirent>) returns (r: Option<nat>)
    requires ds != [] && AllWellFormed(ds) && Total(ds) <= BLOCK_SIZE == blk.Length
    requires blk[..] == Encode(ds) + Zeros(BLOCK_SIZE - Total(ds))
    ensures r == if Total(ds) == BLOCK_SIZE - 4 then None else Some(Total(ds[..|ds| - 1]))
  {
    hide Encode, Total, U16, Zeros;
    var scan, last := 0, 0;
    ghost var k := 0;
    TotalOfNone();
    TotalIsAligned(ds);
    assert ds[..0] == [] && ds[..|ds|] == ds;
    while scan < BLOCK_SIZE
      invariant 0 <= k <= |ds| && scan == Total(ds[..k]) <= Total(ds)
      invariant k > 0 ==> last == Total(ds[..k - 1])
      decreases |ds| - k
    {
      if k < |ds| {
        RecLenWithin(ds, k, Zeros(BLOCK_SIZE - Total(ds)));
        EncodeOfMore(ds, k);
        PrefixTotal(ds, k + 1);
      } else if scan + 6 <= BLOCK_SIZE {
        ZeroAfter(Encode(ds), BLOCK_SIZE - Total(ds));
      }
      if scan + 6 > BLOCK_SIZE { return None; }
      var recLen := U16(blk[..], scan + 4);
      if recLen == 0 { break; }
      last := scan;
      scan := scan + recLen;
      k := k + 1;
    }
    if k < |ds| {
      EncodeOfMore(ds, k);
      PrefixTotal(ds, k + 1);
    }
    assert k == |ds|;
    return Some(last);
  }

  lemma TotalOfNone()
    ensures Total([]) == 0
  {
  }

  lemma ZeroAfter(s: seq<byte>, n: nat)
    requires n >= 6
    ensures U16(s + Zeros(n), |s| + 4) == 0
  {
  }

  method WriteDirectoryBlock(self: nat, parent: nat, children: seq<Child>) returns (r: Outcome)
    requires self < 0x1_0000_0000 && parent < 0x1_0000_0000
    requires AllValid(children)
    ensures r == Written(self, parent, children)
  {
    hide Encode, DirentBytes, Total, WellFormed, Need, Zeros, ValidChild, Stretched;
    ghost var ds := Packed(self, parent, children);
    PackedIsWellFormed(self, parent, children);
    var blk := new byte[BLOCK_SIZE](_ => 0);
    var off := WriteDots(blk, self, parent);
    assert ds[..2] == [Dirent(self, 12, TYPE_DIR, DOT), Dirent(parent, 12, TYPE_DIR, DOT_DOT)];
    for i := 0 to |children|
      invariant off == Total(ds[..i + 2]) <= BLOCK_SIZE
      invariant AllWellFormed(ds[..i + 2]) && blk[..] == Encode(ds[..i + 2]) + Zeros(BLOCK_SIZE - off)
    {
      var c := children[i];
      var need := Need(|c.name|);
      EncodeOfMore(ds, i + 2);
      PrefixTotal(ds, i + 3);
      if off + need > BLOCK_SIZE { return Overflow; }
      ZerosSplit(need, BLOCK_SIZE - off - need);
      PutDirent(blk, off, DirentOf(c), Encode(ds[..i + 2]), Zeros(BLOCK_SIZE - off - need));
      off := off + need;
    }
    assert ds[..|ds|] == ds;
    r := StretchLast(blk, ds);
  }

  method WriteDots(blk: array<byte>, self: nat, parent: nat) returns (off: nat)
    requires self < 0x1_0000_0000 && parent < 0x1_0000_0000
    requires blk.Length == BLOCK_SIZE && forall i :: 0 <= i < BLOCK_SIZE ==> blk[i] == 0
    modifies blk
    ensures var dots := [Dirent(self, 12, TYPE_DIR, DOT), Dirent(parent, 12, TYPE_DIR, DOT_DOT)];
            AllWellFormed(dots) && off == Total(dots) == 24 && blk[..] == Encode(dots) + Zeros(BLOCK_SIZE - 24)
  {
    var d, e := Dirent(self, 12, TYPE_DIR, DOT), Dirent(parent, 12, TYPE_DIR, DOT_DOT);
    DotsEncoded(d, e);
    hide Encode, DirentBytes, Total, Zeros;
    assert blk[..] == Zeros(BLOCK_SIZE) by { AllZero(blk[..]); }
    ZerosSplit(12, BLOCK_SIZE - 12);
    ZerosSplit(12, BLOCK_SIZE - 24);
    PutDirent(blk, 0, d, [], Zeros(BLOCK_SIZE - 12));
    PutDirent(blk, 12, e, DirentBytes(d), Zeros(BLOCK_SIZE - 24));
    off := 24;
  }

  lemma AllZero(s: seq<byte>)
    requires forall i :: 0 <= i < |s| ==> s[i] == 0
    ensures s == Zeros(|s|)
  {
  }

  lemma DotsEncoded(d: Dirent, e: Dirent)
    requires WellFormed(d) && WellFormed(e)
    ensures AllWellFormed([d, e]) && Encode([d, e]) == DirentBytes(d) + DirentBytes(e)
    ensures Total([d, e]) == d.recLen + e.recLen
  {
    hide DirentBytes;
    assert [d, e][..1] == [d] && [d][..0] == [];
    assert Encode([d]) == [] + DirentBytes(d);
  }

  /** Stretching changes two bytes: the record length of the last entry. */
  lemma StretchedEncoding(ds: seq<Dirent>) returns (head: seq<byte>, tail: seq<byte>)
    requires ds != [] && AllWellFormed(ds) && Total(ds) <= BLOCK_SIZE
    ensures AllWellFormed(Stretched(ds)) && |head| == Total(ds[..|ds| - 1]) + 4
    ensures Encode(ds) + Zeros(BLOCK_SIZE - Total(ds)) == head + Le16(ds[|ds| - 1].recLen) + tail
    ensures Encode(Stretched(ds)) == head + Le16(BLOCK_SIZE - Total(ds[..|ds| - 1])) + tail
  {
    StretchedIsWellFormed(ds);
    var init, d, z := ds[..|ds| - 1], ds[|ds| - 1], BLOCK_SIZE - Total(ds);
    var longer := d.(recLen := d.recLen + z);
    assert Stretched(ds)[|ds| - 1] == longer && Stretched(ds)[..|ds| - 1] == init;
    StretchedBytes(d, z);
    head, tail := Encode(init) + Le32(d.inode), DirentBytes(d)[6..] + Zeros(z);
    hide *;
    LastEncoded(ds);
    LastEncoded(Stretched(ds));
    Spliced(Encode(init), DirentBytes(d), Zeros(z), Le32(d.inode), Le16(d.recLen), tail);
    Spliced(Encode(init), DirentBytes(longer), [], Le32(d.inode), Le16(longer.recLen), tail);
  }

  lemma LastEncoded(ds: seq<Dirent>)
    requires ds != [] && AllWellFormed(ds)
    ensures Encode(ds) == Encode(ds[..|ds| - 1]) + DirentBytes(ds[|ds| - 1]) && WellFormed(ds[|ds| - 1])
  {
    hide DirentBytes;
  }

  lemma Spliced(init: seq<byte>, last: seq<byte>, rest: seq<byte>, a: seq<byte>, b: seq<byte>, c: seq<byte>)
    requires last + rest == a + b + c
    ensures (init + last) + rest == (init + a) + b + c
  {
    assert (init + last) + rest == init + (last + rest);
  }

  /** The stretch of the last record length, after the scan that looks for it. */
  method StretchLast(blk: array<byte>, ghost ds: seq<Dirent>) returns (r: Outcome)
    requires ds != [] && AllWellFormed(ds) && Total(ds) <= BLOCK_SIZE == blk.Length
    requires blk[..] == Encode(ds) + Zeros(BLOCK_SIZE - Total(ds))
    modifies blk
    ensures AllWellFormed(Stretched(ds))
    ensures r == if Total(ds) == BLOCK_SIZE - 4 then OutOfBounds else Block(Encode(Stretched(ds)))
  {
    hide Encode, Stretched, Total, Le16, Zeros;
    ghost var head, tail := StretchedEncoding(ds);
    var last := FindLast(blk, ds);
    if last.None? { return OutOfBounds; }
    SetRecLen(blk, last.value, BLOCK_SIZE - last.value, head, ds[|ds| - 1].recLen, tail);
    r := Block(blk[..]);
  }

  // ---- Reading -----------------------------------------------------------------

  datatype Lookup = Found(inode: nat) | Absent | Malformed

  predicate BadRecLen(recLen: nat, off: nat, size: nat) {
    recLen < 8 || recLen % 4 != 0 || off + recLen > size
  }

  /** Whether the entry at `off` is a live one with this name. */
  predicate Matches(buf: seq<byte>, off: nat, name: seq<byte>)
    requires off + 8 <= |buf|
  {
    U32(buf, off) != 0 && buf[off + 6] == |name| && off + 8 + |name| <= |buf|
    && buf[off + 8..off + 8 + |name|] == name
  }

  function Scan(buf: seq<byte>, off: nat, name: seq<byte>): Lookup
    decreases |buf| - off
  {
    if off + 8 > |buf| then Absent
    else
      var recLen := U16(buf, off + 4);
      if BadRecLen(recLen, off, |buf|) then Malformed
      else if Matches(buf, off, name) then Found(U32(buf, off))
      else Scan(buf, off + recLen, name)
  }

  /** The loop of rd_dir_lookup over one directory block. */
  method ScanBlock(buf: array<byte>, name: seq<byte>) returns (r: Lookup)
    ensures r == Scan(buf[..], 0, name)
  {
    hide Matches, BadRecLen, U16, U32;
    var off := 0;
    while off + 8 <= buf.Length
      invariant Scan(buf[..], 0, name) == Scan(buf[..], off, name)
      decreases buf.Length - off
    {
      var recLen := U16(buf[..], off + 4);
      if BadRecLen(recLen, off, buf.Length) { return Malformed; }
      RecLenAdvances(recLen, off, buf.Length);
      if Matches(buf[..], off, name) { return Found(U32(buf[..], off)); }
      off := off + recLen;
    }
    return Absent;
  }

  lemma RecLenAdvances(recLen: nat, off: nat, size: nat)
    requires !BadRecLen(recLen, off, size)
    ensures recLen >= 8 && off + recLen <= size
  {
  }

  /** The reference: the first live entry with this name. */
  function Find(ds: seq<Dirent>, name: seq<byte>): Lookup {
    if ds == [] then Absent
    else if ds[0].inode != 0 && ds[0].name == name then Found(ds[0].inode)
    else Find(ds[1..], name)
  }

  lemma EntryMatches(b: seq<byte>, o: nat, d: Dirent, name: seq<byte>)
    requires WellFormed(d) && o + d.recLen <= |b| && b[o..o + d.recLen] == DirentBytes(d)
    ensures U16(b, o + 4) == d.recLen && U32(b, o) == d.inode
    ensures Matches(b, o, name) <==> d.inode != 0 && d.name == name
  {
    hide U16, U32, DirentBytes;
    var s := DirentBytes(d);
    DirentFields(d);
    FieldWithin(b, o, s, 0);
    FieldWithin(b, o, s, 4);
    FieldWithin(b, o, s, 6);
    SliceWithin(b, o, s, 8, |d.name|);
  }

  lemma EntryScanned(ds: seq<Dirent>, k: nat, name: seq<byte>)
    requires k < |ds| && AllWellFormed(ds)
    ensures var b, o, d := Encode(ds), Total(ds[..k]), ds[k];
            && o + 8 <= |b| && U16(b, o + 4) == d.recLen && !BadRecLen(d.recLen, o, |b|)
            && U32(b, o) == d.inode
            && (Matches(b, o, name) <==> d.inode != 0 && d.name == name)
  {
    hide Encode, U16, U32, DirentBytes, Matches, Total, BadRecLen;
    EntryWithin(ds, k, []);
    assert Encode(ds) + [] == Encode(ds);
    EntryMatches(Encode(ds), Total(ds[..k]), ds[k], name);
    NextEntryAligned(ds, k);
  }

  lemma SliceWithin(b: seq<byte>, o: nat, s: seq<byte>, i: nat, n: nat)
    requires o + |s| <= |b| && b[o..o + |s|] == s && i + n <= |s|
    ensures b[o + i..o + i + n] == s[i..i + n]
  {
    var t, u := b[o + i..o + i + n], s[i..i + n];
    forall j | 0 <= j < n ensures t[j] == u[j] {
      assert b[o + (i + j)] == b[o..o + |s|][i + j];
    }
  }

  lemma NextEntryAligned(ds: seq<Dirent>, k: nat)
    requires k < |ds| && AllWellFormed(ds)
    ensures !BadRecLen(ds[k].recLen, Total(ds[..k]), Total(ds))
  {
    EncodeOfMore(ds, k);
    PrefixTotal(ds, k + 1);
  }

  /** Scanning an encoded block finds what the list of entries contains. */
  lemma {:induction false} ScanOfEncoded(ds: seq<Dirent>, k: nat, name: seq<byte>)
    requires k <= |ds| && AllWellFormed(ds)
    ensures Scan(Encode(ds), Total(ds[..k]), name) == Find(ds[k..], name)
    decreases |ds| - k
  {
    hide Encode, Matches, BadRecLen, U16, U32, Total;
    if k == |ds| {
      assert ds[..k] == ds && ds[k..] == [];
    } else {
      EntryScanned(ds, k, name);
      EncodeOfMore(ds, k);
      ScanOfEncoded(ds, k + 1, name);
      assert ds[k..][1..] == ds[k + 1..];
    }
  }

  // ---- Writer against reader ---------------------------------------------------

  predicate DistinctNames(children: seq<Child>) {
    && (forall i :: 0 <= i < |children| ==> children[i].name != DOT && children[i].name != DOT_DOT)
    && forall i, j :: 0 <= i < j < |children| ==> children[i].name != children[j].name
  }

  lemma {:induction false} FindOfDistinct(ds: seq<Dirent>, i: nat)
    requires i < |ds| && ds[i].inode != 0
    requires forall j :: 0 <= j < i ==> ds[j].name != ds[i].name
    ensures Find(ds, ds[i].name) == Found(ds[i].inode)
  {
    if i > 0 {
      assert ds[1..][i - 1] == ds[i];
      FindOfDistinct(ds[1..], i - 1);
    }
  }

  lemma {:induction false} FindOfMissing(ds: seq<Dirent>, name: seq<byte>)
    requires forall j :: 0 <= j < |ds| ==> ds[j].name != name
    ensures Find(ds, name) == Absent
  {
    if ds != [] { FindOfMissing(ds[1..], name); }
  }

  lemma {:induction false} FindIgnoresRecLen(ds: seq<Dirent>, es: seq<Dirent>, name: seq<byte>)
    requires |ds| == |es|
    requires forall i :: 0 <= i < |ds| ==> ds[i].inode == es[i].inode && ds[i].name == es[i].name
    ensures Find(ds, name) == Find(es, name)
  {
    if ds != [] { FindIgnoresRecLen(ds[1..], es[1..], name); }
  }

  lemma StretchedKeepsNames(ds: seq<Dirent>)
    requires ds != [] && Total(ds) <= BLOCK_SIZE
    ensures |Stretched(ds)| == |ds|
    ensures forall i :: 0 <= i < |ds| ==> Stretched(ds)[i].inode == ds[i].inode && Stretched(ds)[i].name == ds[i].name
  {
  }

  lemma ScanOfWritten(self: nat, parent: nat, children: seq<Child>, name: seq<byte>)
    requires self < 0x1_0000_0000 && parent < 0x1_0000_0000
    requires AllValid(children)
    requires Written(self, parent, children).Block?
    ensures var b := Written(self, parent, children).bytes;
            |b| == BLOCK_SIZE && Scan(b, 0, name) == Find(Packed(self, parent, children), name)
  {
    hide Encode, Scan, Total, Stretched, WellFormed, Packed, ValidChild;
    var ds := Packed(self, parent, children);
    PackedIsWellFormed(self, parent, children);
    StretchedIsWellFormed(ds);
    StretchedKeepsNames(ds);
    TotalOfNone();
    assert Stretched(ds)[..0] == [] && Stretched(ds)[0..] == Stretched(ds);
    ScanOfEncoded(Stretched(ds), 0, name);
    FindIgnoresRecLen(Stretched(ds), ds, name);
  }

  lemma WrittenStartsWithSelf(self: nat, parent: nat, children: seq<Child>)
    requires self < 0x1_0000_0000 && parent < 0x1_0000_0000
    requires AllValid(children) && Written(self, parent, children).Block?
    ensures var b := Written(self, parent, children).bytes;
            |b| == BLOCK_SIZE && U32(b, 0) == self
  {
    hide Encode, Total, WellFormed, Packed, ValidChild, U32, Stretched;
    var ds := Packed(self, parent, children);
    PackedIsWellFormed(self, parent, children);
    StretchedIsWellFormed(ds);
    StretchedKeepsNames(ds);
    PackedAt(self, parent, children, 0);
    TotalOfNone();
    assert Stretched(ds)[..0] == [];
    EntryScanned(Stretched(ds), 0, []);
  }

  lemma PackedAt(self: nat, parent: nat, children: seq<Child>, j: nat)
    requires j < |children| + 2
    ensures var d := Packed(self, parent, children)[j];
            if j == 0 then d.inode == self && d.name == DOT
            else if j == 1 then d.inode == parent && d.name == DOT_DOT
            else d.inode == children[j - 2].inode && d.name == children[j - 2].name
  {
    hide Need;
  }

  lemma FindOfPacked(self: nat, parent: nat, children: seq<Child>, name: seq<byte>)
    requires 0 < self && 0 < parent && DistinctNames(children)
    requires forall i :: 0 <= i < |children| ==> children[i].inode != 0
    ensures var r := Find(Packed(self, parent, children), name);
            && (name == DOT ==> r == Found(self))
            && (name == DOT_DOT ==> r == Found(parent))
            && (forall i :: 0 <= i < |children| && children[i].name == name ==> r == Found(children[i].inode))
            && (name != DOT && name != DOT_DOT && (forall i :: 0 <= i < |children| ==> children[i].name != name)
              ==> r == Absent)
  {
    hide Packed, Find;
    var ds := Packed(self, parent, children);
    PackedAt(self, parent, children, 0);
    PackedAt(self, parent, children, 1);
    if name == DOT {
      FindOfDistinct(ds, 0);
    } else if name == DOT_DOT {
      FindOfDistinct(ds, 1);
    } else {
      forall j | 2 <= j < |ds| ensures ds[j].inode == children[j - 2].inode && ds[j].name == children[j - 2].name {
        PackedAt(self, parent, children, j);
      }
      if i :| 0 <= i < |children| && children[i].name == name {
        assert ds[i + 2].name == name;
        FindOfDistinct(ds, i + 2);
      } else {
        FindOfMissing(ds, name);
      }
    }
  }

  /**
   * A block that was written answers every lookup: "." is the directory, ".." its parent, each
   * child's name its inode, and no other name is found. The records fill the block exactly.
   */
  lemma WrittenBlockIsRead(self: nat, parent: nat, children: seq<Child>, name: seq<byte>)
    requires 0 < self < 0x1_0000_0000 && 0 < parent < 0x1_0000_0000 && DistinctNames(children)
    requires AllValid(children) && forall i :: 0 <= i < |children| ==> children[i].inode != 0
    requires Written(self, parent, children).Block?
    ensures var b := Written(self, parent, children).bytes;
            var r := Scan(b, 0, name);
            && |b| == BLOCK_SIZE
            && (name == DOT ==> r == Found(self))
            && (name == DOT_DOT ==> r == Found(parent))
            && (forall i :: 0 <= i < |children| && children[i].name == name ==> r == Found(children[i].inode))
            && (name != DOT && name != DOT_DOT && (forall i :: 0 <= i < |children| ==> children[i].name != name)
              ==> r == Absent)
  {
    hide Scan, Find, Written, Packed, ValidChild;
    ScanOfWritten(self, parent, children, name);
    FindOfPacked(self, parent, children, name);
  }

  /** Whatever the children are called, what a lookup finds is a child of that name. */
  lemma FoundIsAChild(self: nat, parent: nat, children: seq<Child>, name: seq<byte>, ino: nat) returns (i: nat)
    requires self < 0x1_0000_0000 && parent < 0x1_0000_0000 && AllValid(children)
    requires Written(self, parent, children).Block? && name != DOT && name != DOT_DOT
    requires Scan(Written(self, parent, children).bytes, 0, name) == Found(ino)
    ensures i < |children| && children[i].name == name && children[i].inode == ino
  {
    hide Scan, Find, Written, Packed, ValidChild;
    ScanOfWritten(self, parent, children, name);
    var ds := Packed(self, parent, children);
    var k := FoundIsThere(ds, name, ino);
    PackedAt(self, parent, children, 0);
    PackedAt(self, parent, children, 1);
    PackedAt(self, parent, children, k);
    i := k - 2;
  }

  lemma {:induction false} FoundIsThere(ds: seq<Dirent>, name: seq<byte>, ino: nat) returns (k: nat)
    requires Find(ds, name) == Found(ino)
    ensures k < |ds| && ds[k].name == name && ds[k].inode == ino
  {
    k := 0;
    if ds[0].inode == 0 || ds[0].name != name {
      k := FoundIsThere(ds[1..], name, ino);
      k := k + 1;
    }
  }

  /** More children than the source's array of 256 would overflow the block long before. */
  lemma ChildCapNeverDrops(self: nat, parent: nat, children: seq<Child>)
    requires self < 0x1_0000_0000 && parent < 0x1_0000_0000 && |children| >= 126
    requires AllValid(children)
    ensures Written(self, parent, children) == Overflow
  {
    hide Total, Need;
    var ds := Packed(self, parent, children);
    PackedTotal(self, parent, children, |children|);
    assert ds[..|ds|] == ds;
  }

  lemma {:induction false} PackedTotal(self: nat, parent: nat, children: seq<Child>, n: nat)
    requires n <= |children| && AllValid(children)
    ensures Total(Packed(self, parent, children)[..n + 2]) >= 24 + 8 * n
  {
    hide Need;
    var ds := Packed(self, parent, children);
    if n == 0 {
      assert ds[..2][..1] == ds[..1] && ds[..1][..0] == [];
    } else {
      PackedTotal(self, parent, children, n - 1);
      assert ds[..n + 2][..n + 1] == ds[..n + 1] && ds[n + 1] == DirentOf(children[n - 1]);
    }
  }
}
