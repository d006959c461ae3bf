/**
 * The snapshot writer (packages/sandbox-vm-native/src/vm-image-builder.c): data blocks in
 * table order, then the inode table, then bitmaps, group descriptor and superblock.
 */
module SealedImage {
  import opened Prelude
  import opened ImageBytes
  import opened SourceTree
  import DirBlock

  const SECTOR: nat := 512
  const MAX_DIRECT: nat := 12
  const DIR_MODE: nat := 0x41ED   // 0040755
  const FILE_MODE: nat := 0x8124  // 0100444

  // ---- What the image contains ---------------------------------------------------

  function DirentChild(e: Entry): DirBlock.Child {
    DirBlock.Child(e.inode, if e.isDir then 2 else 1, Basename(e.relpath))
  }

  function DirentChildren(es: seq<Entry>): (cs: seq<DirBlock.Child>)
    ensures |cs| == |es| && forall i :: 0 <= i < |es| ==> cs[i] == DirentChild(es[i])
  {
    seq(|es|, i requires 0 <= i < |es| => DirentChild(es[i]))
  }

  function ParentInode(es: seq<Entry>, dir: seq<byte>): nat {
    if ParentRel(dir) == [] then ROOT_INO else InodeOf(es, ParentRel(dir))
  }

  predicate ValidEntry(e: Entry) {
    && 0 < e.inode <= FIRST_USR_INO + MAX_ENTRIES && |Basename(e.relpath)| < 256
  }

  /** The table entries fit the fields they are stored in. */
  ghost predicate ValidTable(es: seq<Entry>) {
    && es != [] && |es| <= MAX_ENTRIES
    && forall i :: 0 <= i < |es| ==> ValidEntry(es[i])
  }

  /** The blocks of a file of `size` bytes, counted in 32 bits; none counts as one. */
  function Blocks32(size: nat): (n: nat)
    ensures n > 0
  {
    var n := (size + BLOCK_SIZE - 1) / BLOCK_SIZE % 0x1_0000_0000;
    if n == 0 then 1 else n
  }

  function BlockCount(e: Entry): (n: nat)
    ensures n > 0
  {
    if e.isDir then 1 else Blocks32(|e.content|)
  }

  /** The data blocks of a file: its content and zeros, or what of it the counted blocks hold. */
  function FilePayload(content: seq<byte>, count: nat): (s: seq<byte>)
    ensures |s| == count * BLOCK_SIZE
  {
    if |content| <= count * BLOCK_SIZE then content + Zeros(count * BLOCK_SIZE - |content|)
      else content[..count * BLOCK_SIZE]
  }

  lemma {:induction false} InodeOfIsSmall(es: seq<Entry>, rel: seq<byte>, bound: nat)
    requires forall i :: 0 <= i < |es| ==> es[i].inode <= bound
    ensures InodeOf(es, rel) <= bound
  {
    if es != [] { InodeOfIsSmall(es[1..], rel, bound); }
  }

  lemma ChildrenAreValid(es: seq<Entry>, e: Entry)
    requires ValidTable(es) && e in es
    ensures e.inode < 0x1_0000_0000 && ParentInode(es, e.relpath) < 0x1_0000_0000
    ensures DirBlock.AllValid(DirentChildren(ChildrenOf(es, e.relpath)))
  {
    InodeOfIsSmall(es, ParentRel(e.relpath), FIRST_USR_INO + MAX_ENTRIES);
    var kids := ChildrenOf(es, e.relpath);
    forall i | 0 <= i < |kids| ensures DirBlock.ValidChild(DirentChild(kids[i])) {
      ChildrenOfMembers(es, e.relpath, kids[i]);
    }
  }

  function DirOutcome(es: seq<Entry>, e: Entry): DirBlock.Outcome
    requires ValidTable(es) && e in es
  {
    ChildrenAreValid(es, e);
    DirBlock.Written(e.inode, ParentInode(es, e.relpath), DirentChildren(ChildrenOf(es, e.relpath)))
  }

  /** Whether the entry's data can be emitted: its directory fits a block, its file twelve. */
  predicate Emits(es: seq<Entry>, e: Entry)
    requires ValidTable(es) && e in es
  {
    if e.isDir then DirOutcome(es, e).Block? else BlockCount(e) <= MAX_DIRECT
  }

  /** The data blocks of one entry. */
  function Payload(es: seq<Entry>, e: Entry): (s: seq<byte>)
    requires ValidTable(es) && e in es && Emits(es, e)
    ensures |s| == BlockCount(e) * BLOCK_SIZE
  {
    if e.isDir then
      ChildrenAreValid(es, e);
      WrittenIsOneBlock(e.inode, ParentInode(es, e.relpath), DirentChildren(ChildrenOf(es, e.relpath)));
      DirOutcome(es, e).bytes
    else FilePayload(e.content, BlockCount(e))
  }

  lemma WrittenIsOneBlock(self: nat, parent: nat, children: seq<DirBlock.Child>)
    requires self < 0x1_0000_0000 && parent < 0x1_0000_0000
    requires DirBlock.AllValid(children)
    requires DirBlock.Written(self, parent, children).Block?
    ensures |DirBlock.Written(self, parent, children).bytes| == BLOCK_SIZE
  {
    DirBlock.ScanOfWritten(self, parent, children, []);
  }

  /** The number of the first data block of entry `n`. */
  function FirstBlock(es: seq<Entry>, n: nat): (b: nat)
    requires n <= |es|
    ensures b >= DATA_FIRST
  {
    if n == 0 then DATA_FIRST else FirstBlock(es, n - 1) + BlockCount(es[n - 1])
  }

  /** The data area after the first `n` entries. */
  function Area(es: seq<Entry>, n: nat): (s: seq<byte>)
    requires ValidTable(es) && n <= |es| && forall i :: 0 <= i < n ==> Emits(es, es[i])
    ensures |s| == (FirstBlock(es, n) - DATA_FIRST) * BLOCK_SIZE
  {
    if n == 0 then [] else Area(es, n - 1) + Payload(es, es[n - 1])
  }

  function Pointers(blocks: seq<nat>, from: nat): (s: seq<byte>)
    requires from <= 15
    ensures |s| == 4 * (15 - from)
    decreases 15 - from
  {
    if from == 15 then [] else Le32(if from < |blocks| then blocks[from] else 0) + Pointers(blocks, from + 1)
  }

  /** struct ext4_inode with every field the writer sets; the others are zero. */
  function InodeBytes(mode: nat, size: nat, links: nat, blocks: seq<nat>): (s: seq<byte>)
    ensures |s| == INODE_SIZE
  {
    Le16(mode) + Zeros(2) + Le32(size) + Zeros(18) + Le16(links) + Le32(|blocks| * (BLOCK_SIZE / SECTOR))
    + Zeros(8) + Pointers(blocks, 0) + Zeros(28)
  }

  function BlockNumbers(first: nat, count: nat): (m: seq<nat>)
    ensures |m| == count && forall k :: 0 <= k < count ==> m[k] == first + k
  {
    seq(count, k => first + k)
  }

  function CountDirs(es: seq<Entry>): nat {
    if es == [] then 0 else CountDirs(es[..|es| - 1]) + if es[|es| - 1].isDir then 1 else 0
  }

  function InodeFor(es: seq<Entry>, i: nat): (s: seq<byte>)
    requires i < |es|
    ensures |s| == INODE_SIZE
  {
    var e := es[i];
    var blocks := BlockNumbers(FirstBlock(es, i), BlockCount(e));
    if e.isDir then InodeBytes(DIR_MODE, BLOCK_SIZE, 2 + CountDirs(ChildrenOf(es, e.relpath)), blocks)
    else InodeBytes(FILE_MODE, |e.content|, 1, blocks)
  }

  function InodeOffset(ino: nat): nat
    requires ino > 0
  {
    INODE_TABLE_FIRST * BLOCK_SIZE + (ino - 1) * INODE_SIZE
  }

  /** The superblock; free counts and directory count do not matter to a reader. */
  function SuperblockBytes(totalBlocks: nat, freeBlocks: nat, freeInodes: nat): (s: seq<byte>)
    ensures |s| == BLOCK_SIZE
  {
    Le32(N_INODES) + Le32(totalBlocks) + Zeros(4) + Le32(freeBlocks) + Le32(freeInodes) + Le32(1)
    + (Le32(0) + Zeros(4) + Le32(8 * BLOCK_SIZE) + Le32(8 * BLOCK_SIZE) + Le32(N_INODES))
    + (Zeros(12) + Le16(0xEF53) + Le16(1) + Le16(1) + Zeros(2))
    + (Zeros(12) + Le32(1) + Zeros(4) + Le32(FIRST_USR_INO))
    + (Le32(INODE_SIZE) + Zeros(4) + Le32(2) + Zeros(924))
  }

  function GroupDescriptorBytes(freeBlocks: nat, freeInodes: nat, usedDirs: nat): (s: seq<byte>)
    ensures |s| == BLOCK_SIZE
  {
    Le32(3) + Le32(4) + Le32(INODE_TABLE_FIRST) + Le16(freeBlocks) + Le16(freeInodes) + Le16(usedDirs) + Zeros(1006)
  }

  // ---- The emit loop -----------------------------------------------------------------

  datatype Status = Ok | Died | Undefined

  /** The file up to the cursor, the part not yet written read as zeros. */
  function Grown(bytes: seq<byte>, cursor: nat): seq<byte>
    requires |bytes| <= cursor
  {
    bytes + Zeros(cursor - |bytes|)
  }

  lemma WrittenAtCursor(bytes: seq<byte>, cursor: nat, buf: seq<byte>)
    requires |bytes| <= cursor
    ensures WriteAt(bytes, cursor, buf) == Grown(bytes, cursor) + buf
    ensures Grown(Grown(bytes, cursor) + buf, cursor + |buf|) == Grown(bytes, cursor) + buf
  {
  }

  /** The image so far: everything before the data area is still zero. */
  ghost predicate Emitted(es: seq<Entry>, n: nat, bytes: seq<byte>, cursor: nat, blockMap: seq<seq<nat>>) {
    && ValidTable(es) && n <= |es| == |blockMap|
    && (forall i :: 0 <= i < n ==> Emits(es, es[i]))
    && cursor == FirstBlock(es, n) * BLOCK_SIZE && |bytes| <= cursor && (n > 0 ==> |bytes| == cursor)
    && Grown(bytes, cursor) == Zeros(DATA_FIRST * BLOCK_SIZE) + Area(es, n)
    && forall i :: 0 <= i < n ==> blockMap[i] == BlockNumbers(FirstBlock(es, i), BlockCount(es[i]))
  }

  lemma EmittedNothing(es: seq<Entry>, blockMap: seq<seq<nat>>)
    requires ValidTable(es) && |blockMap| == |es|
    ensures Emitted(es, 0, [], DATA_FIRST * BLOCK_SIZE, blockMap)
  {
  }

  lemma EmittedOneMore(es: seq<Entry>, n: nat, bytes: seq<byte>, cursor: nat, blockMap: seq<seq<nat>>,
                       bytes': seq<byte>, cursor': nat)
    requires Emitted(es, n, bytes, cursor, blockMap) && n < |es| && Emits(es, es[n])
    requires cursor' == cursor + BlockCount(es[n]) * BLOCK_SIZE
    requires bytes' == Grown(bytes, cursor) + Payload(es, es[n])
    ensures Emitted(es, n + 1, bytes', cursor',
                    blockMap[n := BlockNumbers(FirstBlock(es, n), BlockCount(es[n]))])
  {
    hide Payload, Emits, ValidTable, BlockCount, Area, FirstBlock;
    AreaOneMore(es, n);
    assert Grown(bytes', cursor') == bytes' == Zeros(DATA_FIRST * BLOCK_SIZE) + Area(es, n + 1);
  }

  lemma AreaOneMore(es: seq<Entry>, n: nat)
    requires ValidTable(es) && n < |es| && forall i :: 0 <= i <= n ==> Emits(es, es[i])
    ensures Area(es, n + 1) == Area(es, n) + Payload(es, es[n])
    ensures FirstBlock(es, n + 1) * BLOCK_SIZE == FirstBlock(es, n) * BLOCK_SIZE + BlockCount(es[n]) * BLOCK_SIZE
  {
    hide Payload, Emits, ValidTable, BlockCount;
  }

  /** Block `k` of a file: its share of the content, padded with zeros. */
  lemma FileBlock(content: seq<byte>, count: nat, k: nat)
    requires k < count
    ensures var payload := FilePayload(content, count);
      var from := if k * BLOCK_SIZE < |content| then k * BLOCK_SIZE else |content|;
      var want := if |content| - from < BLOCK_SIZE then |content| - from else BLOCK_SIZE;
      && (k + 1) * BLOCK_SIZE <= |payload|
      && payload[k * BLOCK_SIZE..(k + 1) * BLOCK_SIZE] == content[from..from + want] + Zeros(BLOCK_SIZE - want)
  {
    assert (k + 1) * BLOCK_SIZE <= count * BLOCK_SIZE;
  }

  ghost predicate AllEmit(es: seq<Entry>, n: nat) {
    ValidTable(es) && n <= |es| && forall i :: 0 <= i < n ==> Emits(es, es[i])
  }

  /** Some directory ends four bytes before the end of its block. */
  ghost predicate SomeUndefined(es: seq<Entry>) {
    ValidTable(es) && exists i :: 0 <= i < |es| && es[i].isDir && DirOutcome(es, es[i]).OutOfBounds?
  }

  lemma NoneEmitted(es: seq<Entry>)
    requires ValidTable(es)
    ensures AllEmit(es, 0)
  {
  }

  lemma OneMoreEmits(es: seq<Entry>, n: nat)
    requires AllEmit(es, n) && n < |es|
    ensures ValidTable(es)
    ensures Emits(es, es[n]) ==> AllEmit(es, n + 1)
    ensures !Emits(es, es[n]) ==> !AllEmit(es, |es|)
    ensures es[n].isDir && DirOutcome(es, es[n]).OutOfBounds? ==> SomeUndefined(es)
  {
    hide ValidTable, Emits, DirOutcome;
  }

  class Writer {
    const entries: seq<Entry>
    var bytes: seq<byte>
    var cursor: nat
    var blockMap: seq<seq<nat>>

    constructor (es: seq<Entry>)
      requires ValidTable(es)
      ensures entries == es && Emitted(entries, 0, bytes, cursor, blockMap)
    {
      entries := es;
      bytes, cursor := [], DATA_FIRST * BLOCK_SIZE;
      blockMap := seq(|es|, _ => []);
      EmittedNothing(es, seq(|es|, _ => []));
    }

    method AllocBlock() returns (b: nat)
      modifies this`cursor
      ensures b == old(cursor) && cursor == old(cursor) + BLOCK_SIZE
    {
      b := cursor;
      cursor := cursor + BLOCK_SIZE;
    }

    method XWriteAt(off: nat, buf: seq<byte>)
      modifies this`bytes
      ensures bytes == WriteAt(old(bytes), off, buf)
    {
      bytes := WriteAt(bytes, off, buf);
    }

    method EmitDirectory(i: nat) returns (r: Status)
      requires Emitted(entries, i, bytes, cursor, blockMap) && i < |entries| && entries[i].isDir
      modifies this
      ensures r.Ok? <==> Emits(entries, entries[i])
      ensures r.Undefined? <==> DirOutcome(entries, entries[i]).OutOfBounds?
      ensures r.Ok? ==> Emitted(entries, i + 1, bytes, cursor, blockMap)
    {
      hide Emitted, ValidTable, DirentChildren, BlockCount, ChildrenOf, DirBlock.Written, DirOutcome, Payload, Emits,
        Grown, BlockNumbers;
      ghost var bytes0, cursor0, map0 := bytes, cursor, blockMap;
      EmittedFacts(entries, i, bytes, cursor, blockMap);
      var e := entries[i];
      var children := CollectChildren(entries, e.relpath, MAX_CHILDREN);
      var parent := ROOT_INO;
      if e.relpath != [] {
        var parentrel := ParentRel(e.relpath);
        if parentrel != [] { parent := InodeOf(entries, parentrel); }
      }
      DirectoryFacts(entries, e, children);
      var blk := DirBlock.WriteDirectoryBlock(e.inode, parent, DirentChildren(children));
      match blk {
        case Overflow => return Died;
        case OutOfBounds => return Undefined;
        case Block(b) =>
          var boff := AllocBlock();
          WrittenAtCursor(bytes, boff, b);
          XWriteAt(boff, b);
          blockMap := blockMap[i := [boff / BLOCK_SIZE]];
          OneBlock(FirstBlock(entries, i), boff);
          EmittedOneMore(entries, i, bytes0, cursor0, map0, bytes, cursor);
          return Ok;
      }
    }

    /** write_file_data: each block is allocated, recorded and written on its own. */
    method EmitFile(i: nat) returns (r: Status)
      requires Emitted(entries, i, bytes, cursor, blockMap) && i < |entries| && !entries[i].isDir
      modifies this
      ensures r == if Emits(entries, entries[i]) then Ok else Died
      ensures r.Ok? ==> Emitted(entries, i + 1, bytes, cursor, blockMap)
    {
      hide Emitted, ValidTable, BlockCount, Payload, Emits, BlockNumbers, FirstBlock, Grown, Zeros;
      ghost var bytes0, cursor0, map0 := bytes, cursor, blockMap;
      EmittedFacts(entries, i, bytes, cursor, blockMap);
      FileFacts(entries, entries[i]);
      var content := entries[i].content;
      var nblocks := (|content| + BLOCK_SIZE - 1) / BLOCK_SIZE % 0x1_0000_0000;
      if nblocks == 0 { nblocks := 1; }
      if nblocks > MAX_DIRECT { return Died; }
      var blocks := WriteBlocks(content, nblocks, FirstBlock(entries, i));
      blockMap := blockMap[i := blocks];
      EmittedOneMore(entries, i, bytes0, cursor0, map0, bytes, cursor);
      return Ok;
    }

    /** The loop of write_file_data, over the content read from the file descriptor. */
    method WriteBlocks(content: seq<byte>, nblocks: nat, ghost first: nat) returns (blocks: seq<nat>)
      requires |bytes| <= cursor == first * BLOCK_SIZE && nblocks > 0
      modifies this`bytes, this`cursor
      ensures bytes == Grown(old(bytes), old(cursor)) + FilePayload(content, nblocks)
      ensures cursor == old(cursor) + nblocks * BLOCK_SIZE && blocks == BlockNumbers(first, nblocks)
    {
      hide FileProgress, FilePayload, Grown, Zeros, BlockNumbers, WriteAt;
      ghost var bytes0, cursor0 := bytes, cursor;
      var remaining: nat := |content|;
      blocks := [];
      FileStart(content, nblocks, first, bytes, cursor);
      for blk := 0 to nblocks
        invariant FileProgress(content, nblocks, first, bytes0, cursor0, blk, bytes, cursor, remaining, blocks)
      {
        FileBounds(content, nblocks, first, bytes0, cursor0, blk, bytes, cursor, remaining, blocks);
        ghost var was := bytes;
        var cur := AllocBlock();
        var want := if remaining < BLOCK_SIZE then remaining else BLOCK_SIZE;
        var buf := content[|content| - remaining..|content| - remaining + want] + Zeros(BLOCK_SIZE - want);
        XWriteAt(cur, buf);
        FileStep(content, nblocks, first, bytes0, cursor0, blk, was, cur, remaining, blocks, buf, bytes);
        blocks := blocks + [cur / BLOCK_SIZE];
        remaining := remaining - want;
      }
      FileEnd(content, nblocks, first, bytes0, cursor0, bytes, cursor, remaining, blocks);
    }

    /** The loop over the sorted table; the first entry that cannot be emitted ends the build. */
    method EmitAll() returns (r: Status)
      requires Emitted(entries, 0, bytes, cursor, blockMap)
      modifies this
      ensures r.Ok? <==> AllEmit(entries, |entries|)
      ensures r.Undefined? ==> SomeUndefined(entries)
      ensures r.Ok? ==> Emitted(entries, |entries|, bytes, cursor, blockMap)
    {
      EmittedFacts(entries, 0, bytes, cursor, blockMap);
      hide ValidTable, Emitted, Emits, DirOutcome, FirstBlock, AllEmit, SomeUndefined;
      NoneEmitted(entries);
      for i := 0 to |entries|
        invariant Emitted(entries, i, bytes, cursor, blockMap) && AllEmit(entries, i)
      {
        OneMoreEmits(entries, i);
        if entries[i].isDir { r := EmitDirectory(i); } else { r := EmitFile(i); }
        if !r.Ok? { return r; }
      }
      return Ok;
    }

    /** n_subdirs of a directory, counted over at most 256 children. */
    method CountSubdirs(e: Entry) returns (n: nat)
      ensures |ChildrenOf(entries, e.relpath)| <= MAX_CHILDREN ==> n == CountDirs(ChildrenOf(entries, e.relpath))
    {
      hide ChildrenOf;
      var children := CollectChildren(entries, e.relpath, MAX_CHILDREN);
      n := 0;
      for k := 0 to |children|
        invariant n == CountDirs(children[..k])
      {
        assert children[..k + 1][..k] == children[..k];
        if children[k].isDir { n := n + 1; }
      }
      assert children[..|children|] == children;
    }

    /** The inode of one entry, from the blocks recorded for it. */
    method InodeBuffer(i: nat, ghost emitted: seq<byte>) returns (buf: seq<byte>)
      requires Emitted(entries, |entries|, emitted, cursor, blockMap) && i < |entries|
      ensures buf == InodeFor(entries, i)
    {
      EmittedFacts(entries, |entries|, emitted, cursor, blockMap);
      hide Emitted, InodeBytes, InodeFor, ChildrenOf, FirstBlock;
      var e := entries[i];
      var subdirs := CountSubdirs(e);
      buf := if e.isDir then InodeBytes(DIR_MODE, BLOCK_SIZE, 2 + subdirs, blockMap[i])
             else InodeBytes(FILE_MODE, |e.content|, 1, blockMap[i]);
      InodeIs(entries, i, emitted, cursor, blockMap, subdirs);
    }

    /** The inode loop. */
    method WriteInodes()
      requires Emitted(entries, |entries|, bytes, cursor, blockMap)
      modifies this`bytes
      ensures InodesFit(entries) ==> TableWritten(entries, |entries|, bytes)
      ensures DistinctInodes(entries) ==> SlotsHeld(entries, |entries|, bytes)
    {
      hide *;
      EmittedFacts(entries, |entries|, bytes, cursor, blockMap);
      TableStart(entries, bytes, cursor, blockMap);
      NoSlotsYet(entries, bytes);
      ghost var bytes0 := bytes;
      for i := 0 to |entries|
        invariant InodesFit(entries) ==> TableWritten(entries, i, bytes)
        invariant DistinctInodes(entries) ==> SlotsHeld(entries, i, bytes)
      {
        var buf := InodeBuffer(i, bytes0);
        TableOneMore(entries, i, bytes);
        OneMoreSlot(entries, i, bytes);
        XWriteAt(InodeOffset(entries[i].inode), buf);
      }
    }

    /** Bitmaps, group descriptor and superblock. */
    method WriteMetadata()
      requires entries != []
      modifies this`bytes
      ensures bytes == WithMetadata(entries, old(bytes))
      ensures TableWritten(entries, |entries|, old(bytes)) ==> Sealed(entries, bytes)
      ensures SlotsHeld(entries, |entries|, old(bytes)) ==> SlotsHeld(entries, |entries|, bytes)
    {
      hide SlotsHeld, Bitmap, GroupDescriptor, Superblock, Sealed, WriteAt, TableWritten, FirstBlock, HighestInode;
      MetadataWritten(entries, bytes);
      MetadataKeepsSlots(entries, bytes);
      XWriteAt(BITMAP_OFF, Bitmap(0, FirstBlock(entries, |entries|) - 1));
      XWriteAt(INODE_BITMAP_OFF, Bitmap(1, HighestInode(entries)));
      XWriteAt(GROUP_OFF, GroupDescriptor(entries));
      XWriteAt(SUPER_OFF, Superblock(entries));
    }
  }

  /** How much of a file has been read when `blk` blocks are written. */
  function Position(content: seq<byte>, blk: nat): (p: nat)
    ensures p <= |content|
  {
    if blk * BLOCK_SIZE < |content| then blk * BLOCK_SIZE else |content|
  }

  lemma FileFacts(es: seq<Entry>, e: Entry)
    requires ValidTable(es) && e in es && !e.isDir
    ensures BlockCount(e) == Blocks32(|e.content|)
    ensures Emits(es, e) <==> BlockCount(e) <= MAX_DIRECT
    ensures Emits(es, e) ==> Payload(es, e) == FilePayload(e.content, BlockCount(e))
  {
    hide DirOutcome, FilePayload, Blocks32;
  }

  /** A file the format has room for. */
  predicate IsWhole(content: seq<byte>) { |content| <= MAX_DIRECT * BLOCK_SIZE }

  /** Of the files that are emitted, those whose block count wrapped are not whole: from 2^42 - 1023 bytes on. */
  lemma WholeExactly(es: seq<Entry>, e: Entry)
    requires ValidTable(es) && e in es && !e.isDir && Emits(es, e)
    ensures IsWhole(e.content) <==> |e.content| < 0x400_0000_0000 - 1023
  {
    hide ValidTable, DirOutcome;
    var n := (|e.content| + BLOCK_SIZE - 1) / BLOCK_SIZE;
    if |e.content| < 0x400_0000_0000 - 1023 { assert n < 0x1_0000_0000 && n % 0x1_0000_0000 == n; }
  }

  /** Such files are emitted: the block count of one of 2^42 bytes wraps to none. */
  lemma WrappedFileIsEmitted(es: seq<Entry>, e: Entry)
    requires ValidTable(es) && e in es && !e.isDir && |e.content| == 0x400_0000_0000
    ensures Emits(es, e) && BlockCount(e) == 1 && !IsWhole(e.content)
  {
    hide ValidTable, DirOutcome;
    assert (|e.content| + BLOCK_SIZE - 1) / BLOCK_SIZE == 0x1_0000_0000;
  }

  /** The loop of write_file_data after `blk` blocks, started at (bytes0, cursor0). */
  ghost predicate FileProgress(content: seq<byte>, count: nat, first: nat, bytes0: seq<byte>, cursor0: nat,
                               blk: nat, bytes: seq<byte>, cursor: nat, remaining: nat, done: seq<nat>) {
    && blk <= count && |bytes0| <= cursor0 == first * BLOCK_SIZE
    && |bytes| <= cursor == (first + blk) * BLOCK_SIZE && (blk > 0 ==> |bytes| == cursor)
    && remaining == |content| - Position(content, blk)
    && blk * BLOCK_SIZE <= |FilePayload(content, count)|
    && Grown(bytes, cursor) == Grown(bytes0, cursor0) + FilePayload(content, count)[..blk * BLOCK_SIZE]
    && done == BlockNumbers(first, blk)
  }

  lemma FileStart(content: seq<byte>, count: nat, first: nat, bytes: seq<byte>, cursor: nat)
    requires |bytes| <= cursor == first * BLOCK_SIZE
    ensures FileProgress(content, count, first, bytes, cursor, 0, bytes, cursor, |content|, [])
  {
    assert FilePayload(content, count)[..0 * BLOCK_SIZE] == [];
  }

  lemma FileBounds(content: seq<byte>, count: nat, first: nat, bytes0: seq<byte>, cursor0: nat,
                   blk: nat, bytes: seq<byte>, cursor: nat, remaining: nat, done: seq<nat>)
    requires FileProgress(content, count, first, bytes0, cursor0, blk, bytes, cursor, remaining, done)
    ensures remaining <= |content| && |done| == blk
  {
  }

  lemma FileStep(content: seq<byte>, count: nat, first: nat, bytes0: seq<byte>, cursor0: nat, blk: nat,
                 bytes: seq<byte>, cursor: nat, remaining: nat, done: seq<nat>, buf: seq<byte>, bytes': seq<byte>)
    requires FileProgress(content, count, first, bytes0, cursor0, blk, bytes, cursor, remaining, done) && blk < count
    requires var want := if remaining < BLOCK_SIZE then remaining else BLOCK_SIZE;
      && remaining <= |content|
      && buf == content[|content| - remaining..|content| - remaining + want] + Zeros(BLOCK_SIZE - want)
      && bytes' == WriteAt(bytes, cursor, buf)
    ensures FileProgress(content, count, first, bytes0, cursor0, blk + 1, bytes', cursor + BLOCK_SIZE,
                         remaining - (if remaining < BLOCK_SIZE then remaining else BLOCK_SIZE),
                           done + [cursor / BLOCK_SIZE])
  {
    PayloadStep(content, count, blk, remaining, buf);
    hide Grown, FilePayload, WriteAt, Zeros, Position, BlockNumbers;
    WrittenAtCursor(bytes, cursor, buf);
    var before, payload := Grown(bytes0, cursor0), FilePayload(content, count);
    assert (before + payload[..blk * BLOCK_SIZE]) + buf == before + (payload[..blk * BLOCK_SIZE] + buf);
    GrownAll(bytes', cursor + BLOCK_SIZE);
    NextBlockNumber(first, blk, cursor);
  }

  lemma NextBlockNumber(first: nat, blk: nat, cursor: nat)
    requires cursor == (first + blk) * BLOCK_SIZE
    ensures BlockNumbers(first, blk + 1) == BlockNumbers(first, blk) + [cursor / BLOCK_SIZE]
    ensures cursor + BLOCK_SIZE == (first + (blk + 1)) * BLOCK_SIZE
  {
    assert cursor / BLOCK_SIZE == first + blk;
  }

  lemma PayloadStep(content: seq<byte>, count: nat, blk: nat, remaining: nat, buf: seq<byte>)
    requires blk < count && remaining == |content| - Position(content, blk)
    requires var want := if remaining < BLOCK_SIZE then remaining else BLOCK_SIZE;
      buf == content[|content| - remaining..|content| - remaining + want] + Zeros(BLOCK_SIZE - want)
    ensures var payload, lo, hi := FilePayload(content, count), blk * BLOCK_SIZE, (blk + 1) * BLOCK_SIZE;
      && hi <= |payload| && payload[..hi] == payload[..lo] + buf
    ensures Position(content, blk + 1)
      == |content| - (remaining - (if remaining < BLOCK_SIZE then remaining else BLOCK_SIZE))
    ensures |buf| == BLOCK_SIZE
  {
    var payload, lo, hi := FilePayload(content, count), blk * BLOCK_SIZE, (blk + 1) * BLOCK_SIZE;
    FileBlock(content, count, blk);
    PayloadLength(content, count, blk);
    assert buf == payload[lo..hi];
    assert payload[..hi] == payload[..lo] + payload[lo..hi];
  }

  lemma PayloadLength(content: seq<byte>, count: nat, blk: nat)
    requires blk < count
    ensures (blk + 1) * BLOCK_SIZE <= |FilePayload(content, count)|
  {
  }

  lemma FileEnd(content: seq<byte>, count: nat, first: nat, bytes0: seq<byte>, cursor0: nat,
                bytes: seq<byte>, cursor: nat, remaining: nat, done: seq<nat>)
    requires FileProgress(content, count, first, bytes0, cursor0, count, bytes, cursor, remaining, done) && count > 0
    ensures bytes == Grown(bytes0, cursor0) + FilePayload(content, count)
    ensures cursor == cursor0 + count * BLOCK_SIZE && done == BlockNumbers(first, count)
  {
    GrownAll(bytes, cursor);
    var payload := FilePayload(content, count);
    assert payload[..count * BLOCK_SIZE] == payload;
  }

  lemma GrownAll(bytes: seq<byte>, cursor: nat)
    requires |bytes| <= cursor
    ensures |bytes| == cursor ==> Grown(bytes, cursor) == bytes
  {
  }

  lemma EmittedFacts(es: seq<Entry>, n: nat, bytes: seq<byte>, cursor: nat, blockMap: seq<seq<nat>>)
    requires Emitted(es, n, bytes, cursor, blockMap)
    ensures ValidTable(es) && |blockMap| == |es| && |bytes| <= cursor && n <= |es|
    ensures cursor == FirstBlock(es, n) * BLOCK_SIZE && forall i :: 0 <= i < |es| ==> es[i].inode > 0
  {
  }

  lemma OneBlock(b: nat, off: nat)
    requires off == b * BLOCK_SIZE
    ensures [off / BLOCK_SIZE] == BlockNumbers(b, 1)
  {
  }

  /** The cap of 256 children never changes what is written: so many would not fit anyway. */
  lemma DirectoryFacts(es: seq<Entry>, e: Entry, children: seq<Entry>)
    requires ValidTable(es) && e in es && e.isDir
    requires var all := ChildrenOf(es, e.relpath);
             children == if |all| <= MAX_CHILDREN then all else all[..MAX_CHILDREN]
    ensures var parent := if e.relpath == [] || ParentRel(e.relpath) == [] then ROOT_INO
      else InodeOf(es, ParentRel(e.relpath));
      && e.inode < 0x1_0000_0000 && parent < 0x1_0000_0000
      && DirBlock.AllValid(DirentChildren(children))
      && DirOutcome(es, e) == DirBlock.Written(e.inode, parent, DirentChildren(children))
    ensures Emits(es, e) <==> DirOutcome(es, e).Block?
    ensures BlockCount(e) == 1 && (Emits(es, e) ==> Payload(es, e) == DirOutcome(es, e).bytes)
  {
    hide DirBlock.Written, DirentChild, ChildrenOf, BlockCount;
    OneBlockPerDirectory(e);
    ChildrenAreValid(es, e);
    var all := ChildrenOf(es, e.relpath);
    assert ParentInode(es, e.relpath) == if e.relpath == [] || ParentRel(e.relpath) == [] then ROOT_INO
      else InodeOf(es, ParentRel(e.relpath));
    if |all| > MAX_CHILDREN {
      assert DirentChildren(children) == DirentChildren(all)[..MAX_CHILDREN];
      DirBlock.ChildCapNeverDrops(e.inode, ParentInode(es, e.relpath), DirentChildren(all));
      DirBlock.ChildCapNeverDrops(e.inode, ParentInode(es, e.relpath), DirentChildren(children));
    }
  }

  lemma OneBlockPerDirectory(e: Entry)
    requires e.isDir
    ensures BlockCount(e) == 1
  {
  }

  // ---- The inode table -------------------------------------------------------------

  /** Every inode number has a slot of its own in the table of 256. */
  ghost predicate InodesFit(es: seq<Entry>) {
    && (forall i :: 0 <= i < |es| ==> 0 < es[i].inode <= N_INODES)
    && forall i, j :: 0 <= i < j < |es| ==> es[i].inode != es[j].inode
  }

  ghost predicate DistinctInodes(es: seq<Entry>) {
    && (forall i :: 0 <= i < |es| ==> 0 < es[i].inode)
    && forall i, j :: 0 <= i < j < |es| ==> es[i].inode != es[j].inode
  }

  /** The first `n` inodes are where their numbers put them, inside the table or beyond it. */
  ghost predicate SlotsHeld(es: seq<Entry>, n: nat, bytes: seq<byte>) {
    n <= |es| && forall i :: 0 <= i < n ==> es[i].inode > 0 && HoldsInode(bytes, es[i].inode, InodeFor(es, i))
  }

  lemma NoSlotsYet(es: seq<Entry>, bytes: seq<byte>)
    ensures SlotsHeld(es, 0, bytes)
  {
  }

  lemma OneMoreSlot(es: seq<Entry>, n: nat, bytes: seq<byte>)
    requires n < |es| && es[n].inode > 0
    ensures DistinctInodes(es) && SlotsHeld(es, n, bytes)
            ==> SlotsHeld(es, n + 1, WriteAt(bytes, InodeOffset(es[n].inode), InodeFor(es, n)))
  {
    if DistinctInodes(es) && SlotsHeld(es, n, bytes) {
      var ino, buf := es[n].inode, InodeFor(es, n);
      hide WriteAt, InodeFor, InodeOffset, HoldsInode;
      OtherSlotKept(bytes, ino, buf, ino, buf);
      forall i | 0 <= i < n ensures HoldsInode(WriteAt(bytes, InodeOffset(ino), buf), es[i].inode, InodeFor(es, i)) {
        OtherSlotKept(bytes, ino, buf, es[i].inode, InodeFor(es, i));
      }
    }
  }

  lemma OtherSlotKept(bytes: seq<byte>, ino: nat, buf: seq<byte>, other: nat, held: seq<byte>)
    requires 0 < ino && |buf| == INODE_SIZE && other > 0
    ensures var bytes' := WriteAt(bytes, InodeOffset(ino), buf);
      && HoldsInode(bytes', ino, buf)
      && (other != ino && HoldsInode(bytes, other, held) ==> HoldsInode(bytes', other, held))
  {
    var off := InodeOffset(ino);
    assert other == ino || InodeOffset(other) + INODE_SIZE <= off || off + INODE_SIZE <= InodeOffset(other);
    hide WriteAt, InodeOffset;
    WrittenBytes(bytes, off, buf);
    if other != ino && HoldsInode(bytes, other, held) {
      UntouchedBytes(bytes, off, buf, InodeOffset(other), INODE_SIZE);
    }
  }

  /** The data area is in place, and so are the first `n` inodes. */
  ghost predicate TableWritten(es: seq<Entry>, n: nat, bytes: seq<byte>) {
    && ValidTable(es) && n <= |es| && (forall i :: 0 <= i < |es| ==> Emits(es, es[i]))
    && |bytes| == FirstBlock(es, |es|) * BLOCK_SIZE
    && bytes[DATA_FIRST * BLOCK_SIZE..] == Area(es, |es|)
    && SlotsHeld(es, n, bytes)
  }

  predicate HoldsInode(bytes: seq<byte>, ino: nat, buf: seq<byte>)
    requires ino > 0
  {
    InodeOffset(ino) + INODE_SIZE <= |bytes| && bytes[InodeOffset(ino)..InodeOffset(ino) + INODE_SIZE] == buf
  }

  lemma TableStart(es: seq<Entry>, bytes: seq<byte>, cursor: nat, blockMap: seq<seq<nat>>)
    requires Emitted(es, |es|, bytes, cursor, blockMap)
    ensures TableWritten(es, 0, bytes)
  {
    hide Area, Emits, FirstBlock;
    assert Grown(bytes, cursor) == bytes;
    assert bytes[DATA_FIRST * BLOCK_SIZE..] == Area(es, |es|);
  }

  lemma InodeIs(es: seq<Entry>, i: nat, bytes: seq<byte>, cursor: nat, blockMap: seq<seq<nat>>, subdirs: nat)
    requires Emitted(es, |es|, bytes, cursor, blockMap) && i < |es|
    requires |ChildrenOf(es, es[i].relpath)| <= MAX_CHILDREN ==> subdirs == CountDirs(ChildrenOf(es, es[i].relpath))
    ensures InodeFor(es, i) == if es[i].isDir then InodeBytes(DIR_MODE, BLOCK_SIZE, 2 + subdirs, blockMap[i])
                               else InodeBytes(FILE_MODE, |es[i].content|, 1, blockMap[i])
  {
    hide Area, FirstBlock, ValidTable, InodeBytes, ChildrenOf, CountDirs, BlockCount;
    if es[i].isDir { FewChildren(es, es[i]); }
  }

  lemma FewChildren(es: seq<Entry>, e: Entry)
    requires ValidTable(es) && e in es && e.isDir && Emits(es, e)
    ensures |ChildrenOf(es, e.relpath)| <= MAX_CHILDREN
  {
    hide DirBlock.Written, ChildrenOf;
    ChildrenAreValid(es, e);
    var kids := DirentChildren(ChildrenOf(es, e.relpath));
    if |kids| >= 126 { DirBlock.ChildCapNeverDrops(e.inode, ParentInode(es, e.relpath), kids); }
  }

  /** Slots of different inodes do not overlap, and none reaches into the data area. */
  lemma SlotsAreDisjoint(ino: nat, other: nat)
    requires 0 < ino <= N_INODES && 0 < other && ino != other
    ensures InodeOffset(ino) + INODE_SIZE <= DATA_FIRST * BLOCK_SIZE
      && INODE_TABLE_FIRST * BLOCK_SIZE <= InodeOffset(ino)
    ensures InodeOffset(ino) + INODE_SIZE <= InodeOffset(other) || InodeOffset(other) + INODE_SIZE <= InodeOffset(ino)
  {
  }

  lemma SlotWriteKeepsData(bytes: seq<byte>, ino: nat, buf: seq<byte>)
    requires 0 < ino <= N_INODES && |buf| == INODE_SIZE && DATA_FIRST * BLOCK_SIZE <= |bytes|
    ensures var bytes' := WriteAt(bytes, InodeOffset(ino), buf);
      |bytes'| == |bytes| && bytes'[DATA_FIRST * BLOCK_SIZE..] == bytes[DATA_FIRST * BLOCK_SIZE..]
  {
    var off, data := InodeOffset(ino), DATA_FIRST * BLOCK_SIZE;
    SlotsAreDisjoint(ino, ino + 1);
    hide WriteAt, InodeOffset;
    var bytes' := WriteAt(bytes, off, buf);
    UntouchedBytes(bytes, off, buf, data, |bytes| - data);
    assert bytes'[data..] == bytes'[data..data + (|bytes| - data)];
    assert bytes[data..] == bytes[data..data + (|bytes| - data)];
  }

  lemma TableOneMore(es: seq<Entry>, n: nat, bytes: seq<byte>)
    requires n < |es| && es[n].inode > 0
    ensures InodesFit(es) && TableWritten(es, n, bytes)
            ==> TableWritten(es, n + 1, WriteAt(bytes, InodeOffset(es[n].inode), InodeFor(es, n)))
  {
    if InodesFit(es) && TableWritten(es, n, bytes) {
      SlotInside(es, es[n].inode, |bytes|);
      FittingIsDistinct(es);
      hide WriteAt, InodeFor, InodeOffset, Area, Emits, FirstBlock, ValidTable, HoldsInode, SlotsHeld, DistinctInodes;
      SlotWriteKeepsData(bytes, es[n].inode, InodeFor(es, n));
      OneMoreSlot(es, n, bytes);
    }
  }

  lemma FittingIsDistinct(es: seq<Entry>)
    requires InodesFit(es)
    ensures DistinctInodes(es)
  {
  }

  lemma SlotInside(es: seq<Entry>, ino: nat, size: nat)
    requires 0 < ino <= N_INODES && size == FirstBlock(es, |es|) * BLOCK_SIZE
    ensures InodeOffset(ino) + INODE_SIZE <= DATA_FIRST * BLOCK_SIZE <= size
  {
  }

  // ---- Metadata blocks -----------------------------------------------------------------

  function HighestInode(es: seq<Entry>): nat {
    if es == [] then 0
    else
      var h := HighestInode(es[..|es| - 1]);
      if es[|es| - 1].inode > h then es[|es| - 1].inode else h
  }

  function Bit(on: bool, weight: nat): (b: nat)
    ensures b <= weight
  {
    if on then weight else 0
  }

  /** A block with the bits first..last set. */
  function Bitmap(first: nat, last: nat): (s: seq<byte>)
    ensures |s| == BLOCK_SIZE
  {
    seq(BLOCK_SIZE, k requires 0 <= k < BLOCK_SIZE =>
      Bit(first <= 8 * k <= last, 1) + Bit(first <= 8 * k + 1 <= last, 2)
      + Bit(first <= 8 * k + 2 <= last, 4) + Bit(first <= 8 * k + 3 <= last, 8)
      + Bit(first <= 8 * k + 4 <= last, 16) + Bit(first <= 8 * k + 5 <= last, 32)
      + Bit(first <= 8 * k + 6 <= last, 64) + Bit(first <= 8 * k + 7 <= last, 128))
  }

  /** Differences are stored modulo 2^32. */
  function Wrapped(n: int): nat { n % 0x1_0000_0000 }

  function Superblock(es: seq<Entry>): (s: seq<byte>)
    ensures |s| == BLOCK_SIZE
  {
    var total := FirstBlock(es, |es|);
    SuperblockBytes(total, Wrapped(8 * BLOCK_SIZE - (total - DATA_FIRST)), Wrapped(N_INODES - HighestInode(es)))
  }

  function GroupDescriptor(es: seq<Entry>): (s: seq<byte>)
    ensures |s| == BLOCK_SIZE
  {
    var total := FirstBlock(es, |es|);
    GroupDescriptorBytes(Wrapped(8 * BLOCK_SIZE - (total - DATA_FIRST)), Wrapped(N_INODES - HighestInode(es)),
      CountDirs(es))
  }

  /** The finished image of a table of entries. */
  ghost predicate Sealed(es: seq<Entry>, bytes: seq<byte>) {
    && TableWritten(es, |es|, bytes)
    && |bytes| >= DATA_FIRST * BLOCK_SIZE
    && bytes[SUPER_OFF..SUPER_OFF + BLOCK_SIZE] == Superblock(es)
    && bytes[GROUP_OFF..GROUP_OFF + BLOCK_SIZE] == GroupDescriptor(es)
  }

  const SUPER_OFF: nat := 1024
  const GROUP_OFF: nat := 2048
  const BITMAP_OFF: nat := 3072
  const INODE_BITMAP_OFF: nat := 4096

  /** The four metadata blocks, in the order they are written. */
  function WithBitmaps(es: seq<Entry>, bytes: seq<byte>): seq<byte>
    requires es != []
  {
    WriteAt(WriteAt(bytes, BITMAP_OFF, Bitmap(0, FirstBlock(es, |es|) - 1)), INODE_BITMAP_OFF,
      Bitmap(1, HighestInode(es)))
  }

  function WithMetadata(es: seq<Entry>, bytes: seq<byte>): seq<byte>
    requires es != []
  {
    WriteAt(WriteAt(WithBitmaps(es, bytes), GROUP_OFF, GroupDescriptor(es)), SUPER_OFF, Superblock(es))
  }

  lemma MetadataWriteKeepsSlots(es: seq<Entry>, bytes: seq<byte>, off: nat, buf: seq<byte>)
    requires es != [] && off + |buf| <= 5120
    ensures SlotsHeld(es, |es|, bytes) ==> SlotsHeld(es, |es|, WriteAt(bytes, off, buf))
  {
    if SlotsHeld(es, |es|, bytes) {
      assert HoldsInode(bytes, es[0].inode, InodeFor(es, 0));
      assert 5120 <= |bytes|;
      hide WriteAt, InodeFor, InodeOffset, HoldsInode;
      forall i | 0 <= i < |es| ensures HoldsInode(WriteAt(bytes, off, buf), es[i].inode, InodeFor(es, i)) {
        InodeKept(bytes, off, buf, es[i].inode, InodeFor(es, i));
      }
    }
  }

  /** A block below the inode table disturbs neither the table nor the data. */
  lemma MetadataWriteKeepsTable(es: seq<Entry>, bytes: seq<byte>, off: nat, buf: seq<byte>)
    requires TableWritten(es, |es|, bytes) && off + |buf| <= 5120
    ensures TableWritten(es, |es|, WriteAt(bytes, off, buf))
  {
    SlotInside(es, 1, |bytes|);
    MetadataWriteKeepsSlots(es, bytes, off, buf);
    hide WriteAt, InodeFor, Area, Emits, FirstBlock, ValidTable, SlotsHeld;
    WriteBelow(bytes, off, buf, DATA_FIRST * BLOCK_SIZE);
  }

  lemma InodeKept(bytes: seq<byte>, off: nat, buf: seq<byte>, ino: nat, held: seq<byte>)
    requires ino > 0 && off + |buf| <= 5120 <= |bytes|
    ensures HoldsInode(bytes, ino, held) ==> HoldsInode(WriteAt(bytes, off, buf), ino, held)
  {
    if HoldsInode(bytes, ino, held) {
      assert InodeOffset(ino) >= 5120;
      hide WriteAt, InodeOffset;
      UntouchedBytes(bytes, off, buf, InodeOffset(ino), INODE_SIZE);
      WriteBelow(bytes, off, buf, 5120);
    }
  }

  lemma TableSize(es: seq<Entry>, bytes: seq<byte>)
    requires TableWritten(es, |es|, bytes)
    ensures |bytes| >= DATA_FIRST * BLOCK_SIZE
  {
  }

  lemma BitmapsKeepTable(es: seq<Entry>, bytes: seq<byte>)
    requires es != [] && TableWritten(es, |es|, bytes)
    ensures TableWritten(es, |es|, WithBitmaps(es, bytes))
  {
    hide TableWritten, Bitmap, WriteAt, FirstBlock, HighestInode;
    var bits, inodes := Bitmap(0, FirstBlock(es, |es|) - 1), Bitmap(1, HighestInode(es));
    MetadataWriteKeepsTable(es, bytes, BITMAP_OFF, bits);
    MetadataWriteKeepsTable(es, WriteAt(bytes, BITMAP_OFF, bits), INODE_BITMAP_OFF, inodes);
  }

  lemma MetadataWritten(es: seq<Entry>, bytes: seq<byte>)
    requires es != []
    ensures TableWritten(es, |es|, bytes) ==> Sealed(es, WithMetadata(es, bytes))
  {
    hide TableWritten, WithBitmaps, GroupDescriptor, Superblock, WriteAt;
    if TableWritten(es, |es|, bytes) {
      var b2, gd, sb := WithBitmaps(es, bytes), GroupDescriptor(es), Superblock(es);
      var b3 := WriteAt(b2, GROUP_OFF, gd);
      BitmapsKeepTable(es, bytes);
      MetadataWriteKeepsTable(es, b2, GROUP_OFF, gd);
      MetadataWriteKeepsTable(es, b3, SUPER_OFF, sb);
      TableSize(es, b3);
      WrittenBytes(b2, GROUP_OFF, gd);
      WrittenBytes(b3, SUPER_OFF, sb);
      UntouchedBytes(b3, SUPER_OFF, sb, GROUP_OFF, BLOCK_SIZE);
      TableSize(es, WithMetadata(es, bytes));
    }
  }

  lemma MetadataKeepsSlots(es: seq<Entry>, bytes: seq<byte>)
    requires es != []
    ensures SlotsHeld(es, |es|, bytes) ==> SlotsHeld(es, |es|, WithMetadata(es, bytes))
  {
    hide SlotsHeld, Bitmap, GroupDescriptor, Superblock, WriteAt, FirstBlock, HighestInode;
    var bits, inodes := Bitmap(0, FirstBlock(es, |es|) - 1), Bitmap(1, HighestInode(es));
    var b1 := WriteAt(bytes, BITMAP_OFF, bits);
    var b2 := WriteAt(b1, INODE_BITMAP_OFF, inodes);
    MetadataWriteKeepsSlots(es, bytes, BITMAP_OFF, bits);
    MetadataWriteKeepsSlots(es, b1, INODE_BITMAP_OFF, inodes);
    MetadataWriteKeepsSlots(es, b2, GROUP_OFF, GroupDescriptor(es));
    MetadataWriteKeepsSlots(es, WriteAt(b2, GROUP_OFF, GroupDescriptor(es)), SUPER_OFF, Superblock(es));
  }

  /**
   * An inode numbered 257 has its slot at the start of the data area, where the first entry's
   * block is: the image of a table with such an entry is not the one its readers expect.
   */
  lemma SlotBeyondTable(es: seq<Entry>, bytes: seq<byte>, i: nat)
    requires SlotsHeld(es, |es|, bytes) && i < |es| && es[i].inode == N_INODES + 1
    requires es[0].isDir && es[0].inode == ROOT_INO
    ensures !Sealed(es, bytes)
  {
    hide FirstBlock, U32, InodeFor, GroupDescriptor, Superblock, Emits, Payload, BlockCount;
    if Sealed(es, bytes) {
      var data, area := DATA_FIRST * BLOCK_SIZE, Area(es, |es|);
      AreaStarts(es, |es|);
      DirBlock.FieldWithin(bytes, data, area, 0);
      StartsWithSelf(es);
      DirBlock.FieldWithin(area, 0, Payload(es, es[0]), 0);
      DirBlock.FieldWithin(bytes, data, InodeFor(es, i), 0);
      StartsWithMode(es, i);
    }
  }

  lemma {:induction false} AreaStarts(es: seq<Entry>, n: nat)
    requires ValidTable(es) && 0 < n <= |es| && (forall i :: 0 <= i < n ==> Emits(es, es[i]))
    ensures Payload(es, es[0]) <= Area(es, n)
    decreases n
  {
    hide ValidTable, Emits, Payload;
    if n > 1 { AreaStarts(es, n - 1); }
  }

  lemma StartsWithSelf(es: seq<Entry>)
    requires ValidTable(es) && Emits(es, es[0]) && es[0].isDir
    ensures |Payload(es, es[0])| == BLOCK_SIZE && U32(Payload(es, es[0]), 0) == es[0].inode
  {
    hide DirBlock.Written, U32, ChildrenOf, BlockCount;
    ChildrenAreValid(es, es[0]);
    OneBlockPerDirectory(es[0]);
    DirBlock.WrittenStartsWithSelf(es[0].inode, ParentInode(es, es[0].relpath),
      DirentChildren(ChildrenOf(es, es[0].relpath)));
  }

  lemma StartsWithMode(es: seq<Entry>, i: nat)
    requires i < |es|
    ensures U32(InodeFor(es, i), 0) in {DIR_MODE, FILE_MODE}
  {
    hide Pointers, FirstBlock, BlockCount, CountDirs, ChildrenOf;
  }
}
