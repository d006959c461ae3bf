/**
 * The finished image, read back, is the source tree
 * (packages/sandbox-vm-native/src/vm-image-builder.c, snapshot mode).
 */
module ImageTheorem {
  import opened Prelude
  import opened Paths
  import opened ImageBytes
  import opened SourceTree
  import opened SealedImage
  import DirBlock
  import Reader = ImageReader

  // ---- Metadata ------------------------------------------------------------------------

  /** The geometry every image of this writer announces. */
  function Geometry(es: seq<Entry>): Reader.Super {
    Reader.Super(BLOCK_SIZE, FirstBlock(es, |es|), N_INODES, INODE_SIZE, 2)
  }

  lemma SuperblockFields(total: nat, freeBlocks: nat, freeInodes: nat)
    requires total < 0x1_0000_0000
    ensures var s := SuperblockBytes(total, freeBlocks, freeInodes);
      && U32(s, 0x04) == total && U32(s, 0x18) == 0 && U32(s, 0x28) == N_INODES
      && U16(s, 0x38) == 0xEF53 && U32(s, 0x58) == INODE_SIZE
  {
    hide Le16, Le32, U16, U32;
    var s := SuperblockBytes(total, freeBlocks, freeInodes);
    assert s[0x04..0x04 + 4] == Le32(total);
    assert s[0x18..0x18 + 4] == Le32(0);
    assert s[0x28..0x28 + 4] == Le32(N_INODES);
    assert s[0x38..0x38 + 2] == Le16(0xEF53);
    assert s[0x58..0x58 + 4] == Le32(INODE_SIZE);
    ReadBack32(s, 0x04, total);
    ReadBack32(s, 0x18, 0);
    ReadBack32(s, 0x28, N_INODES);
    ReadBack16(s, 0x38, 0xEF53);
    ReadBack32(s, 0x58, INODE_SIZE);
  }

  lemma GroupDescriptorField(freeBlocks: nat, freeInodes: nat, usedDirs: nat)
    ensures U32(GroupDescriptorBytes(freeBlocks, freeInodes, usedDirs), 0x08) == INODE_TABLE_FIRST
  {
    hide Le16, Le32, U32;
    var s := GroupDescriptorBytes(freeBlocks, freeInodes, usedDirs);
    assert s[0x08..0x08 + 4] == Le32(INODE_TABLE_FIRST);
    ReadBack32(s, 0x08, INODE_TABLE_FIRST);
  }

  lemma {:induction false} FirstBlockBound(es: seq<Entry>, n: nat)
    requires n <= |es| && ValidTable(es) && forall i :: 0 <= i < n ==> Emits(es, es[i])
    ensures FirstBlock(es, n) <= DATA_FIRST + MAX_DIRECT * n
  {
    hide ValidTable, Emits, BlockCount;
    if n > 0 {
      FirstBlockBound(es, n - 1);
      CountIsSmall(es, n - 1);
    }
  }

  lemma {:induction false} FirstBlockGrows(es: seq<Entry>, i: nat, n: nat)
    requires i < n <= |es|
    ensures FirstBlock(es, i) + BlockCount(es[i]) <= FirstBlock(es, n)
  {
    hide BlockCount;
    if i < n - 1 { FirstBlockGrows(es, i, n - 1); }
  }

  lemma GeometryIsRead(es: seq<Entry>, img: seq<byte>)
    requires Sealed(es, img)
    ensures Reader.ReadSuper(img) == Some(Geometry(es))
    ensures FirstBlock(es, |es|) < 0x1_0000
  {
    hide SuperblockBytes, U16, U32, FirstBlock, Emits, Area, InodeFor, GroupDescriptor;
    FirstBlockBound(es, |es|);
    var total := FirstBlock(es, |es|);
    SuperblockFields(total, Wrapped(8 * BLOCK_SIZE - (total - DATA_FIRST)), Wrapped(N_INODES - HighestInode(es)));
    assert Pow2(0) == 1;
  }

  lemma GroupDescriptorRead(es: seq<Entry>)
    ensures U32(GroupDescriptor(es)[..32], 8) == INODE_TABLE_FIRST
  {
    hide GroupDescriptorBytes, U32, FirstBlock;
    var total := FirstBlock(es, |es|);
    GroupDescriptorField(Wrapped(8 * BLOCK_SIZE - (total - DATA_FIRST)), Wrapped(N_INODES - HighestInode(es)),
      CountDirs(es));
    var gd := GroupDescriptor(es);
    DirBlock.FieldWithin(gd, 0, gd[..32], 8);
  }

  lemma SealedGroupDescriptor(es: seq<Entry>, img: seq<byte>)
    requires Sealed(es, img)
    ensures GROUP_OFF + 32 <= |img| && img[GROUP_OFF..GROUP_OFF + 32] == GroupDescriptor(es)[..32]
  {
    hide GroupDescriptor, Superblock, TableWritten;
    DirBlock.SliceWithin(img, GROUP_OFF, GroupDescriptor(es), 0, 32);
  }

  lemma TableBlockIsRead(es: seq<Entry>, img: seq<byte>, ino: nat)
    requires Sealed(es, img) && 0 < ino <= N_INODES
    ensures Reader.InodeTableBlock(img, Geometry(es), ino) == Some(INODE_TABLE_FIRST)
  {
    hide U32, FirstBlock, Sealed, GroupDescriptor;
    GroupDescriptorRead(es);
    SealedGroupDescriptor(es, img);
    assert (ino - 1) / N_INODES == 0;
    assert Reader.Address(2, BLOCK_SIZE, (ino - 1) / N_INODES, 32) == GROUP_OFF;
  }

  lemma InodeFields(mode: nat, size: nat, links: nat, blocks: seq<nat>)
    requires mode < 0x1_0000 && size < 0x1_0000_0000
    ensures var s := InodeBytes(mode, size, links, blocks);
      && U16(s, 0) == mode && U32(s, 4) == size && U32(s, 0x20) == 0 && s[0x28..0x28 + 60] == Pointers(blocks, 0)
  {
    hide Le16, Le32, U16, U32, Pointers;
    var s := InodeBytes(mode, size, links, blocks);
    assert s[0..2] == Le16(mode);
    assert s[4..4 + 4] == Le32(size);
    assert s[0x20..0x20 + 4] == Zeros(4);
    ReadBack16(s, 0, mode);
    ReadBack32(s, 4, size);
    assert Zeros(4) == Le32(0) by { ZeroField(); }
    ReadBack32(s, 0x20, 0);
  }

  lemma ZeroField()
    ensures Zeros(4) == Le32(0)
  {
  }

  lemma {:induction false} PointerField(blocks: seq<nat>, from: nat, k: nat)
    requires from <= k < 15 && k < |blocks| && blocks[k] < 0x1_0000_0000
    ensures 4 * (k - from) + 4 <= |Pointers(blocks, from)| && U32(Pointers(blocks, from), 4 * (k - from)) == blocks[k]
    decreases k - from
  {
    hide Le32, U32;
    var s := Pointers(blocks, from);
    if k == from {
      assert s[0..4] == Le32(blocks[k]);
      ReadBack32(s, 0, blocks[k]);
    } else {
      PointerField(blocks, from + 1, k);
      assert s == Le32(if from < |blocks| then blocks[from] else 0) + Pointers(blocks, from + 1);
      var rest := Pointers(blocks, from + 1);
      assert s[4..4 + |rest|] == rest;
      DirBlock.FieldWithin(s, 4, rest, 4 * (k - from - 1));
    }
  }

  /** What the reader makes of the inode of entry `i`. */
  function InodeRead(es: seq<Entry>, i: nat): Reader.Inode
    requires i < |es|
  {
    Reader.Inode(if es[i].isDir then DIR_MODE else FILE_MODE, if es[i].isDir then BLOCK_SIZE
      else |es[i].content| % 0x1_0000_0000, 0,
                 Pointers(BlockNumbers(FirstBlock(es, i), BlockCount(es[i])), 0))
  }

  /** The size field keeps 32 bits. */
  lemma SizeWraps(mode: nat, size: nat, links: nat, blocks: seq<nat>)
    ensures InodeBytes(mode, size, links, blocks) == InodeBytes(mode, size % 0x1_0000_0000, links, blocks)
  {
    hide Le16, Pointers;
    Le32Wraps(size);
    hide Le32;
  }

  lemma Le32Wraps(v: nat)
    ensures Le32(v) == Le32(v % 0x1_0000_0000)
  {
    var q, r := v / 0x1_0000_0000, v % 0x1_0000_0000;
    LowDigits(v, q, r);
    ThirdDigit(v, q, r);
    FourthDigit(v, q, r);
  }

  lemma LowDigits(v: nat, q: nat, r: nat)
    requires v == q * 0x1_0000_0000 + r
    ensures v % 256 == r % 256 && v / 256 % 256 == r / 256 % 256
  {
    assert v / 256 == q * 0x100_0000 + r / 256;
  }

  lemma ThirdDigit(v: nat, q: nat, r: nat)
    requires v == q * 0x1_0000_0000 + r
    ensures v / 0x1_0000 % 256 == r / 0x1_0000 % 256
  {
    assert v / 0x1_0000 == q * 0x1_0000 + r / 0x1_0000;
  }

  lemma FourthDigit(v: nat, q: nat, r: nat)
    requires v == q * 0x1_0000_0000 + r
    ensures v / 0x100_0000 % 256 == r / 0x100_0000 % 256
  {
    assert v / 0x100_0000 == q * 0x100 + r / 0x100_0000;
  }

  lemma InodeForFields(es: seq<Entry>, i: nat)
    requires i < |es| && ValidTable(es) && Emits(es, es[i])
    ensures var s, r := InodeFor(es, i), InodeRead(es, i);
      && U16(s, 0) == r.mode && U32(s, 4) == r.size && U32(s, 0x20) == r.flags && s[0x28..0x28 + 60] == r.iblock
  {
    hide ValidTable, Emits, InodeBytes, Pointers, U16, U32, BlockCount, FirstBlock, ChildrenOf, CountDirs;
    var blocks := BlockNumbers(FirstBlock(es, i), BlockCount(es[i]));
    if es[i].isDir {
      InodeFields(DIR_MODE, BLOCK_SIZE, 2 + CountDirs(ChildrenOf(es, es[i].relpath)), blocks);
    } else {
      SizeWraps(FILE_MODE, |es[i].content|, 1, blocks);
      InodeFields(FILE_MODE, |es[i].content| % 0x1_0000_0000, 1, blocks);
    }
  }

  lemma SealedParts(es: seq<Entry>, img: seq<byte>)
    requires Sealed(es, img)
    ensures ValidTable(es) && forall i :: 0 <= i < |es| ==> Emits(es, es[i])
    ensures forall i :: 0 <= i < |es| ==> es[i].inode > 0 && HoldsInode(img, es[i].inode, InodeFor(es, i))
  {
  }

  lemma InodeIsRead(es: seq<Entry>, img: seq<byte>, i: nat)
    requires Sealed(es, img) && InodesFit(es) && i < |es|
    ensures Reader.ReadInode(img, Geometry(es), es[i].inode) == Some(InodeRead(es, i))
  {
    hide Sealed, ValidTable, InodeFor, U16, U32, Emits, FirstBlock, Pointers, Reader.InodeTableBlock, Reader.ReadInode,
      Reader.Address;
    var ino, raw := es[i].inode, InodeFor(es, i);
    TableBlockIsRead(es, img, ino);
    SealedParts(es, img);
    InodeForFields(es, i);
    SlotAddress(ino);
    Reader.InodeFromSlot(img, Geometry(es), ino, INODE_TABLE_FIRST, InodeOffset(ino), raw);
  }

  lemma SlotAddress(ino: nat)
    requires 0 < ino <= N_INODES
    ensures Reader.Address(INODE_TABLE_FIRST, BLOCK_SIZE, (ino - 1) % N_INODES, INODE_SIZE) == InodeOffset(ino)
  {
    assert (ino - 1) % N_INODES == ino - 1;
  }

  // ---- Data blocks --------------------------------------------------------------------

  lemma {:induction false} AreaOfEntry(es: seq<Entry>, i: nat, n: nat)
    requires ValidTable(es) && i < n <= |es| && forall j :: 0 <= j < n ==> Emits(es, es[j])
    ensures var from := (FirstBlock(es, i) - DATA_FIRST) * BLOCK_SIZE;
      && from + BlockCount(es[i]) * BLOCK_SIZE <= |Area(es, n)|
      && Area(es, n)[from..from + BlockCount(es[i]) * BLOCK_SIZE] == Payload(es, es[i])
    decreases n
  {
    hide ValidTable, Emits, Payload, BlockCount;
    var from, len := (FirstBlock(es, i) - DATA_FIRST) * BLOCK_SIZE, BlockCount(es[i]) * BLOCK_SIZE;
    if i < n - 1 {
      AreaOfEntry(es, i, n - 1);
      assert Area(es, n)[from..from + len] == Area(es, n - 1)[from..from + len];
    }
  }

  lemma SealedArea(es: seq<Entry>, img: seq<byte>)
    requires Sealed(es, img)
    ensures ValidTable(es) && (forall i :: 0 <= i < |es| ==> Emits(es, es[i]))
    ensures var data, area := DATA_FIRST * BLOCK_SIZE, Area(es, |es|);
      data + |area| <= |img| && img[data..data + |area|] == area
  {
    hide ValidTable, Emits, InodeFor, Superblock, GroupDescriptor;
    hide Area, FirstBlock;
    var data, area := DATA_FIRST * BLOCK_SIZE, Area(es, |es|);
    assert img[data..] == area;
    assert img[data..data + |area|] == img[data..];
  }

  /** The payload of an entry lies at its first block. */
  lemma PayloadIsRead(es: seq<Entry>, img: seq<byte>, i: nat)
    requires Sealed(es, img) && i < |es|
    ensures ValidTable(es) && Emits(es, es[i])
    ensures var from := FirstBlock(es, i) * BLOCK_SIZE;
      && from + BlockCount(es[i]) * BLOCK_SIZE <= |img|
      && img[from..from + BlockCount(es[i]) * BLOCK_SIZE] == Payload(es, es[i])
  {
    hide ValidTable, Emits, Payload, BlockCount, Area, FirstBlock, Sealed;
    SealedArea(es, img);
    AreaOfEntry(es, i, |es|);
    var data, area := DATA_FIRST * BLOCK_SIZE, Area(es, |es|);
    var from, len := (FirstBlock(es, i) - DATA_FIRST) * BLOCK_SIZE, BlockCount(es[i]) * BLOCK_SIZE;
    DirBlock.SliceWithin(img, data, area, from, len);
  }

  lemma PayloadBlock(es: seq<Entry>, img: seq<byte>, i: nat, k: nat)
    requires Sealed(es, img) && i < |es| && k < BlockCount(es[i])
    ensures ValidTable(es) && Emits(es, es[i])
    ensures (k + 1) * BLOCK_SIZE <= |Payload(es, es[i])|
    ensures var off := (FirstBlock(es, i) + k) * BLOCK_SIZE;
      && off + BLOCK_SIZE <= |img|
      && img[off..off + BLOCK_SIZE] == Payload(es, es[i])[k * BLOCK_SIZE..(k + 1) * BLOCK_SIZE]
  {
    hide ValidTable, Emits, Payload, BlockCount, FirstBlock, Sealed;
    PayloadIsRead(es, img, i);
    var from, payload := FirstBlock(es, i) * BLOCK_SIZE, Payload(es, es[i]);
    assert (k + 1) * BLOCK_SIZE <= BlockCount(es[i]) * BLOCK_SIZE;
    DirBlock.SliceWithin(img, from, payload, k * BLOCK_SIZE, BLOCK_SIZE);
  }

  lemma DirectBlockIsRead(es: seq<Entry>, img: seq<byte>, i: nat, k: nat)
    requires Sealed(es, img) && i < |es| && k < BlockCount(es[i])
    ensures ValidTable(es) && Emits(es, es[i]) && BlockCount(es[i]) <= MAX_DIRECT
    ensures (k + 1) * BLOCK_SIZE <= |Payload(es, es[i])|
    ensures Reader.DirectBlock(img, Geometry(es), InodeRead(es, i), k)
      == Some(Payload(es, es[i])[k * BLOCK_SIZE..(k + 1) * BLOCK_SIZE])
  {
    hide ValidTable, Emits, Payload, BlockCount, FirstBlock, Sealed, Pointers, U32, Reader.DirectBlock;
    PayloadBlock(es, img, i, k);
    CountIsSmall(es, i);
    FirstBlockGrows(es, i, |es|);
    GeometryIsRead(es, img);
    var first, payload := FirstBlock(es, i), Payload(es, es[i]);
    PointerField(BlockNumbers(first, BlockCount(es[i])), 0, k);
    Reader.BlockFromPointer(img, Geometry(es), InodeRead(es, i), k, first + k,
      payload[k * BLOCK_SIZE..(k + 1) * BLOCK_SIZE]);
  }

  lemma CountIsSmall(es: seq<Entry>, i: nat)
    requires i < |es| && ValidTable(es) && Emits(es, es[i])
    ensures BlockCount(es[i]) <= MAX_DIRECT
  {
    hide DirOutcome, ValidTable;
  }

  // ---- The table describes the tree -----------------------------------------------------

  ghost predicate Represents(e: Entry, root: seq<Named>, path: Path) {
    && AreNames(SLASH, path) && e.relpath == Join(SLASH, path)
    && var r := Resolve(Dir(root), path);
    && r.Reached? && e.isDir == r.node.Dir? && (r.node.File? ==> e.content == r.node.content)
  }

  ghost predicate Describes(es: seq<Entry>, root: seq<Named>) {
    && (forall e :: e in es ==> exists path :: Represents(e, root, path))
    && (forall path :: Resolve(Dir(root), path).Reached? ==> exists e :: e in es && Represents(e, root, path))
    && DistinctRelpaths(es)
    && (forall e :: e in es && e.relpath == [] ==> e.inode == ROOT_INO)
  }

  /** A component a lookup may ask for. */
  ghost predicate ValidPath(path: Path) {
    forall i :: 0 <= i < |path| ==> ValidName(path[i])
  }

  lemma {:induction false} ReachedNamesAreValid(cs: seq<Named>, path: Path)
    requires ValidChildren(cs) && Resolve(Dir(cs), path).Reached?
    ensures ValidPath(path)
    decreases |path|
  {
    hide ValidName;
    if path != [] {
      var i := LookupIsAnIndex(cs, path[0]);
      if cs[i].node.Dir? {
        ReachedNamesAreValid(cs[i].node.children, path[1..]);
      } else {
        assert path[1..] == [];
      }
      assert forall j :: 1 <= j < |path| ==> path[j] == path[1..][j - 1];
    }
  }

  lemma ValidPathNames(path: Path)
    requires ValidPath(path)
    ensures AreNames(SLASH, path)
  {
  }

  /** The children found for a directory are the entries one component below it. */
  lemma ChildRepresents(es: seq<Entry>, root: seq<Named>, dir: Entry, path: Path, kid: Entry) returns (name: seq<byte>)
    requires ValidChildren(root) && Describes(es, root) && Represents(dir, root, path)
    requires kid in ChildrenOf(es, dir.relpath)
    ensures kid in es && Represents(kid, root, path + [name]) && Basename(kid.relpath) == name && ValidName(name)
  {
    hide ValidName, IsChildPath, Basename, ParentRel, Resolve, Join, ValidChildren;
    ChildrenOfMembers(es, dir.relpath, kid);
    var q :| Represents(kid, root, q);
    ReachedNamesAreValid(root, q);
    NotRoot(kid.relpath, dir.relpath);
    JoinIsEmptyOnlyAtRoot(SLASH, q);
    name := q[|q| - 1];
    assert q == q[..|q| - 1] + [name];
    NameIsName(name);
    JoinedPath(q[..|q| - 1], name, path);
  }

  lemma NotRoot(r: seq<byte>, dir: seq<byte>)
    requires IsChildPath(r, dir)
    ensures r != []
  {
  }

  /** Conversely every entry one component below is among the children. */
  lemma ChildIsCollected(es: seq<Entry>, root: seq<Named>, dir: Entry, path: Path, name: seq<byte>, kid: Entry)
    requires ValidName(name) && Represents(dir, root, path) && kid in es && Represents(kid, root, path + [name])
    ensures kid in ChildrenOf(es, dir.relpath) && Basename(kid.relpath) == name
  {
    hide ValidName, IsChildPath, Basename, ParentRel, Resolve, Join;
    NameIsName(name);
    JoinedPath(path, name, path);
    ChildrenOfMembers(es, dir.relpath, kid);
  }

  lemma ChildNamesAreDistinct(es: seq<Entry>, root: seq<Named>, dir: Entry, path: Path)
    requires ValidChildren(root) && Describes(es, root) && Represents(dir, root, path)
    ensures DirBlock.DistinctNames(DirentChildren(ChildrenOf(es, dir.relpath)))
  {
    hide ValidName, ChildrenOf, Basename, Represents, Describes;
    var kids := ChildrenOf(es, dir.relpath);
    assert DistinctRelpaths(kids) by {
      DescribesDistinct(es, root);
      ChildrenAreDistinct(es, dir.relpath);
    }
    forall i | 0 <= i < |kids| ensures Basename(kids[i].relpath) != DirBlock.DOT
      && Basename(kids[i].relpath) != DirBlock.DOT_DOT {
      var name := ChildRepresents(es, root, dir, path, kids[i]);
      NotDots(name);
    }
    forall i, j | 0 <= i < j < |kids| ensures Basename(kids[i].relpath) != Basename(kids[j].relpath) {
      var m := ChildRepresents(es, root, dir, path, kids[i]);
      var n := ChildRepresents(es, root, dir, path, kids[j]);
      SamePathSameRelpath(kids[i], kids[j], root, path + [m], path + [n]);
    }
  }

  lemma DescribesDistinct(es: seq<Entry>, root: seq<Named>)
    requires Describes(es, root)
    ensures DistinctRelpaths(es)
  {
  }

  lemma NotDots(name: seq<byte>)
    requires ValidName(name)
    ensures name != DirBlock.DOT && name != DirBlock.DOT_DOT
  {
  }

  lemma SamePathSameRelpath(a: Entry, b: Entry, root: seq<Named>, p: Path, q: Path)
    requires Represents(a, root, p) && Represents(b, root, q)
    ensures p == q <==> a.relpath == b.relpath
  {
    hide Resolve, Join;
    JoinIsInjective(SLASH, p, q);
  }

  // ---- Lookups --------------------------------------------------------------------------

  lemma DirPayload(es: seq<Entry>, i: nat)
    requires i < |es| && ValidTable(es) && Emits(es, es[i]) && es[i].isDir
    ensures var e := es[i];
      var kids := DirentChildren(ChildrenOf(es, e.relpath));
      && 0 < e.inode < 0x1_0000_0000 && ParentInode(es, e.relpath) < 0x1_0000_0000 && DirBlock.AllValid(kids)
      && DirBlock.Written(e.inode, ParentInode(es, e.relpath), kids) == DirBlock.Block(Payload(es, e))
      && |Payload(es, e)| == BLOCK_SIZE
  {
    hide DirBlock.Written, ChildrenOf, BlockCount;
    ChildrenAreValid(es, es[i]);
    OneBlockPerDirectory(es[i]);
  }

  lemma ModeBits()
    ensures Reader.FileType(DIR_MODE) == Reader.TYPE_DIR && Reader.FileType(FILE_MODE) == Reader.TYPE_REG
    ensures !Reader.HasBit(0, Reader.INDEX_BIT) && !Reader.HasBit(0, Reader.EXTENTS_BIT)
  {
  }

  /** A lookup in a sealed image is a scan of the directory's payload. */
  lemma LookupIsScan(es: seq<Entry>, img: seq<byte>, i: nat, name: seq<byte>)
    requires Sealed(es, img) && InodesFit(es) && i < |es|
    ensures ValidTable(es) && Emits(es, es[i])
    ensures Reader.LookupIn(img, Geometry(es), es[i].inode, name) ==
      if !es[i].isDir then Reader.NotADirectory else Reader.AnswerOf(DirBlock.Scan(Payload(es, es[i]), 0, name))
  {
    hide *;
    SealedParts(es, img);
    InodeIsRead(es, img, i);
    LookupOfInode(es, img, i, name);
    if es[i].isDir {
      FirstBlockIsPayload(es, img, i);
      InodeReadIsADirectory(es, i);
      Reader.SearchedBlock(img, Geometry(es), InodeRead(es, i), name, Payload(es, es[i]));
    } else {
      InodeReadIsAFile(es, img, i, name);
    }
  }

  lemma LookupOfInode(es: seq<Entry>, img: seq<byte>, i: nat, name: seq<byte>)
    requires i < |es| && Reader.ReadInode(img, Geometry(es), es[i].inode) == Some(InodeRead(es, i))
    ensures Reader.LookupIn(img, Geometry(es), es[i].inode, name)
      == Reader.SearchInode(img, Geometry(es), InodeRead(es, i), name)
  {
    hide Reader.SearchInode, Reader.ReadInode, Pointers, FirstBlock, BlockCount;
  }

  lemma FirstBlockIsPayload(es: seq<Entry>, img: seq<byte>, i: nat)
    requires Sealed(es, img) && i < |es| && es[i].isDir
    ensures ValidTable(es) && Emits(es, es[i])
    ensures Reader.DirectBlock(img, Geometry(es), InodeRead(es, i), 0) == Some(Payload(es, es[i]))
  {
    hide Sealed, ValidTable, Emits, Payload, FirstBlock, BlockCount, Pointers, Reader.DirectBlock;
    OneBlockPerDirectory(es[i]);
    DirectBlockIsRead(es, img, i, 0);
    DirPayload(es, i);
    assert Payload(es, es[i])[0 * BLOCK_SIZE..(0 + 1) * BLOCK_SIZE] == Payload(es, es[i]);
  }

  lemma InodeReadIsADirectory(es: seq<Entry>, i: nat)
    requires i < |es| && es[i].isDir
    ensures |InodeRead(es, i).iblock| == 60 && Reader.FileType(InodeRead(es, i).mode) == Reader.TYPE_DIR
    ensures !Reader.HasBit(InodeRead(es, i).flags, Reader.INDEX_BIT)
  {
    hide Pointers, FirstBlock, BlockCount;
    ModeBits();
  }

  lemma NoExtentsFlag(es: seq<Entry>, i: nat)
    requires i < |es|
    ensures !Reader.HasBit(InodeRead(es, i).flags, Reader.EXTENTS_BIT)
  {
    hide Pointers, FirstBlock, BlockCount;
    ModeBits();
  }

  lemma InodeReadIsAFile(es: seq<Entry>, img: seq<byte>, i: nat, name: seq<byte>)
    requires i < |es| && !es[i].isDir
    ensures |InodeRead(es, i).iblock| == 60 && Reader.FileType(InodeRead(es, i).mode) == Reader.TYPE_REG
    ensures Reader.SearchInode(img, Geometry(es), InodeRead(es, i), name) == Reader.NotADirectory
  {
    hide Pointers, FirstBlock, BlockCount, DirBlock.Scan;
    ModeBits();
  }

  lemma ParentIsNotZero(es: seq<Entry>, root: seq<Named>, i: nat, path: Path)
    requires ValidTable(es) && ValidChildren(root) && Describes(es, root) && i < |es| && Represents(es[i], root, path)
    ensures ParentInode(es, es[i].relpath) > 0
  {
    hide ValidName, Basename, ParentRel, Join, IsChildPath, ValidChildren, InodeOf, Resolve;
    if path == [] {
      NoParentOfRoot();
    } else {
      var p, name := path[..|path| - 1], path[|path| - 1];
      assert path == p + [name];
      ReachedNamesAreValid(root, path);
      NameIsName(name);
      JoinedPath(p, name, p);
      if ParentRel(es[i].relpath) != [] {
        ParentReached(root, p, name);
        var e :| e in es && Represents(e, root, p);
        var j :| 0 <= j < |es| && es[j] == e;
        InodeOfEntry(es, j);
      }
    }
  }

  lemma NoParentOfRoot()
    ensures ParentRel([]) == []
  {
  }

  lemma ParentReached(root: seq<Named>, p: Path, name: seq<byte>)
    requires Resolve(Dir(root), p + [name]).Reached?
    ensures Resolve(Dir(root), p).Reached?
  {
    ResolveOneMore(Dir(root), p, name);
  }

  /** The kids of a directory entry, by name. */
  lemma ScanFindsKid(es: seq<Entry>, root: seq<Named>, i: nat, path: Path, name: seq<byte>)
    requires ValidTable(es) && ValidChildren(root) && Describes(es, root) && i < |es| && Represents(es[i], root, path)
    requires Emits(es, es[i]) && es[i].isDir && ValidName(name)
    ensures var r := DirBlock.Scan(Payload(es, es[i]), 0, name);
      && (forall kid :: kid in ChildrenOf(es, es[i].relpath) && Basename(kid.relpath) == name ==>
        r == DirBlock.Found(kid.inode))
      && ((forall kid :: kid in ChildrenOf(es, es[i].relpath) ==> Basename(kid.relpath) != name) ==>
        r == DirBlock.Absent)
  {
    hide ValidName, Basename, Represents, Describes, ValidChildren, Emits, Payload, DirBlock.Scan, DirBlock.Written,
      ChildrenOf,
      DirBlock.AllValid, DirBlock.DistinctNames, ParentInode;
    var kids := ChildrenOf(es, es[i].relpath);
    var cs := DirentChildren(kids);
    DirPayload(es, i);
    ParentIsNotZero(es, root, i, path);
    ChildNamesAreDistinct(es, root, es[i], path);
    NotDots(name);
    forall k | 0 <= k < |cs| ensures cs[k].inode != 0 {
      ChildrenOfMembers(es, es[i].relpath, kids[k]);
    }
    DirBlock.WrittenBlockIsRead(es[i].inode, ParentInode(es, es[i].relpath), cs, name);
    forall kid | kid in kids && Basename(kid.relpath) == name
      ensures DirBlock.Scan(Payload(es, es[i]), 0, name) == DirBlock.Found(kid.inode)
    {
      var k :| 0 <= k < |kids| && kids[k] == kid;
      assert cs[k] == DirentChild(kid);
    }
    if forall kid :: kid in kids ==> Basename(kid.relpath) != name {
      forall k | 0 <= k < |cs| ensures cs[k].name != name {
        assert kids[k] in kids;
      }
    }
  }

  /** One lookup follows the tree one component further. */
  lemma LookupIsRead(es: seq<Entry>, img: seq<byte>, root: seq<Named>, i: nat, path: Path,
                     name: seq<byte>) returns (j: nat)
    requires Sealed(es, img) && InodesFit(es) && ValidChildren(root) && Describes(es, root)
    requires i < |es| && Represents(es[i], root, path) && ValidName(name)
    ensures var r := Resolve(Dir(root), path + [name]);
      var a := Reader.LookupIn(img, Geometry(es), es[i].inode, name);
      && (r.NotADirectory? ==> a == Reader.NotADirectory)
      && (r.Missing? ==> a == Reader.Absent)
      && (r.Reached? ==> j < |es| && Represents(es[j], root, path + [name]) && a == Reader.At(es[j].inode))
  {
    hide *;
    j := i;
    LookupIsScan(es, img, i, name);
    StepFromEntry(es[i], root, path, name);
    if es[i].isDir {
      ScanFindsKid(es, root, i, path, name);
      if Resolve(Dir(root), path + [name]).Reached? {
        j := EntryOfReached(es, root, path + [name]);
        ChildIsCollected(es, root, es[i], path, name, es[j]);
        AnswerFound(es[j].inode);
      } else {
        forall kid | kid in ChildrenOf(es, es[i].relpath) ensures Basename(kid.relpath) != name {
          var n := ChildRepresents(es, root, es[i], path, kid);
          RepresentedIsReached(kid, root, path + [n]);
        }
        AnswerAbsent();
      }
    }
  }

  lemma AnswerFound(ino: nat)
    ensures Reader.AnswerOf(DirBlock.Found(ino)) == Reader.At(ino)
  {
  }

  lemma AnswerAbsent()
    ensures Reader.AnswerOf(DirBlock.Absent) == Reader.Absent
  {
  }

  lemma StepFromEntry(e: Entry, root: seq<Named>, path: Path, name: seq<byte>)
    requires Represents(e, root, path)
    ensures !e.isDir <==> Resolve(Dir(root), path + [name]).NotADirectory?
  {
    ResolveOneMore(Dir(root), path, name);
  }

  lemma EntryOfReached(es: seq<Entry>, root: seq<Named>, path: Path) returns (j: nat)
    requires Describes(es, root) && Resolve(Dir(root), path).Reached?
    ensures j < |es| && Represents(es[j], root, path)
  {
    hide Resolve, Represents;
    var e :| e in es && Represents(e, root, path);
    j :| 0 <= j < |es| && es[j] == e;
  }

  lemma RepresentedIsReached(e: Entry, root: seq<Named>, path: Path)
    requires Represents(e, root, path)
    ensures Resolve(Dir(root), path).Reached?
  {
  }

  lemma {:induction false} ResolveStops(node: Node, path: Path, more: Path)
    ensures !Resolve(node, path).Reached? ==> Resolve(node, path + more) == Resolve(node, path)
    decreases |more|
  {
    if more == [] {
      assert path + more == path;
    } else {
      var p := path + more[..|more| - 1];
      ResolveStops(node, path, more[..|more| - 1]);
      ResolveOneMore(node, p, more[|more| - 1]);
      assert p + [more[|more| - 1]] == path + more;
    }
  }

  /** Following a path through the image follows it through the tree. */
  lemma {:induction false} FollowIsResolve(es: seq<Entry>, img: seq<byte>, root: seq<Named>, i: nat, path: Path,
                                           rest: Path)
    returns (j: nat)
    requires Sealed(es, img) && InodesFit(es) && ValidChildren(root) && Describes(es, root)
    requires i < |es| && Represents(es[i], root, path) && ValidPath(rest)
    ensures var r := Resolve(Dir(root), path + rest);
      var a := Reader.Follow(img, Geometry(es), es[i].inode, rest);
      && (r.NotADirectory? ==> a == Reader.NotADirectory)
      && (r.Missing? ==> a == Reader.Absent)
      && (r.Reached? ==> j < |es| && Represents(es[j], root, path + rest) && a == Reader.At(es[j].inode))
    decreases |rest|
  {
    hide Sealed, InodesFit, ValidChildren, Describes, Represents, Resolve, ValidName, Reader.LookupIn;
    j := i;
    if rest == [] {
      assert path + rest == path;
      RepresentedIsReached(es[i], root, path);
    } else {
      var k := LookupIsRead(es, img, root, i, path, rest[0]);
      var p := path + [rest[0]];
      assert p + rest[1..] == path + rest;
      if Resolve(Dir(root), p).Reached? {
        j := FollowIsResolve(es, img, root, k, p, rest[1..]);
      } else {
        ResolveStops(Dir(root), p, rest[1..]);
      }
    }
  }

  // ---- What any table's image can show ----------------------------------------------------

  lemma ChildIsUnder(r: seq<byte>, dir: seq<byte>)
    requires IsChildPath(r, dir)
    ensures r == Under(SLASH, dir, Basename(r))
  {
    if dir == [] {
      BasenameOfName(r);
    } else {
      var name := r[|dir| + 1..];
      assert r == dir + [SLASH] + name;
      BasenameUnder(dir, name);
    }
  }

  /** What a lookup in a directory entry finds is an entry whose text is one name longer. */
  lemma FoundIsUnder(es: seq<Entry>, img: seq<byte>, i: nat, name: seq<byte>, ino: nat) returns (j: nat)
    requires Sealed(es, img) && InodesFit(es) && i < |es| && ValidName(name)
    requires Reader.LookupIn(img, Geometry(es), es[i].inode, name) == Reader.At(ino)
    ensures j < |es| && es[j].inode == ino && es[j].relpath == Under(SLASH, es[i].relpath, name)
  {
    hide *;
    LookupIsScan(es, img, i, name);
    DirPayload(es, i);
    NotDots(name);
    FoundOfAnswer(DirBlock.Scan(Payload(es, es[i]), 0, name), ino);
    var kids := ChildrenOf(es, es[i].relpath);
    var k := DirBlock.FoundIsAChild(es[i].inode, ParentInode(es, es[i].relpath), DirentChildren(kids), name, ino);
    ChildOfKid(kids[k]);
    ChildrenOfMembers(es, es[i].relpath, kids[k]);
    ChildIsUnder(kids[k].relpath, es[i].relpath);
    j :| 0 <= j < |es| && es[j] == kids[k];
  }

  lemma FoundOfAnswer(found: DirBlock.Lookup, ino: nat)
    requires Reader.AnswerOf(found) == Reader.At(ino)
    ensures found == DirBlock.Found(ino)
  {
  }

  lemma ChildOfKid(e: Entry)
    ensures DirentChild(e).inode == e.inode && DirentChild(e).name == Basename(e.relpath)
  {
  }

  /** Whatever a path reaches in a sealed image is an entry whose text spells that path out. */
  lemma {:induction false} FollowSpells(es: seq<Entry>, img: seq<byte>, i: nat, path: Path, rest: Path,
                                        ino: nat) returns (j: nat)
    requires Sealed(es, img) && InodesFit(es) && i < |es| && es[i].relpath == Join(SLASH, path)
    requires ValidPath(rest) && Reader.Follow(img, Geometry(es), es[i].inode, rest) == Reader.At(ino)
    ensures j < |es| && es[j].inode == ino && es[j].relpath == Join(SLASH, path + rest)
    decreases |rest|
  {
    hide Sealed, InodesFit, ValidName, Join, Under, Reader.LookupIn;
    j := i;
    if rest == [] {
      assert path + rest == path;
    } else {
      var next := Reader.LookupIn(img, Geometry(es), es[i].inode, rest[0]);
      var k := FoundIsUnder(es, img, i, rest[0], next.inode);
      JoinOfMore(SLASH, path, rest[0]);
      assert (path + [rest[0]]) + rest[1..] == path + rest;
      j := FollowSpells(es, img, k, path + [rest[0]], rest[1..], ino);
    }
  }

  // ---- File contents --------------------------------------------------------------------

  lemma {:induction false} BlocksAreRead(es: seq<Entry>, img: seq<byte>, i: nat, k: nat, n: nat)
    requires Sealed(es, img) && i < |es| && k <= n <= BlockCount(es[i]) && n <= MAX_DIRECT
    ensures ValidTable(es) && Emits(es, es[i]) && n * BLOCK_SIZE <= |Payload(es, es[i])|
    ensures Reader.ReadBlocks(img, Geometry(es), InodeRead(es, i), k, n)
      == Some(Payload(es, es[i])[k * BLOCK_SIZE..n * BLOCK_SIZE])
    decreases n - k
  {
    hide Sealed, ValidTable, Emits, Payload, FirstBlock, BlockCount, Pointers, Reader.DirectBlock;
    PayloadIsRead(es, img, i);
    if k < n {
      DirectBlockIsRead(es, img, i, k);
      BlocksAreRead(es, img, i, k + 1, n);
      var p := Payload(es, es[i]);
      assert p[k * BLOCK_SIZE..n * BLOCK_SIZE]
        == p[k * BLOCK_SIZE..(k + 1) * BLOCK_SIZE] + p[(k + 1) * BLOCK_SIZE..n * BLOCK_SIZE];
    }
  }

  lemma FileIsRead(es: seq<Entry>, img: seq<byte>, i: nat)
    requires Sealed(es, img) && i < |es| && !es[i].isDir && IsWhole(es[i].content)
    ensures Reader.ReadFile(img, Geometry(es), InodeRead(es, i)) == Some(es[i].content)
  {
    hide Sealed, ValidTable, Emits, Payload, FirstBlock, BlockCount, Pointers, Reader.ReadBlocks, Reader.ReadFile;
    SealedParts(es, img);
    var n := (|es[i].content| + BLOCK_SIZE - 1) / BLOCK_SIZE;
    WholeSize(es[i].content);
    hide IsWhole;
    FilePayloadStarts(es, i, n);
    BlocksAreRead(es, img, i, 0, n);
    Reader.FileFromBlocks(img, Geometry(es), InodeRead(es, i), n, Payload(es, es[i])[0 * BLOCK_SIZE..n * BLOCK_SIZE]);
  }

  lemma FilePayloadStarts(es: seq<Entry>, i: nat, n: nat)
    requires i < |es| && ValidTable(es) && Emits(es, es[i]) && !es[i].isDir && IsWhole(es[i].content)
    requires n == (|es[i].content| + BLOCK_SIZE - 1) / BLOCK_SIZE
    ensures n <= BlockCount(es[i]) && n <= MAX_DIRECT
    ensures var p := Payload(es, es[i]);
      |es[i].content| <= n * BLOCK_SIZE <= |p| && p[0 * BLOCK_SIZE..n * BLOCK_SIZE][..|es[i].content|] == es[i].content
  {
    hide ValidTable, Emits, Payload, BlockCount;
    FileFacts(es, es[i]);
    CountIsSmall(es, i);
    WholeCount(es[i].content);
    ContentFirst(es[i].content, BlockCount(es[i]), n);
  }

  lemma WholeSize(content: seq<byte>)
    requires IsWhole(content)
    ensures |content| % 0x1_0000_0000 == |content|
  {
  }

  lemma WholeCount(content: seq<byte>)
    requires IsWhole(content)
    ensures (|content| + BLOCK_SIZE - 1) / BLOCK_SIZE <= Blocks32(|content|)
      && |content| <= Blocks32(|content|) * BLOCK_SIZE
  {
  }

  lemma ContentFirst(content: seq<byte>, count: nat, n: nat)
    requires |content| <= count * BLOCK_SIZE && n <= count && n == (|content| + BLOCK_SIZE - 1) / BLOCK_SIZE
    ensures var p := FilePayload(content, count);
      |content| <= n * BLOCK_SIZE <= |p| && p[0 * BLOCK_SIZE..n * BLOCK_SIZE][..|content|] == content
  {
  }

  /** What an inode of the image shows is what its entry holds, exactly when that is at most twelve blocks. */
  lemma ViewIsEntry(es: seq<Entry>, img: seq<byte>, i: nat)
    requires Sealed(es, img) && InodesFit(es) && i < |es|
    ensures es[i].isDir ==> Reader.ViewInode(img, Geometry(es), es[i].inode) == Reader.Directory
    ensures !es[i].isDir ==>
      (Reader.ViewInode(img, Geometry(es), es[i].inode) == Reader.FileWith(es[i].content) <==> IsWhole(es[i].content))
  {
    hide Sealed, InodesFit, Pointers, FirstBlock, BlockCount, Reader.ReadInode, Reader.ReadFile, Reader.FileType;
    InodeIsRead(es, img, i);
    ModeBits();
    if !es[i].isDir {
      if IsWhole(es[i].content) {
        FileIsRead(es, img, i);
      } else {
        Reader.FilesAreSmall(img, Geometry(es), InodeRead(es, i));
      }
    }
  }

  // ---- The theorem ----------------------------------------------------------------------

  /** What a reader should see at a path of the source tree. */
  function Shown(r: Resolution): Reader.View {
    match r
    case Missing => Reader.NothingThere
    case NotADirectory => Reader.ThroughAFile
    case Reached(node) => if node.Dir? then Reader.Directory else Reader.FileWith(node.content)
  }

  /** A node the format has room for. */
  predicate IsRoomy(r: Resolution) { r.Reached? && r.node.File? ==> IsWhole(r.node.content) }

  lemma ViewOfFollowed(es: seq<Entry>, img: seq<byte>, path: Path)
    requires Reader.ReadSuper(img) == Some(Geometry(es))
    ensures var a := Reader.Follow(img, Geometry(es), ROOT_INO, path);
      Reader.ViewPath(img, path) == match a
        case At(ino) => Reader.ViewInode(img, Geometry(es), ino)
        case Absent => Reader.NothingThere
        case NotADirectory => Reader.ThroughAFile
        case Failed => Reader.Broken
  {
    hide Reader.ReadSuper, Reader.Follow, Reader.ViewInode, FirstBlock;
  }

  lemma ShownOfRepresented(e: Entry, root: seq<Named>, path: Path)
    requires Represents(e, root, path)
    ensures Shown(Resolve(Dir(root), path)) == if e.isDir then Reader.Directory else Reader.FileWith(e.content)
    ensures IsRoomy(Resolve(Dir(root), path)) <==> e.isDir || IsWhole(e.content)
  {
    hide Resolve, Join;
  }

  lemma RootEntry(es: seq<Entry>, root: seq<Named>) returns (i: nat)
    requires Describes(es, root)
    ensures i < |es| && Represents(es[i], root, []) && es[i].inode == ROOT_INO
  {
    i := EntryOfReached(es, root, []);
    assert es[i].relpath == [];
  }

  /**
   * The image, read back, is the tree: a path shows the node the tree has there exactly when its
   * file fits twelve blocks.
   */
  lemma SealedImageIsTree(es: seq<Entry>, img: seq<byte>, root: seq<Named>, path: Path)
    requires Sealed(es, img) && InodesFit(es) && ValidChildren(root) && Describes(es, root) && ValidPath(path)
    ensures Reader.ViewPath(img, path) == Shown(Resolve(Dir(root), path)) <==> IsRoomy(Resolve(Dir(root), path))
  {
    hide Sealed, InodesFit, ValidChildren, Describes, Represents, Resolve, ValidPath, IsWhole, Reader.Follow,
      Reader.ViewInode,
      Reader.ViewPath;
    GeometryIsRead(es, img);
    ViewOfFollowed(es, img, path);
    var i := RootEntry(es, root);
    var j := FollowIsResolve(es, img, root, i, [], path);
    assert [] + path == path;
    if Resolve(Dir(root), path).Reached? {
      ViewIsEntry(es, img, j);
      ShownOfRepresented(es[j], root, path);
    }
  }

  /** A path that no entry spells out does not show its node. */
  lemma UnspelledIsNotShown(es: seq<Entry>, img: seq<byte>, root: seq<Named>, path: Path, i: nat)
    requires Sealed(es, img) && InodesFit(es) && ValidPath(path) && Resolve(Dir(root), path).Reached?
    requires i < |es| && es[i].inode == ROOT_INO && es[i].relpath == []
    requires forall k :: 0 <= k < |es| ==> es[k].relpath != Join(SLASH, path)
    ensures Reader.ViewPath(img, path) != Shown(Resolve(Dir(root), path))
  {
    hide Sealed, InodesFit, Resolve, ValidPath, Join, Reader.Follow, Reader.ViewInode, Reader.ViewPath;
    GeometryIsRead(es, img);
    ViewOfFollowed(es, img, path);
    var a := Reader.Follow(img, Geometry(es), ROOT_INO, path);
    if a.At? {
      JoinOfNone();
      assert [] + path == path;
      var j := FollowSpells(es, img, i, [], path, a.inode);
    }
  }

  lemma JoinOfNone()
    ensures Join(SLASH, []) == []
  {
  }
}
