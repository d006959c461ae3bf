/**
 * Reading an image back: superblock, group descriptor, inode and dirent parsing of
 * packages/sandbox-vm-native/src/vm-image-builder.c (rd_*), with the data of an inode without
 * the extents flag taken from its direct block pointers, as the writer intends it.
 */
module ImageReader {
  import opened Prelude
  import opened ImageBytes
  import DirBlock

  const MAGIC: nat := 0xEF53
  const EXTENTS_BIT: nat := 0x8_0000
  const INDEX_BIT: nat := 0x1000
  const MAX_DIRECT: nat := 12

  datatype Super = Super(blockSize: nat, blocksCount: nat, inodesPerGroup: nat, inodeSize: nat, gdtBlock: nat)
  datatype Inode = Inode(mode: nat, size: nat, flags: nat, iblock: seq<byte>)

  /** pread of exactly n bytes; None past the end. */
  function ReadAt(img: seq<byte>, off: nat, n: nat): (r: Option<seq<byte>>)
    ensures r.Some? ==> |r.value| == n
  {
    if off + n > |img| then None else Some(img[off..off + n])
  }

  function ReadSuper(img: seq<byte>): (r: Option<Super>)
    ensures r.Some? ==> r.value.blockSize > 0 && r.value.inodesPerGroup > 0 && r.value.inodeSize in {128, 256}
  {
    var raw := ReadAt(img, 1024, 1024);
    if raw.None? then None
    else
      var s := raw.value;
      var logBlock := U32(s, 0x18);
      if U16(s, 0x38) != MAGIC || logBlock > 6 then None
      else if U32(s, 0x04) == 0 || U32(s, 0x28) == 0 || U32(s, 0x58) !in {128, 256} then None
      else Some(Super(1024 * Pow2(logBlock), U32(s, 0x04), U32(s, 0x28), U32(s, 0x58), if logBlock == 0 then 2 else 1))
  }

  /** Record `index` of `size` bytes, in a table starting at a block. */
  function Address(block: nat, blockSize: nat, index: nat, size: nat): nat { block * blockSize + index * size }

  function InodeTableBlock(img: seq<byte>, sb: Super, ino: nat): Option<nat>
    requires ino > 0 && sb.inodesPerGroup > 0
  {
    var gd := ReadAt(img, Address(sb.gdtBlock, sb.blockSize, (ino - 1) / sb.inodesPerGroup, 32), 32);
    if gd.None? then None
    else if U32(gd.value, 0x08) >= sb.blocksCount then None
    else Some(U32(gd.value, 0x08))
  }

  function ReadInode(img: seq<byte>, sb: Super, ino: nat): (r: Option<Inode>)
    requires sb.inodesPerGroup > 0 && sb.inodeSize in {128, 256}
    ensures r.Some? ==> |r.value.iblock| == 60
  {
    if ino == 0 then None
    else
      var table := InodeTableBlock(img, sb, ino);
      if table.None? then None
      else
        var off := Address(table.value, sb.blockSize, (ino - 1) % sb.inodesPerGroup, sb.inodeSize);
        var raw := ReadAt(img, off, sb.inodeSize);
        if raw.None? then None
        else Some(Inode(U16(raw.value, 0), U32(raw.value, 4), U32(raw.value, 0x20), raw.value[0x28..0x28 + 60]))
  }

  lemma InodeFromSlot(img: seq<byte>, sb: Super, ino: nat, table: nat, off: nat, raw: seq<byte>)
    requires ino > 0 && sb.inodesPerGroup > 0 && sb.inodeSize in {128, 256} && |raw| == sb.inodeSize
    requires InodeTableBlock(img, sb, ino) == Some(table)
    requires off == Address(table, sb.blockSize, (ino - 1) % sb.inodesPerGroup, sb.inodeSize)
    requires off + |raw| <= |img| && img[off..off + |raw|] == raw
    ensures ReadInode(img, sb, ino) == Some(Inode(U16(raw, 0), U32(raw, 4), U32(raw, 0x20), raw[0x28..0x28 + 60]))
  {
    hide U16, U32, Address, InodeTableBlock;
  }

  lemma BlockFromPointer(img: seq<byte>, sb: Super, inode: Inode, k: nat, p: nat, data: seq<byte>)
    requires |inode.iblock| == 60 && k < MAX_DIRECT && U32(inode.iblock, 4 * k) == p && p > 0
    requires |data| == sb.blockSize && p * sb.blockSize + |data| <= |img|
    requires img[p * sb.blockSize..p * sb.blockSize + |data|] == data
    ensures DirectBlock(img, sb, inode, k) == Some(data)
  {
    hide U32;
    assert Address(p, sb.blockSize, 0, 0) == p * sb.blockSize;
  }

  /** The file type bits of i_mode, S_IFMT = 0170000. */
  function FileType(mode: nat): nat { mode / 0x1000 % 16 }
  const TYPE_DIR: nat := 4
  const TYPE_REG: nat := 8

  predicate HasBit(flags: nat, weight: nat)
    requires weight > 0
  {
    flags / weight % 2 == 1
  }

  /** Block `k` of an inode, by its direct pointer; a zero pointer is a hole. */
  function DirectBlock(img: seq<byte>, sb: Super, inode: Inode, k: nat): Option<seq<byte>>
    requires |inode.iblock| == 60 && k < MAX_DIRECT
  {
    var p := U32(inode.iblock, 4 * k);
    if p == 0 then Some(Zeros(sb.blockSize)) else ReadAt(img, Address(p, sb.blockSize, 0, 0), sb.blockSize)
  }

  datatype Answer = At(inode: nat) | Absent | NotADirectory | Failed

  function AnswerOf(found: DirBlock.Lookup): Answer {
    match found
    case Found(ino) => At(ino)
    case Absent => Absent
    case Malformed => Failed
  }

  /** The search of one directory, its block found by the direct pointer. */
  function SearchInode(img: seq<byte>, sb: Super, inode: Inode, name: seq<byte>): Answer
    requires |inode.iblock| == 60
  {
    if FileType(inode.mode) != TYPE_DIR then NotADirectory
    else if HasBit(inode.flags, INDEX_BIT) then Failed
    else
      var block := DirectBlock(img, sb, inode, 0);
      if block.None? then Failed else AnswerOf(DirBlock.Scan(block.value, 0, name))
  }

  function LookupIn(img: seq<byte>, sb: Super, dir: nat, name: seq<byte>): Answer
    requires sb.inodesPerGroup > 0 && sb.inodeSize in {128, 256}
  {
    var inode := ReadInode(img, sb, dir);
    if inode.None? then Failed else SearchInode(img, sb, inode.value, name)
  }

  lemma SearchedBlock(img: seq<byte>, sb: Super, inode: Inode, name: seq<byte>, data: seq<byte>)
    requires |inode.iblock| == 60 && FileType(inode.mode) == TYPE_DIR && !HasBit(inode.flags, INDEX_BIT)
    requires DirectBlock(img, sb, inode, 0) == Some(data)
    ensures SearchInode(img, sb, inode, name) == AnswerOf(DirBlock.Scan(data, 0, name))
  {
    hide DirBlock.Scan, DirectBlock, FileType, HasBit;
  }

  /** The component loop of rd_stat_guest, from the inode `ino`. */
  function Follow(img: seq<byte>, sb: Super, ino: nat, path: seq<seq<byte>>): Answer
    requires sb.inodesPerGroup > 0 && sb.inodeSize in {128, 256}
    decreases |path|
  {
    if path == [] then At(ino)
    else
      var next := LookupIn(img, sb, ino, path[0]);
      if next.At? then Follow(img, sb, next.inode, path[1..]) else next
  }

  /** The blocks from number `k` to number `n` of an inode. */
  function ReadBlocks(img: seq<byte>, sb: Super, inode: Inode, k: nat, n: nat): Option<seq<byte>>
    requires |inode.iblock| == 60 && k <= n <= MAX_DIRECT
    decreases n - k
  {
    if k == n then Some([])
    else
      var block := DirectBlock(img, sb, inode, k);
      var rest := ReadBlocks(img, sb, inode, k + 1, n);
      if block.None? || rest.None? then None else Some(block.value + rest.value)
  }

  function ReadFile(img: seq<byte>, sb: Super, inode: Inode): Option<seq<byte>>
    requires |inode.iblock| == 60 && sb.blockSize > 0
  {
    var n := (inode.size + sb.blockSize - 1) / sb.blockSize;
    if n > MAX_DIRECT then None
    else
      var data := ReadBlocks(img, sb, inode, 0, n);
      if data.None? || |data.value| < inode.size then None else Some(data.value[..inode.size])
  }

  lemma FileFromBlocks(img: seq<byte>, sb: Super, inode: Inode, n: nat, data: seq<byte>)
    requires |inode.iblock| == 60 && sb.blockSize > 0
      && n == (inode.size + sb.blockSize - 1) / sb.blockSize <= MAX_DIRECT
    requires ReadBlocks(img, sb, inode, 0, n) == Some(data) && inode.size <= |data|
    ensures ReadFile(img, sb, inode) == Some(data[..inode.size])
  {
    hide ReadBlocks;
  }

  /** No more than twelve blocks of a file are read. */
  lemma FilesAreSmall(img: seq<byte>, sb: Super, inode: Inode)
    requires |inode.iblock| == 60 && sb.blockSize > 0
    ensures var r := ReadFile(img, sb, inode); r.Some? ==> |r.value| <= MAX_DIRECT * sb.blockSize
  {
    hide ReadBlocks;
    var n := (inode.size + sb.blockSize - 1) / sb.blockSize;
    if n <= MAX_DIRECT { RoundedUp(inode.size, sb.blockSize, n); }
  }

  lemma RoundedUp(size: nat, unit: nat, n: nat)
    requires unit > 0 && n == (size + unit - 1) / unit <= MAX_DIRECT
    ensures size <= MAX_DIRECT * unit
  {
    assert size + unit - 1 == n * unit + (size + unit - 1) % unit;
    assert n * unit <= MAX_DIRECT * unit;
  }

  /** What a path of the image shows. */
  datatype View = NothingThere | ThroughAFile | Directory | FileWith(content: seq<byte>) | Broken

  function ViewInode(img: seq<byte>, sb: Super, ino: nat): View
    requires sb.blockSize > 0 && sb.inodesPerGroup > 0 && sb.inodeSize in {128, 256}
  {
    var inode := ReadInode(img, sb, ino);
    if inode.None? then Broken
    else if FileType(inode.value.mode) == TYPE_DIR then Directory
    else if FileType(inode.value.mode) == TYPE_REG then
      var content := ReadFile(img, sb, inode.value);
      if content.None? then Broken else FileWith(content.value)
    else Broken
  }

  function ViewPath(img: seq<byte>, path: seq<seq<byte>>): View {
    var sb := ReadSuper(img);
    if sb.None? then Broken
    else
      match Follow(img, sb.value, ROOT_INO, path)
      case At(ino) => ViewInode(img, sb.value, ino)
      case Absent => NothingThere
      case NotADirectory => ThroughAFile
      case Failed => Broken
  }
}
