/**
 * Little-endian fields and the geometry of the sealed image
 * (packages/sandbox-vm-native/src/vm-image-builder.c), and a file as the writer sees it:
 * bytes that can be written at any offset, with zeros in the gaps.
 */
module ImageBytes {
  import opened Prelude

  const BLOCK_SIZE: nat := 1024
  const INODE_SIZE: nat := 128
  const N_INODES: nat := 256
  const INODE_TABLE_FIRST: nat := 5
  const DATA_FIRST: nat := 37
  const ROOT_INO: nat := 2
  const FIRST_USR_INO: nat := 11

  function Zeros(n: nat): (s: seq<byte>)
    ensures |s| == n && forall i :: 0 <= i < n ==> s[i] == 0
  {
    seq(n, _ => 0)
  }

  function Le16(v: nat): (s: seq<byte>)
    ensures |s| == 2
  {
    [v % 256, v / 256 % 256]
  }

  function Le32(v: nat): (s: seq<byte>)
    ensures |s| == 4
  {
    [v % 256, v / 256 % 256, v / 0x1_0000 % 256, v / 0x100_0000 % 256]
  }

  function U16(b: seq<byte>, o: nat): nat
    requires o + 2 <= |b|
  {
    var b0: nat, b1: nat := b[o], b[o + 1];
    b0 + 256 * b1
  }

  function U32(b: seq<byte>, o: nat): nat
    requires o + 4 <= |b|
  {
    var b0: nat, b1: nat, b2: nat, b3: nat := b[o], b[o + 1], b[o + 2], b[o + 3];
    b0 + 256 * b1 + 0x1_0000 * b2 + 0x100_0000 * b3
  }

  lemma ReadBack16(b: seq<byte>, o: nat, v: nat)
    requires v < 0x1_0000 && o + 2 <= |b| && b[o..o + 2] == Le16(v)
    ensures U16(b, o) == v
  {
    assert b[o] == b[o..o + 2][0] && b[o + 1] == b[o..o + 2][1];
  }

  lemma ReadBack32(b: seq<byte>, o: nat, v: nat)
    requires v < 0x1_0000_0000 && o + 4 <= |b| && b[o..o + 4] == Le32(v)
    ensures U32(b, o) == v
  {
    var s := b[o..o + 4];
    assert b[o] == s[0] && b[o + 1] == s[1] && b[o + 2] == s[2] && b[o + 3] == s[3];
    Digits256(v);
  }

  lemma Digits256(v: nat)
    requires v < 0x1_0000_0000
    ensures v == v % 256 + 256 * (v / 256 % 256) + 0x1_0000 * (v / 0x1_0000 % 256) + 0x100_0000 * (v / 0x100_0000 % 256)
  {
    var a, b, c := v / 256, v / 0x1_0000, v / 0x100_0000;
    assert b == a / 256 && c == b / 256 && c < 256;
  }

  /** What pwrite-like output does to a file: bytes past the end appear, gaps read as zero. */
  function WriteAt(img: seq<byte>, off: nat, buf: seq<byte>): (r: seq<byte>)
    ensures |r| == if off + |buf| < |img| then |img| else off + |buf|
  {
    var head := if |img| < off then img + Zeros(off - |img|) else img[..off];
    head + buf + if off + |buf| < |img| then img[off + |buf|..] else []
  }

  lemma WrittenBytes(img: seq<byte>, off: nat, buf: seq<byte>)
    ensures WriteAt(img, off, buf)[off..off + |buf|] == buf
  {
  }

  /** A write changes nothing outside its range. */
  lemma UntouchedBytes(img: seq<byte>, off: nat, buf: seq<byte>, o: nat, n: nat)
    requires o + n <= |img| && (o + n <= off || off + |buf| <= o)
    ensures WriteAt(img, off, buf)[o..o + n] == img[o..o + n]
  {
  }

  lemma WriteBelow(img: seq<byte>, off: nat, buf: seq<byte>, from: nat)
    requires off + |buf| <= from <= |img|
    ensures |WriteAt(img, off, buf)| == |img| && WriteAt(img, off, buf)[from..] == img[from..]
  {
  }
}
