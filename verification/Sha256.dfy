/**
 * The streaming SHA-256 of packages/sandbox-vm-native/src/vm-image-builder.c, proved
 * against FIPS 180-4: whatever the calls to Update, Final returns the hash of section
 * 6.2.2 of everything that was fed in, padded as section 5.1.1 says.
 */
module Sha256 {
  type word = bv32

  /** Addition modulo 2^32. */
  function Add(x: word, y: word): word { x + y }
  function Sum4(w: word, x: word, y: word, z: word): word { w + x + y + z }

  // ---- FIPS 180-4, sections 4.1.2, 4.2.2 and 5.3.3 ---------------------------

  function Rotr(x: word, n: nat): word
    requires 0 < n < 32
  {
    (x >> n) | (x << (32 - n))
  }

  function Ch(x: word, y: word, z: word): word { (x & y) ^ ((!x) & z) }
  function Maj(x: word, y: word, z: word): word { (x & y) ^ (x & z) ^ (y & z) }
  function BigSigma0(x: word): word { Rotr(x, 2) ^ Rotr(x, 13) ^ Rotr(x, 22) }
  function BigSigma1(x: word): word { Rotr(x, 6) ^ Rotr(x, 11) ^ Rotr(x, 25) }
  function SmallSigma0(x: word): word { Rotr(x, 7) ^ Rotr(x, 18) ^ (x >> 3) }
  function SmallSigma1(x: word): word { Rotr(x, 17) ^ Rotr(x, 19) ^ (x >> 10) }

  /** The table of section 4.2.2. */
  function Constant(t: nat): (k: nat)
    requires t < 64
    ensures k < 0x1_0000_0000
  {
    match t
    case 0 => 0x428a2f98 case 1 => 0x71374491 case 2 => 0xb5c0fbcf case 3 => 0xe9b5dba5
    case 4 => 0x3956c25b case 5 => 0x59f111f1 case 6 => 0x923f82a4 case 7 => 0xab1c5ed5
    case 8 => 0xd807aa98 case 9 => 0x12835b01 case 10 => 0x243185be case 11 => 0x550c7dc3
    case 12 => 0x72be5d74 case 13 => 0x80deb1fe case 14 => 0x9bdc06a7 case 15 => 0xc19bf174
    case 16 => 0xe49b69c1 case 17 => 0xefbe4786 case 18 => 0x0fc19dc6 case 19 => 0x240ca1cc
    case 20 => 0x2de92c6f case 21 => 0x4a7484aa case 22 => 0x5cb0a9dc case 23 => 0x76f988da
    case 24 => 0x983e5152 case 25 => 0xa831c66d case 26 => 0xb00327c8 case 27 => 0xbf597fc7
    case 28 => 0xc6e00bf3 case 29 => 0xd5a79147 case 30 => 0x06ca6351 case 31 => 0x14292967
    case 32 => 0x27b70a85 case 33 => 0x2e1b2138 case 34 => 0x4d2c6dfc case 35 => 0x53380d13
    case 36 => 0x650a7354 case 37 => 0x766a0abb case 38 => 0x81c2c92e case 39 => 0x92722c85
    case 40 => 0xa2bfe8a1 case 41 => 0xa81a664b case 42 => 0xc24b8b70 case 43 => 0xc76c51a3
    case 44 => 0xd192e819 case 45 => 0xd6990624 case 46 => 0xf40e3585 case 47 => 0x106aa070
    case 48 => 0x19a4c116 case 49 => 0x1e376c08 case 50 => 0x2748774c case 51 => 0x34b0bcb5
    case 52 => 0x391c0cb3 case 53 => 0x4ed8aa4a case 54 => 0x5b9cca4f case 55 => 0x682e6ff3
    case 56 => 0x748f82ee case 57 => 0x78a5636f case 58 => 0x84c87814 case 59 => 0x8cc70208
    case 60 => 0x90befffa case 61 => 0xa4506ceb case 62 => 0xbef9a3f7 case _ => 0xc67178f2
  }

  function K(t: nat): word
    requires t < 64
  {
    Constant(t) as word
  }

  /** The first sixty-four primes. */
  function Prime(t: nat): nat
    requires t < 64
  {
    match t
    case 0 => 2 case 1 => 3 case 2 => 5 case 3 => 7 case 4 => 11 case 5 => 13 case 6 => 17 case 7 => 19
    case 8 => 23 case 9 => 29 case 10 => 31 case 11 => 37 case 12 => 41 case 13 => 43 case 14 => 47 case 15 => 53
    case 16 => 59 case 17 => 61 case 18 => 67 case 19 => 71 case 20 => 73 case 21 => 79 case 22 => 83 case 23 => 89
    case 24 => 97 case 25 => 101 case 26 => 103 case 27 => 107 case 28 => 109 case 29 => 113 case 30 => 127
      case 31 => 131
    case 32 => 137 case 33 => 139 case 34 => 149 case 35 => 151 case 36 => 157 case 37 => 163 case 38 => 167
      case 39 => 173
    case 40 => 179 case 41 => 181 case 42 => 191 case 43 => 193 case 44 => 197 case 45 => 199 case 46 => 211
      case 47 => 223
    case 48 => 227 case 49 => 229 case 50 => 233 case 51 => 239 case 52 => 241 case 53 => 251 case 54 => 257
      case 55 => 263
    case 56 => 269 case 57 => 271 case 58 => 277 case 59 => 281 case 60 => 283 case 61 => 293 case 62 => 307
      case _ => 311
  }

  /** `k` is the first 32 bits of the fractional part of the cube root of `p`. */
  predicate IsCubeRootFraction(p: nat, k: nat) {
    var whole := if p < 8 then 1 else if p < 27 then 2 else if p < 64 then 3 else if p < 125 then 4 else if p < 216
      then 5 else 6;
    var x := whole * 0x1_0000_0000 + k;
    k < 0x1_0000_0000 && x * x * x <= p * 0x1_0000_0000_0000_0000_0000_0000 < (x + 1) * (x + 1) * (x + 1)
  }

  predicate CubeRootsBetween(from: nat, n: nat)
    requires from <= n <= 64
  {
    n == from || (IsCubeRootFraction(Prime(n - 1), Constant(n - 1)) && CubeRootsBetween(from, n - 1))
  }

  lemma CubeRoots0() ensures CubeRootsBetween(0, 8) {}
  lemma CubeRoots8() ensures CubeRootsBetween(8, 16) {}
  lemma CubeRoots16() ensures CubeRootsBetween(16, 24) {}
  lemma CubeRoots24() ensures CubeRootsBetween(24, 32) {}
  lemma CubeRoots32() ensures CubeRootsBetween(32, 40) {}
  lemma CubeRoots40() ensures CubeRootsBetween(40, 48) {}
  lemma CubeRoots48() ensures CubeRootsBetween(48, 56) {}
  lemma CubeRoots56() ensures CubeRootsBetween(56, 64) {}

  lemma {:induction false} CubeRootAt(from: nat, n: nat, t: nat)
    requires from <= t < n <= 64 && CubeRootsBetween(from, n)
    ensures IsCubeRootFraction(Prime(t), Constant(t))
  {
    hide IsCubeRootFraction, Prime, Constant;
    if t < n - 1 { CubeRootAt(from, n - 1, t); }
  }

  /** Section 4.2.2 defines the table by the cube roots of the primes. */
  lemma ConstantsAreCubeRoots(t: nat)
    requires t < 64
    ensures IsCubeRootFraction(Prime(t), Constant(t))
  {
    hide IsCubeRootFraction, Prime, Constant, CubeRootsBetween;
    CubeRoots0(); CubeRoots8(); CubeRoots16(); CubeRoots24();
    CubeRoots32(); CubeRoots40(); CubeRoots48(); CubeRoots56();
    CubeRootAt(t / 8 * 8, t / 8 * 8 + 8, t);
  }

  /** The eight working variables a..h, which are also the intermediate hash value. */
  datatype Words = Words(a: word, b: word, c: word, d: word, e: word, f: word, g: word, h: word)

  const INITIAL: Words :=
    Words(0x6a09e667, 0xbb67ae85, 0x3c6ef372, 0xa54ff53a, 0x510e527f, 0x9b05688c, 0x1f83d9ab, 0x5be0cd19)

  // ---- FIPS 180-4, section 6.2.2 ---------------------------------------------

  type block = s: seq<bv8> | |s| == 64 witness seq(64, _ => 0)

  function BigEndianWord(b0: bv8, b1: bv8, b2: bv8, b3: bv8): word {
    (b0 as word << 24) | (b1 as word << 16) | (b2 as word << 8) | b3 as word
  }

  function Extend(w2: word, w7: word, w15: word, w16: word): word {
    Sum4(SmallSigma1(w2), w7, SmallSigma0(w15), w16)
  }

  function Schedule(m: block, t: nat): word {
    if t < 16 then BigEndianWord(m[4 * t], m[4 * t + 1], m[4 * t + 2], m[4 * t + 3])
    else Extend(Schedule(m, t - 2), Schedule(m, t - 7), Schedule(m, t - 15), Schedule(m, t - 16))
  }

  function Temp1(e: word, f: word, g: word, h: word, k: word, w: word): word {
    Add(Add(Add(Add(h, BigSigma1(e)), Ch(e, f, g)), k), w)
  }

  function Temp2(a: word, b: word, c: word): word { Add(BigSigma0(a), Maj(a, b, c)) }

  function Round(v: Words, k: word, w: word): Words {
    var t1, t2 := Temp1(v.e, v.f, v.g, v.h, k, w), Temp2(v.a, v.b, v.c);
    Words(Add(t1, t2), v.a, v.b, v.c, Add(v.d, t1), v.e, v.f, v.g)
  }

  function Rounds(v: Words, m: block, t: nat): Words
    requires t <= 64
  {
    if t == 0 then v else Round(Rounds(v, m, t - 1), K(t - 1), Schedule(m, t - 1))
  }

  function AddWords(v: Words, w: Words): Words {
    Words(Add(v.a, w.a), Add(v.b, w.b), Add(v.c, w.c), Add(v.d, w.d),
          Add(v.e, w.e), Add(v.f, w.f), Add(v.g, w.g), Add(v.h, w.h))
  }

  function Compress(v: Words, m: block): Words { AddWords(v, Rounds(v, m, 64)) }

  function HashBlocks(s: seq<bv8>): Words
    requires |s| % 64 == 0
  {
    if s == [] then INITIAL else Compress(HashBlocks(s[..|s| - 64]), s[|s| - 64..])
  }

  /** Byte `i` of a word, counting from the most significant. */
  function WordByte(w: word, i: nat): bv8
    requires i < 4
  {
    ((w >> (24 - i * 8)) & 0xff) as bv8
  }

  function BytesOfWord(w: word): seq<bv8> { [WordByte(w, 0), WordByte(w, 1), WordByte(w, 2), WordByte(w, 3)] }

  function BytesOfWords(ws: seq<word>): (s: seq<bv8>)
    ensures |s| == 4 * |ws|
  {
    if ws == [] then [] else BytesOfWord(ws[0]) + BytesOfWords(ws[1..])
  }

  function Listed(v: Words): seq<word> { [v.a, v.b, v.c, v.d, v.e, v.f, v.g, v.h] }

  // ---- FIPS 180-4, section 5.1.1 ---------------------------------------------

  const UINT64: nat := 0x1_0000_0000_0000_0000

  /** `n` in `size` bytes, most significant first. */
  function BigEndian(n: nat, size: nat): (s: seq<bv8>)
    ensures |s| == size
  {
    if size == 0 then [] else BigEndian(n / 256, size - 1) + [(n % 256) as bv8]
  }

  /** The zero bytes after the 0x80 byte. */
  function ZeroCount(len: nat): nat { (119 - len % 64) % 64 }

  /** Section 5.1.1: it is the least solution of length + 1 + k = 448 mod 512, counted in bits. */
  lemma ZeroCountIsLeast(len: nat, k: nat)
    ensures (8 * len + 8 + 8 * ZeroCount(len)) % 512 == 448
    ensures (8 * len + 8 + 8 * k) % 512 == 448 ==> ZeroCount(len) <= k
  {
    SpaceForPadding(len);
    hide ZeroCount;
    BytesToBits(len + 1 + ZeroCount(len));
    BytesToBits(len + 1 + k);
    assert len + 1 + k == 64 * (len / 64) + (len % 64 + 1 + k);
    LeastSpace(len / 64, len % 64, k);
  }

  lemma LeastSpace(q: nat, r: nat, k: nat)
    requires r < 64
    ensures (64 * q + (r + 1 + k)) % 64 == 56 ==> k >= if r < 56 then 55 - r else 119 - r
  {
    assert (64 * q + (r + 1 + k)) % 64 == (r + 1 + k) % 64;
  }

  lemma BytesToBits(n: nat)
    ensures (8 * n) % 512 == 448 <==> n % 64 == 56
  {
    var q, r := n / 64, n % 64;
    assert 8 * n == 512 * q + 8 * r;
  }

  function Zeros(n: nat): (s: seq<bv8>)
    ensures |s| == n && forall i :: 0 <= i < n ==> s[i] == 0
  {
    seq(n, _ => 0)
  }

  function Padding(len: nat): seq<bv8> { [0x80] + Zeros(ZeroCount(len)) + BigEndian(8 * len % UINT64, 8) }

  lemma PaddedLength(m: seq<bv8>)
    ensures |m + Padding(|m|)| % 64 == 0
  {
    hide BigEndian;
    SpaceForPadding(|m|);
  }

  lemma SpaceForPadding(len: nat)
    ensures (len + 1 + ZeroCount(len) + 8) % 64 == 0
    ensures ZeroCount(len) == if len % 64 < 56 then 55 - len % 64 else 119 - len % 64
  {
    var q, r := len / 64, len % 64;
    assert len == 64 * q + r;
  }

  /** The message digest of section 6.2.2. */
  function Digest(m: seq<bv8>): seq<bv8> {
    PaddedLength(m);
    BytesOfWords(Listed(HashBlocks(m + Padding(|m|))))
  }

  // ---- The streaming context -------------------------------------------------

  /** The buffered bytes and the counters after the bytes `m` have been fed in. */
  ghost predicate Streamed(m: seq<bv8>, state: Words, pending: seq<bv8>, bitlen: nat) {
    && |pending| < 64 && |pending| <= |m|
    && var whole := |m| - |pending|;
    && whole % 64 == 0
    && state == HashBlocks(m[..whole])
    && pending == m[whole..]
    && bitlen == 8 * whole % UINT64
  }

  lemma StreamedNothing()
    ensures Streamed([], INITIAL, [], 0)
  {
  }

  lemma StreamedByte(m: seq<bv8>, state: Words, pending: seq<bv8>, bitlen: nat, x: bv8)
    requires Streamed(m, state, pending, bitlen) && |pending| < 63
    ensures Streamed(m + [x], state, pending + [x], bitlen)
  {
    hide HashBlocks;
    var whole := |m| - |pending|;
    assert (m + [x])[..whole] == m[..whole] && (m + [x])[whole..] == pending + [x];
  }

  lemma StreamedBlock(m: seq<bv8>, state: Words, pending: seq<bv8>, bitlen: nat, x: bv8, b: block)
    requires Streamed(m, state, pending, bitlen) && b == pending + [x]
    ensures Streamed(m + [x], Compress(state, b), [], (bitlen + 512) % UINT64)
  {
    hide HashBlocks, Compress;
    var m', whole := m + [x], |m| - |pending|;
    assert m == m[..whole] + pending && m' == m[..whole] + b;
    OneMoreBlock(m[..whole], b);
    assert m'[..|m'|] == m' && m'[|m'|..] == [];
    assert 8 * |m'| == 8 * whole + 512;
    WrappedSum(8 * whole, 512);
  }

  lemma WrappedSum(x: nat, y: nat)
    ensures (x % UINT64 + y) % UINT64 == (x + y) % UINT64
  {
    var q, r := x / UINT64, x % UINT64;
    assert x + y == UINT64 * q + (r + y);
  }

  lemma StreamedCounts(m: seq<bv8>, state: Words, pending: seq<bv8>, bitlen: nat)
    requires Streamed(m, state, pending, bitlen)
    ensures |pending| < 64 && |pending| <= |m| && (|m| - |pending|) % 64 == 0
    ensures state == HashBlocks(m[..|m| - |pending|]) && m == m[..|m| - |pending|] + pending
    ensures ZeroCount(|m|) == if |pending| < 56 then 55 - |pending| else 119 - |pending|
    ensures bitlen < UINT64 && (bitlen + |pending| * 8) % UINT64 == 8 * |m| % UINT64
  {
    hide HashBlocks, ZeroCount;
    var whole := |m| - |pending|;
    assert m == m[..whole] + pending;
    assert |m| % 64 == |pending| by { assert |m| == 64 * (whole / 64) + |pending|; }
    SpaceForPadding(|m|);
    WrappedSum(8 * whole, |pending| * 8);
  }

  /** Padding that fits into the pending block. */
  lemma PaddedInOneBlock(m: seq<bv8>, state: Words, pending: seq<bv8>, bitlen: nat, last: block)
    requires Streamed(m, state, pending, bitlen) && |pending| < 56
    requires last == pending + [0x80] + Zeros(55 - |pending|) + BigEndian(8 * |m| % UINT64, 8)
    ensures |m + Padding(|m|)| % 64 == 0
    ensures HashBlocks(m + Padding(|m|)) == Compress(state, last)
  {
    hide Compress, BigEndian, HashBlocks, Streamed, ZeroCount;
    PaddedLength(m);
    StreamedCounts(m, state, pending, bitlen);
    var whole := m[..|m| - |pending|];
    assert m + Padding(|m|) == whole + last;
    OneMoreBlock(whole, last);
  }

  /** Padding that spills into one more block. */
  lemma PaddedInTwoBlocks(m: seq<bv8>, state: Words, pending: seq<bv8>, bitlen: nat, first: block, second: block)
    requires Streamed(m, state, pending, bitlen) && 56 <= |pending| < 64
    requires first == pending + [0x80] + Zeros(63 - |pending|)
    requires second == Zeros(56) + BigEndian(8 * |m| % UINT64, 8)
    ensures |m + Padding(|m|)| % 64 == 0
    ensures HashBlocks(m + Padding(|m|)) == Compress(Compress(state, first), second)
  {
    hide Compress, BigEndian, HashBlocks, Streamed, ZeroCount;
    PaddedLength(m);
    StreamedCounts(m, state, pending, bitlen);
    var whole := m[..|m| - |pending|];
    assert Zeros(119 - |pending|) == Zeros(63 - |pending|) + Zeros(56);
    RegroupedBlocks(whole, pending, [0x80], Zeros(63 - |pending|), Zeros(56), BigEndian(8 * |m| % UINT64, 8));
    OneMoreBlock(whole, first);
    OneMoreBlock(whole + first, second);
  }

  lemma RegroupedBlocks(whole: seq<bv8>, pending: seq<bv8>, one: seq<bv8>, y: seq<bv8>, z: seq<bv8>, len: seq<bv8>)
    ensures (whole + pending) + (one + (y + z) + len) == whole + (pending + one + y) + (z + len)
  {
  }

  lemma OneMoreBlock(s: seq<bv8>, m: block)
    requires |s| % 64 == 0
    ensures HashBlocks(s + m) == Compress(HashBlocks(s), m)
  {
    var t := s + m;
    assert t[..|t| - 64] == s && t[|t| - 64..] == m;
  }

  class Context {
    var state: Words
    var bitlen: nat
    const data: array<bv8>
    var datalen: nat
    ghost var message: seq<bv8>

    ghost predicate Valid()
      reads this, data
    {
      && data.Length == 64 && datalen < 64
      && Streamed(message, state, data[..datalen], bitlen)
    }

    constructor ()
      ensures Valid() && message == [] && fresh(data)
    {
      hide Streamed;
      data := new bv8[64](_ => 0);
      datalen, bitlen := 0, 0;
      state := INITIAL;
      message := [];
      new;
      assert data[..datalen] == [];
      StreamedNothing();
    }

    /** One compression of the buffered block into the state. */
    method Transform()
      requires data.Length == 64
      modifies this`state
      ensures state == Compress(old(state), data[..])
    {
      hide SmallSigma0, SmallSigma1, BigSigma0, BigSigma1, Ch, Maj, K, BigEndianWord, Rounds, Schedule, Sum4,
           Temp1, Temp2, AddWords, Add;
      ghost var blk: block := data[..];
      var m := new word[64](_ => 0);
      var i := 0;
      while i < 16
        invariant 0 <= i <= 16 && state == old(state)
        invariant forall t :: 0 <= t < i ==> m[t] == Schedule(blk, t)
      {
        ScheduleStart(blk, i);
        m[i] := BigEndianWord(data[i * 4], data[i * 4 + 1], data[i * 4 + 2], data[i * 4 + 3]);
        i := i + 1;
      }
      while i < 64
        invariant 16 <= i <= 64 && state == old(state)
        invariant forall t :: 0 <= t < i ==> m[t] == Schedule(blk, t)
      {
        ScheduleStep(blk, i);
        var s0, s1 := SmallSigma0(m[i - 15]), SmallSigma1(m[i - 2]);
        Sum4Reversed(s1, m[i - 7], s0, m[i - 16]);
        m[i] := Sum4(m[i - 16], s0, m[i - 7], s1);
        i := i + 1;
      }
      var a, b, cc, dd := state.a, state.b, state.c, state.d;
      var e, f, g, h := state.e, state.f, state.g, state.h;
      i := 0;
      RoundsStart(state, blk);
      while i < 64
        invariant 0 <= i <= 64 && state == old(state)
        invariant forall t :: 0 <= t < 64 ==> m[t] == Schedule(blk, t)
        invariant Words(a, b, cc, dd, e, f, g, h) == Rounds(state, blk, i)
      {
        RoundStep(state, blk, i, Words(a, b, cc, dd, e, f, g, h));
        var t1, t2 := Temp1(e, f, g, h, K(i), m[i]), Temp2(a, b, cc);
        h, g, f, e, dd, cc, b, a := g, f, e, Add(dd, t1), cc, b, a, Add(t1, t2);
        i := i + 1;
      }
      assert data[..] == blk;
      state := AddWords(state, Words(a, b, cc, dd, e, f, g, h));
    }

    method Update(p: seq<bv8>)
      requires Valid()
      modifies this`state, this`bitlen, this`datalen, this`message, data
      ensures Valid() && message == old(message) + p
    {
      hide Streamed, Compress;
      for i := 0 to |p|
        invariant Valid() && message == old(message) + p[..i]
      {
        ghost var m, was, pending, bits := message, state, data[..datalen], bitlen;
        data[datalen] := p[i];
        datalen := datalen + 1;
        message := message + [p[i]];
        assert data[..datalen] == pending + [p[i]];
        if datalen < 64 {
          StreamedByte(m, was, pending, bits, p[i]);
        }
        if datalen == 64 {
          assert data[..] == data[..datalen];
          StreamedBlock(m, was, pending, bits, p[i], data[..]);
          Transform();
          bitlen := (bitlen + 512) % UINT64;
          datalen := 0;
          assert data[..datalen] == [];
        }
        assert p[..i + 1] == p[..i] + [p[i]];
      }
      assert p[..|p|] == p;
    }

    /** Pads, appends the length and returns the digest; the context is spent afterwards. */
    method Final() returns (out: array<bv8>)
      requires Valid()
      modifies this, data
      ensures fresh(out) && out[..] == Digest(old(message))
    {
      hide Streamed, Compress, BytesOfWords, BigEndian, HashBlocks;
      ghost var m, was, pending, bits := message, state, data[..datalen], bitlen;
      StreamedCounts(m, was, pending, bits);
      var i := datalen;
      data[i] := 0x80;
      i := i + 1;
      ghost var first: block := data[..];
      if datalen < 56 {
        ZeroFill(i, 56);
        assert data[..56] == pending + [0x80] + Zeros(55 - |pending|);
      } else {
        ZeroFill(i, 64);
        first := data[..];
        assert first == pending + [0x80] + Zeros(63 - |pending|);
        Transform();
        ZeroFill(0, 56);
        assert data[..56] == Zeros(56);
      }
      bitlen := (bitlen + datalen * 8) % UINT64;
      WriteLength();
      ghost var last: block := data[..];
      if |pending| < 56 {
        PaddedInOneBlock(m, was, pending, bits, last);
      } else {
        PaddedInTwoBlocks(m, was, pending, bits, first, last);
      }
      Transform();
      out := WriteDigest();
    }

    /** Fills data[from..to] with zeros. */
    method ZeroFill(from: nat, to: nat)
      requires from <= to <= data.Length
      modifies data
      ensures data[..] == old(data[..from]) + Zeros(to - from) + old(data[to..])
    {
      var i := from;
      while i < to
        invariant from <= i <= to
        invariant data[..] == old(data[..from]) + Zeros(i - from) + old(data[i..])
      {
        data[i] := 0x00;
        i := i + 1;
      }
    }

    /** The 64-bit length, most significant byte at data[56]. */
    method WriteLength()
      requires data.Length == 64 && bitlen < UINT64
      modifies data
      ensures data[..] == old(data[..56]) + BigEndian(bitlen, 8)
    {
      hide *;
      var n := bitlen;
      data[63] := ByteAt(n, 1);
      data[62] := ByteAt(n, 0x100);
      data[61] := ByteAt(n, 0x1_0000);
      data[60] := ByteAt(n, 0x100_0000);
      data[59] := ByteAt(n, 0x1_0000_0000);
      data[58] := ByteAt(n, 0x100_0000_0000);
      data[57] := ByteAt(n, 0x1_0000_0000_0000);
      data[56] := ByteAt(n, 0x100_0000_0000_0000);
      LengthBytes(n);
      assert data[..] == data[..56] + data[56..];
      assert data[56..] == [data[56], data[57], data[58], data[59], data[60], data[61], data[62], data[63]];
    }

    /** Byte i of word j goes to out[4 j + i]. */
    method WriteDigest() returns (out: array<bv8>)
      ensures fresh(out) && out[..] == BytesOfWords(Listed(state))
    {
      hide WordByte, BytesOfWords;
      out := new bv8[32](_ => 0);
      var words := Listed(state);
      for i := 0 to 4
        invariant forall n :: 0 <= n < 32 && n % 4 < i ==> out[n] == WordByte(words[n / 4], n % 4)
      {
        for j := 0 to 8
          invariant forall n :: 0 <= n < 32 && (n % 4 < i || (n % 4 == i && n / 4 < j)) ==>
            out[n] == WordByte(words[n / 4], n % 4)
        {
          out[j * 4 + i] := WordByte(words[j], i);
        }
      }
      forall n | 0 <= n < 32 ensures out[n] == BytesOfWords(words)[n] {
        DigestByte(words, n / 4, n % 4);
      }
    }
  }

  /** One byte of a number shifted right: the divisor is the power of two of the shift. */
  function ByteAt(n: nat, divisor: nat): bv8
    requires divisor > 0
  {
    (n / divisor % 256) as bv8
  }

  lemma LengthBytes(n: nat)
    ensures BigEndian(n, 8) ==
      [ByteAt(n, 0x100_0000_0000_0000), ByteAt(n, 0x1_0000_0000_0000), ByteAt(n, 0x100_0000_0000),
       ByteAt(n, 0x1_0000_0000), ByteAt(n, 0x100_0000), ByteAt(n, 0x1_0000), ByteAt(n, 0x100), ByteAt(n, 1)]
  {
    hide BigEndian, ByteAt;
    NestedQuotients(n);
    BigEndianStep(n, 0x100_0000_0000_0000, 1);
    BigEndianStep(n, 0x1_0000_0000_0000, 2);
    BigEndianStep(n, 0x100_0000_0000, 3);
    BigEndianStep(n, 0x1_0000_0000, 4);
    BigEndianStep(n, 0x100_0000, 5);
    BigEndianStep(n, 0x1_0000, 6);
    BigEndianStep(n, 0x100, 7);
    BigEndianStep(n, 1, 8);
    var s2 := [ByteAt(n, 0x100_0000_0000_0000), ByteAt(n, 0x1_0000_0000_0000)];
    assert BigEndian(n / 0x1_0000_0000_0000, 2) == s2;
    var s4 := s2 + [ByteAt(n, 0x100_0000_0000), ByteAt(n, 0x1_0000_0000)];
    assert BigEndian(n / 0x1_0000_0000, 4) == s4;
    var s6 := s4 + [ByteAt(n, 0x100_0000), ByteAt(n, 0x1_0000)];
    assert BigEndian(n / 0x1_0000, 6) == s6;
    assert n / 1 == n;
  }

  lemma NestedQuotients(n: nat)
    ensures n / 0x100 == n / 1 / 256
    ensures n / 0x1_0000 == n / 0x100 / 256
    ensures n / 0x100_0000 == n / 0x1_0000 / 256
    ensures n / 0x1_0000_0000 == n / 0x100_0000 / 256
    ensures n / 0x100_0000_0000 == n / 0x1_0000_0000 / 256
    ensures n / 0x1_0000_0000_0000 == n / 0x100_0000_0000 / 256
    ensures n / 0x100_0000_0000_0000 == n / 0x1_0000_0000_0000 / 256
  {
  }

  lemma BigEndianStep(n: nat, divisor: nat, size: nat)
    requires size > 0 && divisor > 0
    ensures BigEndian(n / divisor, size) == BigEndian(n / divisor / 256, size - 1) + [ByteAt(n, divisor)]
  {
  }

  lemma RoundStep(v: Words, m: block, t: nat, w: Words)
    requires t < 64 && w == Rounds(v, m, t)
    ensures var t1, t2 := Temp1(w.e, w.f, w.g, w.h, K(t), Schedule(m, t)), Temp2(w.a, w.b, w.c);
            Rounds(v, m, t + 1) == Words(Add(t1, t2), w.a, w.b, w.c, Add(w.d, t1), w.e, w.f, w.g)
  {
    hide Temp1, Temp2, K, Schedule, Add;
  }

  lemma {:induction false} DigestByte(ws: seq<word>, j: nat, k: nat)
    requires j < |ws| && k < 4
    ensures BytesOfWords(ws)[j * 4 + k] == WordByte(ws[j], k)
  {
    hide WordByte;
    if j > 0 { DigestByte(ws[1..], j - 1, k); }
  }

  /** The source adds the four terms of the schedule in the opposite order. */
  lemma Sum4Reversed(w: word, x: word, y: word, z: word)
    ensures Sum4(w, x, y, z) == Sum4(z, y, x, w)
  {
  }

  lemma ScheduleStart(m: block, t: nat)
    requires t < 16
    ensures Schedule(m, t) == BigEndianWord(m[4 * t], m[4 * t + 1], m[4 * t + 2], m[4 * t + 3])
  {
    hide BigEndianWord;
  }

  lemma ScheduleStep(m: block, t: nat)
    requires t >= 16
    ensures Schedule(m, t) == Extend(Schedule(m, t - 2), Schedule(m, t - 7), Schedule(m, t - 15), Schedule(m, t - 16))
  {
    hide Extend, SmallSigma0, SmallSigma1, BigEndianWord;
  }

  lemma RoundsStart(v: Words, m: block)
    ensures Rounds(v, m, 0) == v
  {
  }

  // ---- Streaming, and the length field ----------------------------------------

  function Flatten(chunks: seq<seq<bv8>>): seq<bv8> {
    if chunks == [] then [] else Flatten(chunks[..|chunks| - 1]) + chunks[|chunks| - 1]
  }

  /** However the message is cut into Update calls, the digest is that of the whole message. */
  method HashChunks(chunks: seq<seq<bv8>>) returns (digest: seq<bv8>)
    ensures digest == Digest(Flatten(chunks))
  {
    hide Digest;
    var c := new Context();
    for i := 0 to |chunks|
      invariant c.Valid() && fresh(c) && fresh(c.data) && c.message == Flatten(chunks[..i])
    {
      c.Update(chunks[i]);
      assert chunks[..i + 1][..i] == chunks[..i];
    }
    assert chunks[..|chunks|] == chunks;
    var out := c.Final();
    digest := out[..];
  }

  /** Below 2^61 bytes the length field does not wrap: it is the length of the message in bits. */
  lemma LengthFieldIsExact(len: nat)
    requires len < 0x2000_0000_0000_0000
    ensures Padding(len) == [0x80] + Zeros(ZeroCount(len)) + BigEndian(8 * len, 8)
  {
    assert 8 * len % UINT64 == 8 * len;
  }
}
