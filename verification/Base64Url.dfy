/**
 * The two base64url decoders of the VM boot path: the helper's bit accumulator
 * (packages/sandbox-vm-native/src/vm-helper.c) and the guest's four-at-a-time
 * decoder (packages/sandbox-vm-native/src/vm-init.c), with the encoding of
 * section 5 of RFC 4648 as the reference for both.
 */
module Base64Url {
  import opened Prelude

  const PAD: byte := '=' as int
  const MAX_DECODED_BYTES: nat := 65536
  const UINT32: nat := 0x1_0000_0000

  /** The value table both decoders carry; a byte outside the alphabet reads as 0. */
  function Tab(c: byte): (v: nat)
    ensures v < 64
  {
    if 'A' as int <= c <= 'Z' as int then c - 'A' as int
    else if 'a' as int <= c <= 'z' as int then c - 'a' as int + 26
    else if '0' as int <= c <= '9' as int then c - '0' as int + 52
    else if c == '-' as int || c == '+' as int then 62
    else if c == '_' as int || c == '/' as int then 63
    else 0
  }

  predicate InAlphabet(c: byte) {
    || 'A' as int <= c <= 'Z' as int
    || 'a' as int <= c <= 'z' as int
    || '0' as int <= c <= '9' as int
    || c in [45, 43, 95, 47]
  }

  predicate AllInAlphabet(s: seq<byte>) {
    forall i :: 0 <= i < |s| ==> InAlphabet(s[i])
  }

  // ---- Reference: RFC 4648 section 5, without padding ---------------------

  type sextet = x: int | 0 <= x < 64

  function AlphabetChar(v: sextet): (c: byte)
    ensures InAlphabet(c) && Tab(c) == v && c != PAD
  {
    if v < 26 then 'A' as int + v
    else if v < 52 then 'a' as int + v - 26
    else if v < 62 then '0' as int + v - 52
    else if v == 62 then '-' as int
    else '_' as int
  }

  /** The sextets of three octets: six bits, two and four, four and two, six. */
  function Sextet0(x: byte): sextet { x / 4 }
  function Sextet1(x: byte, y: byte): sextet { x % 4 * 16 + y / 16 }
  function Sextet2(y: byte, z: byte): sextet { y % 16 * 4 + z / 64 }
  function Sextet3(z: byte): sextet { z % 64 }

  function EncodeSextets(bytes: seq<byte>): seq<sextet> {
    if bytes == [] then []
    else if |bytes| == 1 then [Sextet0(bytes[0]), Sextet1(bytes[0], 0)]
    else if |bytes| == 2 then
      [Sextet0(bytes[0]), Sextet1(bytes[0], bytes[1]), Sextet2(bytes[1], 0)]
    else
      [Sextet0(bytes[0]), Sextet1(bytes[0], bytes[1]), Sextet2(bytes[1], bytes[2]), Sextet3(bytes[2])]
      + EncodeSextets(bytes[3..])
  }

  function Chars(v: seq<sextet>): (s: seq<byte>)
    ensures |s| == |v| && forall i :: 0 <= i < |v| ==> s[i] == AlphabetChar(v[i])
  {
    if v == [] then [] else [AlphabetChar(v[0])] + Chars(v[1..])
  }

  /** Base64url text of `bytes`, the padding characters omitted. */
  function Encode(bytes: seq<byte>): seq<byte> { Chars(EncodeSextets(bytes)) }

  /** The octets of a group: six and two bits, four and four, two and six. */
  function Octet0(a: sextet, b: sextet): byte { a * 4 + b / 16 }
  function Octet1(b: sextet, c: sextet): byte { b % 16 * 16 + c / 4 }
  function Octet2(c: sextet, d: sextet): byte { c % 4 * 64 + d }

  /** The bytes that at most four sextets carry: every complete octet, leftover bits dropped. */
  function Group(v: seq<sextet>): (b: seq<byte>)
    requires |v| <= 4
    ensures |b| == |v| * 3 / 4
  {
    if |v| < 2 then []
    else if |v| == 2 then [Octet0(v[0], v[1])]
    else if |v| == 3 then [Octet0(v[0], v[1]), Octet1(v[1], v[2])]
    else [Octet0(v[0], v[1]), Octet1(v[1], v[2]), Octet2(v[2], v[3])]
  }

  /** Groups of four from the front, then one short group. */
  function Octets(v: seq<sextet>): seq<byte> {
    if |v| < 4 then Group(v) else Group(v[..4]) + Octets(v[4..])
  }

  function Sextets(s: seq<byte>): (v: seq<sextet>)
    ensures |v| == |s|
    ensures forall i :: 0 <= i < |s| ==> v[i] == Tab(s[i])
  {
    if s == [] then [] else [Tab(s[0])] + Sextets(s[1..])
  }

  lemma {:induction false} OctetsOfWholeGroups(a: seq<sextet>, b: seq<sextet>)
    requires |a| % 4 == 0
    ensures Octets(a + b) == Octets(a) + Octets(b)
  {
    if a == [] {
      assert a + b == b;
    } else {
      assert (a + b)[..4] == a[..4] && (a + b)[4..] == a[4..] + b;
      OctetsOfWholeGroups(a[4..], b);
    }
  }

  lemma {:induction false} OctetsLength(v: seq<sextet>)
    ensures |Octets(v)| == |v| / 4 * 3 + |v| % 4 * 3 / 4
  {
    if |v| >= 4 { OctetsLength(v[4..]); }
  }

  lemma OctetsOfSextets(x: byte, y: byte, z: byte)
    ensures Octet0(Sextet0(x), Sextet1(x, y)) == x
    ensures Octet1(Sextet1(x, y), Sextet2(y, z)) == y
    ensures Octet2(Sextet2(y, z), Sextet3(z)) == z
  {
  }

  /** Section 5 of RFC 4648 is inverted by reading groups of four sextets. */
  lemma {:induction false} OctetsInvertEncode(bytes: seq<byte>)
    ensures Octets(EncodeSextets(bytes)) == bytes
  {
    hide Octet0, Octet1, Octet2, Sextet0, Sextet1, Sextet2, Sextet3;
    if |bytes| == 0 {
    } else if |bytes| == 1 {
      OctetsOfSextets(bytes[0], 0, 0);
    } else if |bytes| == 2 {
      OctetsOfSextets(bytes[0], bytes[1], 0);
    } else {
      OctetsOfSextets(bytes[0], bytes[1], bytes[2]);
      var v := EncodeSextets(bytes);
      assert Group(v[..4]) == bytes[..3];
      OctetsInvertEncode(bytes[3..]);
    }
  }

  lemma EncodedText(bytes: seq<byte>)
    ensures Sextets(Encode(bytes)) == EncodeSextets(bytes)
    ensures AllInAlphabet(Encode(bytes)) && PAD !in Encode(bytes)
  {
    hide Sextet0, Sextet1, Sextet2, Sextet3, AlphabetChar, Tab, InAlphabet;
    var v := EncodeSextets(bytes);
    assert forall i :: 0 <= i < |v| ==> AlphabetChar(v[i]) == Encode(bytes)[i];
  }

  // ---- The helper's bit accumulator ----------------------------------------

  lemma EncodedIsNotEmpty(bytes: seq<byte>)
    requires bytes != []
    ensures Encode(bytes) != []
  {
    hide Sextet0, Sextet1, Sextet2, Sextet3, AlphabetChar;
  }

  /** What the accumulator decoder promises: None is the source's `die`. */
  function Accumulated(input: seq<byte>): Option<seq<byte>> {
    var body := StripTrailing(input, PAD);
    if |input| - |body| > 2 || !AllInAlphabet(body) then None
    else Some(Octets(Sextets(body)))
  }

  /** Bits held back by the accumulator after `n` sextets. */
  function PendingBits(n: nat): nat {
    match n % 4 case 0 => 0 case 1 => 6 case 2 => 4 case _ => 2
  }

  /** The pending bits are the low bits of the last sextet read. */
  predicate HoldsBack(acc: nat, n: nat, last: sextet) {
    match n % 4
    case 0 => true
    case 1 => acc % 64 == last
    case 2 => acc % 16 == last % 16
    case _ => acc % 4 == last % 4
  }

  lemma ShiftedOutAfterTwo(m: nat, a: sextet, v: sextet)
    requires m % 64 == a
    ensures (m * 64 + v) / 16 % 256 == Octet0(a, v)
  {
    var q := m / 64;
    assert m * 64 + v == 16 * (256 * q + 4 * a) + v;
    assert (m * 64 + v) / 16 == 256 * q + (4 * a + v / 16);
    assert 0 <= 4 * a + v / 16 < 256;
  }

  lemma ShiftedOutAfterThree(m: nat, a: sextet, v: sextet)
    requires m % 16 == a % 16
    ensures (m * 64 + v) / 4 % 256 == Octet1(a, v)
  {
    var q, r := m / 16, a % 16;
    assert m == 16 * q + r;
    QuotientByFour(256 * q + 16 * r, v);
    assert 0 <= 16 * r + v / 4 < 256;
  }

  lemma QuotientByFour(x: nat, v: nat)
    ensures (4 * x + v) / 4 == x + v / 4
  {
  }

  lemma ShiftedOutAfterFour(m: nat, a: sextet, v: sextet)
    requires m % 4 == a % 4
    ensures (m * 64 + v) % 256 == Octet2(a, v)
  {
    var q, r := m / 4, a % 4;
    assert m * 64 + v == 256 * q + (64 * r + v);
    assert 0 <= 64 * r + v < 256;
  }

  lemma WrapKeepsLowBits(acc: nat)
    requires acc < UINT32
    ensures acc * 64 % UINT32 == acc % 0x400_0000 * 64
    ensures var m := acc % 0x400_0000; m % 64 == acc % 64 && m % 16 == acc % 16 && m % 4 == acc % 4
  {
    var q, m := acc / 0x400_0000, acc % 0x400_0000;
    assert acc * 64 == UINT32 * q + m * 64;
    assert m * 64 < UINT32;
    LowBits(0x10_0000 * q, m);
    assert acc == 0x10_0000 * q * 64 + m;
  }

  lemma LowBits(x: nat, y: nat)
    ensures (x * 64 + y) % 64 == y % 64 && (x * 64 + y) % 16 == y % 16 && (x * 64 + y) % 4 == y % 4
  {
    var t, by16, by4 := x * 64 + y, 4 * x, 16 * x;
    MultipleOf64(x, y, t);
    MultipleOf16(by16, y, t);
    MultipleOf4(by4, y, t);
  }

  lemma MultipleOf64(q: nat, y: nat, t: nat)
    requires t == 64 * q + y
    ensures t % 64 == y % 64
  {
  }

  lemma MultipleOf16(q: nat, y: nat, t: nat)
    requires t == 16 * q + y
    ensures t % 16 == y % 16
  {
  }

  lemma MultipleOf4(q: nat, y: nat, t: nat)
    requires t == 4 * q + y
    ensures t % 4 == y % 4
  {
  }

  /** One more sextet after a prefix of any length: an octet is completed unless a group starts. */
  lemma OctetsOfOneMore(v: seq<sextet>, n: nat)
    requires n < |v|
    ensures n % 4 == 0 ==> Octets(v[..n + 1]) == Octets(v[..n])
    ensures n % 4 == 1 ==> Octets(v[..n + 1]) == Octets(v[..n]) + [Octet0(v[n - 1], v[n])]
    ensures n % 4 == 2 ==> Octets(v[..n + 1]) == Octets(v[..n]) + [Octet1(v[n - 1], v[n])]
    ensures n % 4 == 3 ==> Octets(v[..n + 1]) == Octets(v[..n]) + [Octet2(v[n - 1], v[n])]
  {
    hide Octet0, Octet1, Octet2, Octets;
    var whole := n - n % 4;
    assert v[..n] == v[..whole] + v[whole..n];
    assert v[..n + 1] == v[..whole] + v[whole..n + 1];
    OctetsOfWholeGroups(v[..whole], v[whole..n]);
    OctetsOfWholeGroups(v[..whole], v[whole..n + 1]);
    OctetsOfShort(v[whole..n]);
    OctetsOfShort(v[whole..n + 1]);
  }

  lemma OctetsOfShort(v: seq<sextet>)
    requires |v| <= 4
    ensures Octets(v) == Group(v)
  {
    if |v| == 4 {
      assert v[..4] == v && Octets(v[4..]) == [];
    }
  }

  /** The accumulator after one more sextet, and the octet shifted out of it when one is complete. */
  function ShiftIn(acc: nat, v: sextet): nat { acc * 64 % UINT32 + v }
  function ShiftOut(acc: nat, bits: nat): byte { acc / Pow2(bits) % 256 }

  lemma ShiftInKeepsPendingBits(acc: nat, n: nat, a: sextet, v: sextet)
    requires acc < UINT32 && HoldsBack(acc, n, a)
    ensures var acc' := ShiftIn(acc, v);
            && acc' < UINT32
            && HoldsBack(acc', n + 1, v)
            && (n % 4 == 1 ==> ShiftOut(acc', 4) == Octet0(a, v))
            && (n % 4 == 2 ==> ShiftOut(acc', 2) == Octet1(a, v))
            && (n % 4 == 3 ==> ShiftOut(acc', 0) == Octet2(a, v))
  {
    hide Octet0, Octet1, Octet2;
    var m := acc % 0x400_0000;
    WrapKeepsLowBits(acc);
    LowBits(m, v);
    assert Pow2(4) == 16 && Pow2(2) == 4;
    if n % 4 == 1 {
      ShiftedOutAfterTwo(m, a, v);
    } else if n % 4 == 2 {
      ShiftedOutAfterThree(m, a, v);
    } else if n % 4 == 3 {
      ShiftedOutAfterFour(m, a, v);
    }
  }

  lemma NothingHeldBack(acc: nat, last: sextet)
    ensures HoldsBack(acc, 0, last)
  {
  }

  /** The last sextet of the first `n`; any value will do before the first. */
  function Last(v: seq<sextet>, n: nat): sextet
    requires n <= |v|
  {
    if n == 0 then 0 else v[n - 1]
  }

  lemma AccumulatorStep(v: seq<sextet>, n: nat, acc: nat, bits: nat)
    requires n < |v| && acc < UINT32 && bits == PendingBits(n)
    requires HoldsBack(acc, n, Last(v, n))
    ensures var acc' := ShiftIn(acc, v[n]);
            && acc' < UINT32
            && HoldsBack(acc', n + 1, Last(v, n + 1))
            && PendingBits(n + 1) == (if bits + 6 >= 8 then bits - 2 else bits + 6)
            && Octets(v[..n + 1])
               == Octets(v[..n]) + (if bits + 6 >= 8 then [ShiftOut(acc', bits - 2)] else [])
            && |Octets(v[..n + 1])| <= |v| / 4 * 3 + 3
  {
    hide ShiftIn, ShiftOut, Octet0, Octet1, Octet2, Octets, HoldsBack;
    OctetsLength(v[..n + 1]);
    ShiftInKeepsPendingBits(acc, n, Last(v, n), v[n]);
    OctetsOfOneMore(v, n);
  }

  method DecodeAccumulating(input: seq<byte>) returns (r: Option<seq<byte>>)
    ensures r == Accumulated(input)
  {
    var inLen, pad := |input|, 0;
    while inLen > 0 && input[inLen - 1] == PAD
      invariant 0 <= inLen <= |input| && pad == |input| - inLen
      invariant StripTrailing(input[..inLen], PAD) == StripTrailing(input, PAD)
    {
      assert input[..inLen][..inLen - 1] == input[..inLen - 1];
      inLen, pad := inLen - 1, pad + 1;
    }
    if pad > 2 { return None; }
    r := Accumulate(input[..inLen]);
  }

  /** The decoding loop of the accumulator, into a buffer of the source's size. */
  method Accumulate(input: seq<byte>) returns (r: Option<seq<byte>>)
    ensures r == if AllInAlphabet(input) then Some(Octets(Sextets(input))) else None
  {
    hide ShiftIn, ShiftOut, HoldsBack, Octets, InAlphabet, Tab;
    ghost var v := Sextets(input);
    var cap := |input| / 4 * 3 + 3;
    var out := new byte[cap];
    var o, acc, bits := 0, 0, 0;
    ghost var done := [];
    OctetsOfShort(v[..0]);
    assert HoldsBack(acc, 0, Last(v, 0)) by { NothingHeldBack(acc, 0); }
    var i := 0;
    while i < |input|
      invariant 0 <= i <= |input| && AllInAlphabet(input[..i])
      invariant done == Octets(v[..i])
      invariant 0 <= o <= cap && out[..o] == done
      invariant 0 <= acc < UINT32 && bits == PendingBits(i)
      invariant HoldsBack(acc, i, Last(v, i))
    {
      var c := input[i];
      if !InAlphabet(c) { return None; }
      AccumulatorStep(v, i, acc, bits);
      acc := ShiftIn(acc, Tab(c));
      bits := bits + 6;
      if bits >= 8 {
        bits := bits - 8;
        done := done + [ShiftOut(acc, bits)];
        out[o] := ShiftOut(acc, bits);
        o := o + 1;
      }
      i := i + 1;
    }
    assert v[..i] == v && input[..i] == input;
    return Some(out[..o]);
  }

  // ---- The guest's four-at-a-time decoder ----------------------------------

  /** The characters the next group takes: at most four, none of them '='. */
  function NextGroup(s: seq<byte>, room: nat): (g: seq<byte>)
    ensures g <= s && |g| <= room && PAD !in g
    ensures |g| < room && |g| < |s| ==> s[|g|] == PAD
  {
    if room == 0 || s == [] || s[0] == PAD then [] else [s[0]] + NextGroup(s[1..], room - 1)
  }

  /** How many characters the next group consumes: a '=' that cuts it short is consumed as well. */
  function Consumed(s: seq<byte>): (n: nat)
    ensures s != [] ==> 0 < n <= |s|
  {
    var g := NextGroup(s, 4);
    if |g| < 4 && |g| < |s| then |g| + 1 else |g|
  }

  lemma NextGroupConsumed(s: seq<byte>)
    ensures var g := NextGroup(s, 4);
            Consumed(s) == if |g| < 4 && |g| < |s| then |g| + 1 else |g|
  {
  }

  function QuadText(s: seq<byte>): Option<seq<byte>> {
    if s == [] then Some([])
    else
      var g := NextGroup(s, 4);
      if !AllInAlphabet(g) then None
      else
        var rest := QuadText(s[Consumed(s)..]);
        if rest.None? then None else Some(Group(Sextets(g)) + rest.value)
  }

  /** What the guest's decoder promises: None is the source's NULL, also given for empty input. */
  function Quads(input: seq<byte>): Option<seq<byte>> {
    if input == [] || |input| > MAX_DECODED_BYTES * 2 then None
    else QuadText(StripTrailing(input, PAD))
  }

  /** A shifted sextet and the top bits of the next one, or-ed (they do not overlap) and cut to eight bits. */
  function Merge(hi: nat, lo: nat): byte { (hi + lo) % 256 }

  lemma MergedFirst(a: nat, b: nat)
    requires a < 64 && b < 64
    ensures Merge(a * 4, b / 16) == a * 4 + b / 16
  {
  }

  lemma MergedSecond(b: nat, c: nat)
    requires b < 64 && c < 64
    ensures Merge(b * 16, c / 4) == b % 16 * 16 + c / 4
  {
    var q, r, low := b / 16, b % 16, c / 4;
    Modulo256(q, r * 16 + low, b * 16 + low);
  }

  lemma MergedThird(c: nat, d: nat)
    requires c < 64 && d < 64
    ensures Merge(c * 64, d) == c % 4 * 64 + d
  {
    var q, r := c / 4, c % 4;
    Modulo256(q, r * 64 + d, c * 64 + d);
  }

  lemma Modulo256(q: nat, rest: nat, t: nat)
    requires rest < 256 && t == 256 * q + rest
    ensures t % 256 == rest
  {
  }

  lemma MergedOctets(a: sextet, b: sextet, c: sextet, d: sextet)
    ensures Merge(a * 4, b / 16) == Octet0(a, b)
    ensures Merge(b * 16, c / 4) == Octet1(b, c)
    ensures Merge(c * 64, d) == Octet2(c, d)
  {
    hide Merge;
    var w: nat, x: nat, y: nat, z: nat := a, b, c, d;
    MergedFirst(w, x);
    MergedSecond(x, y);
    MergedThird(y, z);
  }

  lemma ZeroOutsideAlphabet(c: byte)
    ensures Tab(c) == 0 && c != 'A' as int <==> !InAlphabet(c)
  {
  }

  method DecodeQuads(input: seq<byte>) returns (r: Option<seq<byte>>)
    ensures r == Quads(input)
  {
    var inLen := |input|;
    if inLen == 0 { return None; }
    if inLen > MAX_DECODED_BYTES * 2 { return None; }
    while inLen > 0 && input[inLen - 1] == PAD
      invariant 0 <= inLen <= |input|
      invariant StripTrailing(input[..inLen], PAD) == StripTrailing(input, PAD)
    {
      assert input[..inLen][..inLen - 1] == input[..inLen - 1];
      inLen := inLen - 1;
    }
    r := DecodeGroups(input[..inLen]);
  }

  /** `done` is what the groups before position `i` contribute. */
  ghost predicate DecodedTo(input: seq<byte>, i: nat, done: seq<byte>)
    requires i <= |input|
  {
    var all, rest := QuadText(input), QuadText(input[i..]);
    all.None? == rest.None? && (all.Some? ==> all.value == done + rest.value)
  }

  lemma QuadTextStep(s: seq<byte>)
    requires s != []
    ensures var g := NextGroup(s, 4);
            if !AllInAlphabet(g) then QuadText(s) == None
            else
              var rest := QuadText(s[Consumed(s)..]);
              QuadText(s) == if rest.None? then None else Some(Group(Sextets(g)) + rest.value)
  {
  }

  lemma DecodedOneGroup(input: seq<byte>, i: nat, done: seq<byte>)
    requires i < |input| && DecodedTo(input, i, done)
    ensures var rest := input[i..];
            var g := NextGroup(rest, 4);
            if AllInAlphabet(g) then DecodedTo(input, i + Consumed(rest), done + Group(Sextets(g)))
            else QuadText(input).None?
  {
    hide QuadText, Group, Sextets, AllInAlphabet, NextGroup, Consumed;
    var rest := input[i..];
    QuadTextStep(rest);
    var tail := rest[Consumed(rest)..];
    assert tail == input[i + Consumed(rest)..];
    var octets := Group(Sextets(NextGroup(rest, 4)));
    if QuadText(tail).Some? {
      assert done + (octets + QuadText(tail).value) == done + octets + QuadText(tail).value;
    }
  }

  lemma DecodedAll(input: seq<byte>, done: seq<byte>)
    ensures DecodedTo(input, 0, [])
    ensures DecodedTo(input, |input|, done) ==> QuadText(input) == Some(done)
  {
    assert input[0..] == input && input[|input|..] == [] && done + [] == done;
    var all := QuadText(input);
    assert all.Some? ==> [] + all.value == all.value;
  }

  /** The decoding loop of the guest, into a buffer of the source's size. */
  method DecodeGroups(input: seq<byte>) returns (r: Option<seq<byte>>)
    ensures r == QuadText(input)
  {
    hide Octet0, Octet1, Octet2, InAlphabet, Tab, NextGroup, Consumed, QuadText, DecodedTo;
    var cap := |input| / 4 * 3 + 3;
    var out := new byte[cap];
    var o, i := 0, 0;
    ghost var done := [];
    DecodedAll(input, done);
    while i < |input|
      invariant 0 <= i <= |input| && DecodedTo(input, i, done)
      invariant 0 <= o && o * 4 <= i * 3 && out[..o] == done
    {
      DecodedOneGroup(input, i, done);
      var got, v, i' := ReadGroup(input, i);
      if got < 0 { return None; }
      done := done + Group(v[..got]);
      RoomForGroup(|input|, i, i', o, got);
      o := WriteOctets(out, o, v, got);
      i := i';
    }
    DecodedAll(input, done);
    return Some(out[..o]);
  }

  lemma RoomForGroup(n: nat, i: nat, i': nat, o: nat, got: nat)
    requires o * 4 <= i * 3 && got <= 4 && i + got <= i' <= n
    ensures o + got * 3 / 4 <= n / 4 * 3 + 3 && (o + got * 3 / 4) * 4 <= i' * 3
  {
  }

  /** The octets of one group, appended to the first `o` bytes of the buffer. */
  method WriteOctets(out: array<byte>, o: nat, v: array<sextet>, got: nat) returns (o': nat)
    requires got <= v.Length == 4 && o + got * 3 / 4 <= out.Length
    modifies out
    ensures o' == o + got * 3 / 4 && out[..o'] == old(out[..o]) + Group(v[..got])
  {
    hide Octet0, Octet1, Octet2, Merge;
    var a: nat, b: nat, c: nat, d: nat := v[0], v[1], v[2], v[3];
    MergedOctets(a, b, c, d);
    o' := o;
    if got >= 2 { out[o'] := Merge(a * 4, b / 16); o' := o' + 1; }
    if got >= 3 { out[o'] := Merge(b * 16, c / 4); o' := o' + 1; }
    if got >= 4 { out[o'] := Merge(c * 64, d); o' := o' + 1; }
  }

  lemma NextGroupStep(s: seq<byte>, room: nat)
    ensures s == [] || s[0] == PAD || room == 0 ==> NextGroup(s, room) == []
    ensures s != [] && s[0] != PAD && room > 0 ==> NextGroup(s, room) == [s[0]] + NextGroup(s[1..], room - 1)
  {
  }

  lemma AlphabetOfConcat(a: seq<byte>, b: seq<byte>)
    ensures AllInAlphabet(a + b) <==> AllInAlphabet(a) && AllInAlphabet(b)
  {
    hide InAlphabet;
    assert forall i :: 0 <= i < |a| ==> (a + b)[i] == a[i];
    assert forall i :: 0 <= i < |b| ==> (a + b)[|a| + i] == b[i];
  }

  lemma AlphabetOfOne(c: byte)
    ensures AllInAlphabet([c]) <==> InAlphabet(c)
  {
    hide InAlphabet;
    assert [c][0] == c;
  }

  /** After `|read|` characters of a group, what the group still takes starts at position `i`. */
  ghost predicate GroupRead(input: seq<byte>, start: nat, read: seq<byte>, i: nat)
    requires start <= |input| && i <= |input| && |read| <= 4
  {
    && NextGroup(input[start..], 4) == read + NextGroup(input[i..], 4 - |read|)
    && AllInAlphabet(read)
  }

  lemma GroupReadStep(input: seq<byte>, start: nat, read: seq<byte>, i: nat)
    requires start <= |input| && i <= |input| && |read| <= 4 && GroupRead(input, start, read, i)
    ensures var g := NextGroup(input[start..], 4);
            if |read| == 4 || i == |input| || input[i] == PAD then g == read && AllInAlphabet(g)
            else if InAlphabet(input[i]) then GroupRead(input, start, read + [input[i]], i + 1)
            else !AllInAlphabet(g)
  {
    hide InAlphabet, NextGroup, AllInAlphabet;
    NextGroupStep(input[i..], 4 - |read|);
    if |read| < 4 && i < |input| && input[i] != PAD {
      var c, rest := input[i], NextGroup(input[i + 1..], 3 - |read|);
      assert input[i..][1..] == input[i + 1..];
      assert read + ([c] + rest) == read + [c] + rest;
      AlphabetOfOne(c);
      AlphabetOfConcat(read, [c]);
      AlphabetOfConcat(read + [c], rest);
    }
  }

  lemma GroupReadStart(input: seq<byte>, start: nat)
    requires start <= |input|
    ensures GroupRead(input, start, [], start)
  {
    assert [] + NextGroup(input[start..], 4) == NextGroup(input[start..], 4);
  }

  /** The inner loop: up to four characters, stopping after a '='; got is -1 for an invalid byte. */
  method ReadGroup(input: seq<byte>, start: nat) returns (got: int, v: array<sextet>, i: nat)
    requires start < |input|
    ensures fresh(v) && v.Length == 4
    ensures var g := NextGroup(input[start..], 4);
            if AllInAlphabet(g) then
              got == |g| <= i - start && v[..got] == Sextets(g) && i == start + Consumed(input[start..])
            else got == -1
  {
    hide Tab, InAlphabet, AllInAlphabet, Consumed, NextGroup, GroupRead;
    NextGroupConsumed(input[start..]);
    v := new sextet[4](_ => 0);
    got, i := 0, start;
    ghost var read := [];
    GroupReadStart(input, start);
    while got < 4 && i < |input|
      invariant 0 <= got == |read| <= 4 && i == start + got <= |input|
      invariant GroupRead(input, start, read, i)
      invariant forall j :: 0 <= j < got ==> v[j] == Tab(read[j])
    {
      GroupReadStep(input, start, read, i);
      var c := input[i];
      i := i + 1;
      if c == PAD { break; }
      var a := Tab(c);
      ZeroOutsideAlphabet(c);
      if a == 0 && c != 'A' as int { return -1, v, i; }
      v[got] := a;
      read := read + [c];
      got := got + 1;
    }
    GroupReadStep(input, start, read, start + got);
  }

  // ---- Agreement -----------------------------------------------------------

  lemma {:induction false} NextGroupWithoutPadding(s: seq<byte>, room: nat)
    requires PAD !in s
    ensures NextGroup(s, room) == if |s| < room then s else s[..room]
  {
    if room != 0 && s != [] { NextGroupWithoutPadding(s[1..], room - 1); }
  }

  /** Without '=', groups of four read text as the reference does. */
  lemma {:induction false} QuadTextWithoutPadding(s: seq<byte>)
    requires PAD !in s
    ensures QuadText(s) == if AllInAlphabet(s) then Some(Octets(Sextets(s))) else None
  {
    hide Octet0, Octet1, Octet2, InAlphabet, Tab, NextGroup;
    NextGroupWithoutPadding(s, 4);
    if |s| < 4 {
      OctetsOfShort(Sextets(s));
      assert s[|s|..] == [] && Group(Sextets(s)) + [] == Group(Sextets(s));
    } else {
      QuadTextWithoutPadding(s[4..]);
      assert s == s[..4] + s[4..];
      assert Sextets(s)[..4] == Sextets(s[..4]) && Sextets(s)[4..] == Sextets(s[4..]);
      assert AllInAlphabet(s) == (AllInAlphabet(s[..4]) && AllInAlphabet(s[4..])) by {
        assert forall i :: 0 <= i < 4 ==> s[..4][i] == s[i];
        assert forall i :: 4 <= i < |s| ==> s[4..][i - 4] == s[i];
      }
    }
  }

  /** A character that is neither of the alphabet nor '='. */
  predicate HasForeign(s: seq<byte>) { exists i :: 0 <= i < |s| && s[i] != PAD && !InAlphabet(s[i]) }

  /** Text and at most two '=' after it. */
  predicate IsOrdinary(input: seq<byte>) {
    var body := StripTrailing(input, PAD);
    PAD !in body && |input| - |body| <= 2
  }

  /** The guest refuses a text exactly for a foreign character, wherever it keeps its '='. */
  lemma {:induction false} QuadTextRefuses(s: seq<byte>)
    ensures QuadText(s) == None <==> HasForeign(s)
  {
    hide Group, Sextets, InAlphabet, NextGroup;
    if s != [] {
      var g, n := NextGroup(s, 4), Consumed(s);
      QuadTextRefuses(s[n..]);
      assert forall i :: n <= i < |s| ==> s[i] == s[n..][i - n];
      assert forall i :: 0 <= i < |g| ==> s[i] == g[i];
      assert forall i :: 0 <= i < n ==> i < |g| || s[i] == PAD;
    }
  }

  /** The '=' that are stripped are not foreign. */
  lemma ForeignOfBody(input: seq<byte>)
    ensures HasForeign(StripTrailing(input, PAD)) <==> HasForeign(input)
  {
    hide InAlphabet, StripTrailing;
    var body := StripTrailing(input, PAD);
    assert forall i :: 0 <= i < |body| ==> body[i] == input[i];
  }

  /** The helper dies on every text that is not ordinary or has a foreign character. */
  lemma AccumulatedRefuses(input: seq<byte>)
    ensures Accumulated(input) == None <==> !IsOrdinary(input) || HasForeign(input)
  {
    ForeignOfBody(input);
    hide Octets, Sextets, InAlphabet, StripTrailing;
    if PAD in StripTrailing(input, PAD) { PaddingIsNotText(); }
  }

  /**
   * On what inputs the two decoders give the same answer: within the guest's bound exactly on
   * ordinary text and on what both refuse for a foreign character, beyond it exactly on what the
   * helper refuses too, and never on the empty input, which only the guest refuses.
   */
  lemma DecodersAgree(input: seq<byte>)
    ensures Accumulated(input) == Quads(input) <==>
      if |input| <= MAX_DECODED_BYTES * 2 then input != [] && (IsOrdinary(input) || HasForeign(input))
      else !IsOrdinary(input) || HasForeign(input)
  {
    var body := StripTrailing(input, PAD);
    AccumulatedRefuses(input);
    ForeignOfBody(input);
    QuadTextRefuses(body);
    if IsOrdinary(input) { QuadTextWithoutPadding(body); }
    hide Octets, Sextets, QuadText, InAlphabet, StripTrailing, HasForeign;
  }

  lemma PaddingIsNotText()
    ensures !InAlphabet(PAD)
  {
  }

  lemma TabOfQ()
    ensures InAlphabet(81) && Tab(81) == 16
  {
  }

  /** Inputs on which they do differ: three '=' at the end, or one inside the text. */
  lemma DecodersDiffer()
    ensures Accumulated([81, 81, PAD, PAD, PAD]) == None && Quads([81, 81, PAD, PAD, PAD]) == Some([65])
    ensures Accumulated([81, 81, PAD, 81, 81]) == None && Quads([81, 81, PAD, 81, 81]) == Some([65, 65])
  {
    hide InAlphabet, Tab;
    PaddingIsNotText();
    var text: seq<byte> := [81, 81];
    assert AllInAlphabet(text) && Tab(81) == 16 by { TabOfQ(); }
    NextGroupWithoutPadding(text, 4);
    QuadTextWithoutPadding(text);
    assert Octets(Sextets(text)) == [65];

    var padding: seq<byte> := [PAD, PAD, PAD];
    StripAfterText(text, padding);
    assert text + padding == [81, 81, PAD, PAD, PAD];

    var inside: seq<byte> := [81, 81, PAD, 81, 81];
    assert StripTrailing(inside, PAD) == inside && inside[2] == PAD;
    assert inside[1..] == [81, PAD, 81, 81] && inside[1..][1..] == [PAD, 81, 81];
    assert NextGroup(inside, 4) == text && inside[3..] == text;
    OctetsOfShort(Sextets(text));
    assert [65] + [65] == [65 as byte, 65];
  }

  lemma {:induction false} StripAfterText(text: seq<byte>, padding: seq<byte>)
    requires PAD !in text && forall i :: 0 <= i < |padding| ==> padding[i] == PAD
    ensures StripTrailing(text + padding, PAD) == text
  {
    if padding == [] {
      assert text + padding == text;
    } else {
      assert (text + padding)[..|text + padding| - 1] == text + padding[..|padding| - 1];
      StripAfterText(text, padding[..|padding| - 1]);
    }
  }

  /** Both decoders invert section 5 of RFC 4648, with or without its padding. */
  lemma BothInvertEncode(bytes: seq<byte>, padding: seq<byte>)
    requires |padding| <= 2 && forall i :: 0 <= i < |padding| ==> padding[i] == PAD
    ensures Accumulated(Encode(bytes) + padding) == Some(bytes)
    ensures 0 < |Encode(bytes) + padding| <= MAX_DECODED_BYTES * 2 ==> Quads(Encode(bytes) + padding) == Some(bytes)
  {
    hide Encode, QuadText, Octets, EncodeSextets;
    var text := Encode(bytes);
    EncodedText(bytes);
    StripAfterText(text, padding);
    QuadTextWithoutPadding(text);
    OctetsInvertEncode(bytes);
  }
}
