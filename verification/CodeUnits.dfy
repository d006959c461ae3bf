/**
 * Two orders on texts: strcmp on their UTF-8 bytes, which the image builder sorts by, and the
 * code-unit order of ECMAScript strings. They differ only where a character beyond the sixteen-bit
 * range meets one from U+E000 on, as its first unit is a surrogate below them.
 */
module CodeUnits {
  import opened Prelude
  import opened Sorting
  import Utf8

  /** The UTF-16 units of a character, high byte first, so that comparing bytes compares units. */
  function UnitBytes(c: char): (s: seq<byte>)
    ensures s != []
  {
    var v := c as int;
    if v < 0x1_0000 then [v / 0x100, v % 0x100]
    else
      var w := v - 0x1_0000;
      [0xD8 + w / 0x4_0000, w / 0x400 % 0x100, 0xDC + w / 0x100 % 4, w % 0x100]
  }

  function Units(t: string): seq<byte> {
    if t == "" then [] else UnitBytes(t[0]) + Units(t[1..])
  }

  predicate IsAstral(c: char) { c as int >= 0x1_0000 }
  predicate IsHigh(c: char) { 0xE000 <= c as int < 0x1_0000 }

  /** The place of a character in the code-unit order. */
  function Rank(c: char): nat {
    var v := c as int;
    if IsAstral(c) then v - 0x1_0000 + 0xD800 else if IsHigh(c) then v + 0x10_0000 else v
  }

  // ---- One character -----------------------------------------------------------------------------

  lemma {:induction false} DifferAt(a: seq<byte>, b: seq<byte>, i: nat)
    requires i < |a| && i < |b| && a[..i] == b[..i] && a[i] < b[i]
    ensures StrCmp(a, b) < 0
  {
    var p := a[..i];
    assert a == p + a[i..] && b == p + b[i..];
    SamePrefix(p, a[i..], b[i..]);
  }

  /** Digits to the base 64: the first difference decides. */
  lemma Digits64(v: nat, w: nat)
    requires v < w < 0x11_0000
    ensures v / 0x4_0000 < w / 0x4_0000
      || (v / 0x4_0000 == w / 0x4_0000 && (v / 0x1000 % 0x40 < w / 0x1000 % 0x40
          || (v / 0x1000 == w / 0x1000 && (v / 0x40 % 0x40 < w / 0x40 % 0x40
              || (v / 0x40 == w / 0x40 && v % 0x40 < w % 0x40)))))
  {
    Utf8.Quotients(v);
    Utf8.Quotients(w);
  }

  lemma FourEncoded(c: char, d: char) returns (i: nat)
    requires 0x1_0000 <= c as int < d as int
    ensures var a, b := Utf8.EncodeChar(c), Utf8.EncodeChar(d);
      i < |a| && i < |b| && a[..i] == b[..i] && a[i] < b[i]
  {
    var v, w := c as int, d as int;
    Digits64(v, w);
    i := if v / 0x4_0000 < w / 0x4_0000 then 0 else if v / 0x1000 < w / 0x1000 then 1 else if v / 0x40 < w / 0x40
      then 2 else 3;
  }

  lemma ThreeEncoded(c: char, d: char) returns (i: nat)
    requires 0x800 <= c as int < d as int < 0x1_0000
    ensures var a, b := Utf8.EncodeChar(c), Utf8.EncodeChar(d);
      i < |a| && i < |b| && a[..i] == b[..i] && a[i] < b[i]
  {
    var v, w := c as int, d as int;
    Digits64(v, w);
    Utf8.Quotients(v);
    Utf8.Quotients(w);
    i := if v / 0x1000 < w / 0x1000 then 0 else if v / 0x40 < w / 0x40 then 1 else 2;
  }

  lemma FewEncoded(c: char, d: char) returns (i: nat)
    requires c as int < d as int < 0x800
    ensures var a, b := Utf8.EncodeChar(c), Utf8.EncodeChar(d);
      i < |a| && i < |b| && a[..i] == b[..i] && a[i] < b[i]
  {
    var v, w := c as int, d as int;
    i := if v < 0x80 || v / 0x40 < w / 0x40 then 0 else 1;
  }

  /** More bytes begin with a larger first byte. */
  lemma MoreEncoded(c: char, d: char)
    requires c < d && |Utf8.EncodeChar(c)| < |Utf8.EncodeChar(d)|
    ensures Utf8.EncodeChar(c)[0] < Utf8.EncodeChar(d)[0]
  {
    Utf8.Quotients(c as int);
    Utf8.Quotients(d as int);
  }

  /** The encoding keeps the order of the characters. */
  lemma EncodedOrder(c: char, d: char, x: seq<byte>, y: seq<byte>)
    requires c < d
    ensures StrCmp(Utf8.EncodeChar(c) + x, Utf8.EncodeChar(d) + y) < 0
  {
    var v, w := c as int, d as int;
    var i := 0;
    if v >= 0x1_0000 { i := FourEncoded(c, d); }
    else if 0x800 <= v && w < 0x1_0000 { i := ThreeEncoded(c, d); }
    else if w < 0x800 { i := FewEncoded(c, d); }
    else { MoreEncoded(c, d); }
    var a, b := Utf8.EncodeChar(c), Utf8.EncodeChar(d);
    hide Utf8.EncodeChar;
    assert (a + x)[..i] == a[..i] && (b + y)[..i] == b[..i];
    DifferAt(a + x, b + y, i);
  }

  // ---- Sixteen-bit units ---------------------------------------------------------------------------

  lemma Digits16(v: nat)
    requires v < 0x10_0000
    ensures v == v / 0x100 * 0x100 + v % 0x100
    ensures v / 0x100 == v / 0x400 * 4 + v / 0x100 % 4
    ensures v / 0x400 == v / 0x4_0000 * 0x100 + v / 0x400 % 0x100
  {
  }

  lemma AstralOrder(c: char, d: char) returns (i: nat)
    requires IsAstral(c) && c < d
    ensures var a, b := UnitBytes(c), UnitBytes(d);
      i < |a| && i < |b| && a[..i] == b[..i] && a[i] < b[i]
  {
    var v, w := c as int - 0x1_0000, d as int - 0x1_0000;
    Digits16(v);
    Digits16(w);
    i := if v / 0x4_0000 < w / 0x4_0000 then 0 else if v / 0x400 % 0x100 < w / 0x400 % 0x100 then 1
         else if v / 0x100 % 4 < w / 0x100 % 4 then 2 else 3;
  }

  /** The units keep the order of the ranks. */
  lemma UnitOrder(c: char, d: char, x: seq<byte>, y: seq<byte>)
    requires Rank(c) < Rank(d)
    ensures StrCmp(UnitBytes(c) + x, UnitBytes(d) + y) < 0
  {
    var i := 0;
    if IsAstral(c) && IsAstral(d) { i := AstralOrder(c, d); }
    else if !IsAstral(c) && !IsAstral(d) && c as int / 0x100 == d as int / 0x100 { i := 1; }
    var a, b := UnitBytes(c), UnitBytes(d);
    hide UnitBytes;
    assert (a + x)[..i] == a[..i] && (b + y)[..i] == b[..i];
    DifferAt(a + x, b + y, i);
  }

  lemma RankIsInjective(c: char, d: char)
    requires c != d
    ensures Rank(c) != Rank(d)
    ensures (c < d <==> Rank(c) < Rank(d)) <==> !((IsAstral(c) && IsHigh(d)) || (IsHigh(c) && IsAstral(d)))
  {
  }

  // ---- Whole texts -----------------------------------------------------------------------------------

  /** The first difference is between a character beyond the sixteen-bit range and one from U+E000 on. */
  predicate IsCrossed(p: string, q: string) {
    p != "" && q != "" &&
    if p[0] == q[0] then IsCrossed(p[1..], q[1..])
    else (IsAstral(p[0]) && IsHigh(q[0])) || (IsHigh(p[0]) && IsAstral(q[0]))
  }

  lemma StartsDiffer(p: string, q: string)
    requires p != "" && q != "" && p[0] != q[0]
    ensures StrCmp(Utf8.Encode(p), Utf8.Encode(q)) < 0 <==> p[0] < q[0]
    ensures StrCmp(Units(p), Units(q)) < 0 <==> Rank(p[0]) < Rank(q[0])
  {
    var a, b := Utf8.Encode(p[1..]), Utf8.Encode(q[1..]);
    var u, w := Units(p[1..]), Units(q[1..]);
    RankIsInjective(p[0], q[0]);
    if p[0] < q[0] { EncodedOrder(p[0], q[0], a, b); } else { EncodedOrder(q[0], p[0], b, a); }
    if Rank(p[0]) < Rank(q[0]) { UnitOrder(p[0], q[0], u, w); } else { UnitOrder(q[0], p[0], w, u); }
    hide StrCmp, Utf8.EncodeChar, UnitBytes, Rank;
    StrCmpIsAnOrder(Utf8.Encode(p), Utf8.Encode(q));
    StrCmpIsAnOrder(Units(p), Units(q));
  }

  /** The two orders agree on a pair of texts exactly when it is not crossed. */
  lemma {:induction false} OrdersAgree(p: string, q: string)
    ensures (StrCmp(Utf8.Encode(p), Utf8.Encode(q)) < 0 <==> StrCmp(Units(p), Units(q)) < 0) <==> !IsCrossed(p, q)
    ensures IsCrossed(p, q) <==> IsCrossed(q, p)
  {
    hide StrCmp, Utf8.EncodeChar, UnitBytes, Rank;
    if p != "" && q != "" {
      if p[0] == q[0] {
        OrdersAgree(p[1..], q[1..]);
        SamePrefix(Utf8.EncodeChar(p[0]), Utf8.Encode(p[1..]), Utf8.Encode(q[1..]));
        SamePrefix(UnitBytes(p[0]), Units(p[1..]), Units(q[1..]));
      } else {
        StartsDiffer(p, q);
        RankIsInjective(p[0], q[0]);
      }
    } else {
      OneIsEmpty(p, q);
    }
  }

  lemma OneIsEmpty(p: string, q: string)
    requires p == "" || q == ""
    ensures StrCmp(Utf8.Encode(p), Utf8.Encode(q)) < 0 <==> StrCmp(Units(p), Units(q)) < 0
  {
  }

  lemma {:induction false} UnitsAreInjective(p: string, q: string)
    requires Units(p) == Units(q)
    ensures p == q
  {
    hide UnitBytes, Rank;
    if p != "" && q != "" {
      if p[0] == q[0] {
        assert Units(p)[|UnitBytes(p[0])|..] == Units(p[1..]) && Units(q)[|UnitBytes(p[0])|..] == Units(q[1..]);
        UnitsAreInjective(p[1..], q[1..]);
        assert p == [p[0]] + p[1..] && q == [q[0]] + q[1..];
      } else {
        StartsDiffer(p, q);
        RankIsInjective(p[0], q[0]);
        StartsDiffer(q, p);
      }
    }
  }
}
