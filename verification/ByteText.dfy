/**
 * Texts as the C programs see them: the UTF-8 bytes, one character for each. Escaping JSON
 * strings touches ASCII characters only, so it may be done before or after the encoding.
 */
module ByteText {
  import opened Prelude
  import opened JsonText
  import Utf8

  function Bytes(s: string): (b: seq<byte>)
    requires IsByteString(s)
    ensures |b| == |s|
  {
    seq(|s|, i requires 0 <= i < |s| => s[i] as int)
  }

  function FromBytes(b: seq<byte>): (s: string)
    ensures |s| == |b|
  {
    seq(|b|, i requires 0 <= i < |b| => b[i] as char)
  }

  lemma BytesRoundTrip(s: string)
    requires IsByteString(s)
    ensures FromBytes(Bytes(s)) == s && 0 !in Bytes(s)
  {
  }

  /** The encoding of a text, a character for each byte. */
  function InUtf8(t: string): string { FromBytes(Utf8.Encode(t)) }

  predicate IsAscii(t: string) { forall i :: 0 <= i < |t| ==> t[i] as int < 0x80 }

  lemma InUtf8OfConcat(a: string, b: string)
    ensures InUtf8(a + b) == InUtf8(a) + InUtf8(b)
  {
    Utf8.EncodeOfConcat(a, b);
    hide Utf8.Encode;
  }

  lemma {:induction false} InUtf8OfAscii(t: string)
    requires IsAscii(t)
    ensures InUtf8(t) == t
  {
    if t != "" {
      var c, rest := t[0], t[1..];
      InUtf8OfAscii(rest);
      assert Utf8.Encode(t) == [c as int] + Utf8.Encode(rest);
      assert t == [c] + rest;
    }
  }

  /** The text can be read off its bytes. */
  lemma InUtf8IsInjective(a: string, b: string)
    requires InUtf8(a) == InUtf8(b)
    ensures a == b
  {
    var x, y := Utf8.Encode(a), Utf8.Encode(b);
    assert forall i :: 0 <= i < |x| ==> x[i] == (InUtf8(a)[i] as int) == y[i];
    assert x == y;
    hide Utf8.Encode, Utf8.Decode;
    Utf8.DecodeInvertsEncode(a, []);
    Utf8.DecodeInvertsEncode(b, []);
    Utf8.DecodeNothing();
    assert x + [] == x && y + [] == y && a + "" == a && b + "" == b;
  }

  lemma {:induction false} InUtf8IsBytes(t: string)
    requires forall i :: 0 <= i < |t| ==> t[i] as int != 0
    ensures IsByteString(InUtf8(t))
  {
    if t != "" {
      InUtf8IsBytes(t[1..]);
      assert t == [t[0]] + t[1..];
      InUtf8OfConcat([t[0]], t[1..]);
      OneChar(t[0]);
    }
  }

  /** Another than an ASCII character has no ASCII byte in its encoding. */
  lemma OneChar(c: char)
    ensures Utf8.Encode([c]) == Utf8.EncodeChar(c)
    ensures c as int < 0x80 ==> InUtf8([c]) == [c]
    ensures c as int >= 0x80 ==> forall i :: 0 <= i < |InUtf8([c])| ==> 0x80 <= InUtf8([c])[i] as int < 0x100
  {
    assert [c][1..] == "" && Utf8.EncodeChar(c) + [] == Utf8.EncodeChar(c);
  }

  lemma {:induction false} EscapedOfConcat(esc: char -> string, a: string, b: string)
    ensures Escaped(esc, a + b) == Escaped(esc, a) + Escaped(esc, b)
  {
    if a == "" {
      assert a + b == b;
    } else {
      assert (a + b)[1..] == a[1..] + b;
      EscapedOfConcat(esc, a[1..], b);
    }
  }

  lemma {:induction false} EscapedHigh(t: string)
    requires forall i :: 0 <= i < |t| ==> t[i] as int >= 0x80
    ensures Escaped(Escape, t) == t
  {
    if t != "" {
      EscapedHigh(t[1..]);
      assert t == [t[0]] + t[1..];
    }
  }

  lemma EscapeIsAscii(c: char)
    requires c as int < 0x80
    ensures IsAscii(Escape(c)) && Escaped(Escape, [c]) == Escape(c)
  {
    assert [c][1..] == "" && Escape(c) + "" == Escape(c);
  }

  lemma EscapedChar(c: char)
    ensures InUtf8(Escaped(Escape, [c])) == Escaped(Escape, InUtf8([c]))
  {
    OneChar(c);
    if c as int < 0x80 {
      EscapeIsAscii(c);
      InUtf8OfAscii(Escape(c));
    } else {
      EscapedHigh([c]);
      EscapedHigh(InUtf8([c]));
    }
  }

  lemma {:induction false} EscapedInUtf8(t: string)
    ensures InUtf8(Escaped(Escape, t)) == Escaped(Escape, InUtf8(t))
  {
    hide InUtf8, Escape;
    if t == "" {
      InUtf8OfAscii("");
    } else {
      var c, rest := t[0], t[1..];
      assert t == [c] + rest;
      EscapedInUtf8(rest);
      EscapedChar(c);
      EscapedOfConcat(Escape, [c], rest);
      InUtf8OfConcat([c], rest);
      InUtf8OfConcat(Escaped(Escape, [c]), Escaped(Escape, rest));
      EscapedOfConcat(Escape, InUtf8([c]), InUtf8(rest));
    }
  }

  /** The bytes of a printed string are the printed bytes. */
  lemma StringifiedInUtf8(t: string)
    ensures InUtf8(Stringified(t)) == Stringified(InUtf8(t))
  {
    hide InUtf8, Escape, Escaped;
    EscapedInUtf8(t);
    InUtf8OfAscii("\"");
    InUtf8OfConcat("\"", Escaped(Escape, t));
    InUtf8OfConcat("\"" + Escaped(Escape, t), "\"");
  }
}
