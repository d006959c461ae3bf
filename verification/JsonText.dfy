/**
 * Printing JSON strings. A text is a `string` whose characters are UTF-8 bytes. Two
 * printers occur: JSON.stringify (section 7 of RFC 8259, with the short escapes) and the
 * image builder's buf_jsonstr, which knows only the long form for control characters.
 */
module JsonText {

  /** UTF-8 bytes, none of them NUL. */
  predicate IsByteString(s: string) {
    forall i :: 0 <= i < |s| ==> 0 < s[i] as int < 256
  }

  function HexDigit(d: nat): (c: char)
    requires d < 16
  {
    if d < 10 then (d + '0' as int) as char else (d - 10 + 'a' as int) as char
  }

  /** The six-character escape of a control character. */
  function LongEscape(c: char): (e: string)
    requires c < ' '
    ensures |e| == 6 && e[0] == '\\' && e[1] == 'u' && e[2] == '0' && e[3] == '0'
  {
    ['\\', 'u', '0', '0', HexDigit(c as int / 16), HexDigit(c as int % 16)]
  }

  /** buf_jsonstr: quotes and backslashes are escaped, control characters by number. */
  function PlainEscape(c: char): (e: string)
    ensures e != "" && e[0] != '"'
  {
    if c == '"' then "\\\"" else if c == '\\' then "\\\\"
    else if c < ' ' then LongEscape(c)
    else [c]
  }

  predicate HasShortEscape(c: char) { c as int in {8, 9, 10, 12, 13} }

  /** JSON.stringify: five control characters have a short escape. */
  function Escape(c: char): (e: string)
    ensures e != "" && e[0] != '"'
  {
    if c as int == 8 then "\\b" else if c == '\t' then "\\t" else if c == '\n' then "\\n"
    else if c as int == 12 then "\\f" else if c == '\r' then "\\r"
    else PlainEscape(c)
  }

  function Escaped(esc: char -> string, s: string): string {
    if s == "" then "" else esc(s[0]) + Escaped(esc, s[1..])
  }

  function PlainString(s: string): string { "\"" + Escaped(PlainEscape, s) + "\"" }
  function Stringified(s: string): string { "\"" + Escaped(Escape, s) + "\"" }

  lemma HexDigitIsInjective(d: nat, e: nat)
    requires d < 16 && e < 16 && HexDigit(d) == HexDigit(e)
    ensures d == e
  {
  }

  lemma PlainEscapeIsPrefixFree(c: char, x: string, d: char, y: string)
    requires PlainEscape(c) + x == PlainEscape(d) + y
    ensures c == d && x == y
  {
    var s, t := PlainEscape(c) + x, PlainEscape(d) + y;
    assert s[0] == PlainEscape(c)[0] && t[0] == PlainEscape(d)[0];
    if s[0] == '\\' {
      assert s[1] == PlainEscape(c)[1] && t[1] == PlainEscape(d)[1];
      if s[1] == 'u' {
        assert s[4] == LongEscape(c)[4] && t[4] == LongEscape(d)[4];
        assert s[5] == LongEscape(c)[5] && t[5] == LongEscape(d)[5];
        HexDigitIsInjective(c as int / 16, d as int / 16);
        HexDigitIsInjective(c as int % 16, d as int % 16);
      }
    }
    assert x == s[|PlainEscape(c)|..] && y == t[|PlainEscape(d)|..];
  }

  lemma EndsAtQuote(a: string, x: string)
    ensures var s := Escaped(PlainEscape, a) + "\"" + x;
            s != "" && (s[0] == '"' <==> a == "")
  {
    if a != "" { assert (Escaped(PlainEscape, a) + "\"" + x)[0] == PlainEscape(a[0])[0]; }
  }

  /** The closing quote ends the string: what was printed, and what follows, can be read off. */
  lemma {:induction false} EscapedIsDetermined(a: string, x: string, b: string, y: string)
    requires Escaped(PlainEscape, a) + "\"" + x == Escaped(PlainEscape, b) + "\"" + y
    ensures a == b && x == y
  {
    hide PlainEscape;
    var s, t := Escaped(PlainEscape, a) + "\"" + x, Escaped(PlainEscape, b) + "\"" + y;
    EndsAtQuote(a, x);
    EndsAtQuote(b, y);
    if a == "" {
      assert x == s[1..] && y == t[1..];
    } else {
      var u, v := Escaped(PlainEscape, a[1..]) + "\"" + x, Escaped(PlainEscape, b[1..]) + "\"" + y;
      assert s == PlainEscape(a[0]) + u && t == PlainEscape(b[0]) + v;
      PlainEscapeIsPrefixFree(a[0], u, b[0], v);
      EscapedIsDetermined(a[1..], x, b[1..], y);
      assert a == [a[0]] + a[1..] && b == [b[0]] + b[1..];
    }
  }

  lemma PlainStringIsDetermined(a: string, x: string, b: string, y: string)
    requires PlainString(a) + x == PlainString(b) + y
    ensures a == b && x == y
  {
    assert (PlainString(a) + x)[1..] == Escaped(PlainEscape, a) + "\"" + x;
    assert (PlainString(b) + y)[1..] == Escaped(PlainEscape, b) + "\"" + y;
    EscapedIsDetermined(a, x, b, y);
  }

  /**
   * The builder's comment promises JSON.stringify's bytes for ASCII paths. They agree exactly
   * when no character has a short escape: a tab or newline in a name is printed differently.
   */
  lemma {:induction false} PrintersAgree(s: string)
    ensures PlainString(s) == Stringified(s) <==> forall i :: 0 <= i < |s| ==> !HasShortEscape(s[i])
  {
    EscapedAgree(s);
    assert PlainString(s)[1..|PlainString(s)| - 1] == Escaped(PlainEscape, s);
    assert Stringified(s)[1..|Stringified(s)| - 1] == Escaped(Escape, s);
  }

  lemma {:induction false} EscapedAgree(s: string)
    ensures Escaped(PlainEscape, s) == Escaped(Escape, s) <==> forall i :: 0 <= i < |s| ==> !HasShortEscape(s[i])
  {
    if s != "" {
      var u, v := Escaped(PlainEscape, s[1..]), Escaped(Escape, s[1..]);
      EscapedAgree(s[1..]);
      if HasShortEscape(s[0]) {
        assert (PlainEscape(s[0]) + u)[1] == 'u' && (Escape(s[0]) + v)[1] != 'u';
      } else {
        assert (PlainEscape(s[0]) + u)[|PlainEscape(s[0])|..] == u;
        assert (PlainEscape(s[0]) + v)[|PlainEscape(s[0])|..] == v;
        assert forall i :: 0 <= i < |s[1..]| ==> s[1..][i] == s[i + 1];
        assert forall i :: 1 <= i < |s| ==> s[i] == s[1..][i - 1];
      }
    }
  }
}
