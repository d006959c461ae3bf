/**
 * The launch helper's JSON scanner (packages/sandbox-vm-native/src/vm-helper.c): a cursor over
 * the text, with a reader for strings, one for unsigned numbers, and three mutually recursive
 * skippers. Characters are UTF-8 bytes. Each method is proved against a function on the text
 * that is left; None and Died stand for the source's `die`.
 */
module JsonScanner {
  import opened Prelude
  import opened Decimal

  datatype Parsed<T> = Parsed(value: T, rest: string) | Died

  // ---- Space and punctuation ------------------------------------------------------------

  predicate IsSpace(c: char) { c == ' ' || c == '\t' || c == '\n' || c == '\r' }

  function SkipSpace(s: string): (r: string)
    ensures |r| <= |s| && r == s[|s| - |r|..] && (r != "" ==> !IsSpace(r[0]))
  {
    if s != "" && IsSpace(s[0]) then SkipSpace(s[1..]) else s
  }

  function Expect(s: string, c: char): (r: Option<string>)
    ensures r.Some? ==> |r.value| < |s|
  {
    var t := SkipSpace(s);
    if t != "" && t[0] == c then Some(t[1..]) else None
  }

  /** The next character that is not space. */
  predicate NextIs(s: string, c: char) {
    var t := SkipSpace(s);
    t != "" && t[0] == c
  }

  // ---- Strings ---------------------------------------------------------------------------

  predicate IsHex(c: char) { '0' <= c <= '9' || 'a' <= c <= 'f' || 'A' <= c <= 'F' }

  function HexValue(c: char): (v: nat)
    requires IsHex(c)
    ensures v < 16
  {
    if c <= '9' then c as int - '0' as int
    else if c <= 'F' then c as int - 'A' as int + 10
    else c as int - 'a' as int + 10
  }

  function HexNumber(s: string): (v: nat)
    requires |s| == 4 && forall i :: 0 <= i < 4 ==> IsHex(s[i])
    ensures v < 0x1_0000
  {
    ((HexValue(s[0]) * 16 + HexValue(s[1])) * 16 + HexValue(s[2])) * 16 + HexValue(s[3])
  }

  predicate IsShortEscape(e: char) { e in "\"\\/bfnrt" }

  function ShortMeaning(e: char): char
    requires IsShortEscape(e)
  {
    if e == 'b' then 8 as char else if e == 'f' then 12 as char else if e == 'n' then '\n'
    else if e == 'r' then '\r' else if e == 't' then '\t' else e
  }

  /** The one character, escaped or not, at the front. */
  function ReadUnit(s: string): (r: Option<(char, string)>)
    requires s != ""
    ensures r.Some? ==> |r.value.1| < |s|
  {
    if s[0] < ' ' then None
    else if s[0] != '\\' then Some((s[0], s[1..]))
    else if |s| < 2 then None
    else if s[1] == 'u' then
      if |s| < 6 || !(forall i :: 0 <= i < 4 ==> IsHex(s[2..6][i])) then None
      else
        var v := HexNumber(s[2..6]);
        if v > 0x7F || v < 0x20 then None else Some((v as char, s[6..]))
    else if IsShortEscape(s[1]) then Some((ShortMeaning(s[1]), s[2..]))
    else None
  }

  /** What follows the opening quote, up to the closing one. */
  function StringBody(s: string): (r: Parsed<string>)
    ensures r.Parsed? ==> |r.rest| < |s|
    decreases |s|
  {
    if s == "" then Died
    else if s[0] == '"' then Parsed("", s[1..])
    else
      var u := ReadUnit(s);
      if u.None? then Died else Prepend([u.value.0], StringBody(u.value.1))
  }

  function Prepend(head: string, r: Parsed<string>): Parsed<string> {
    if r.Died? then Died else Parsed(head + r.value, r.rest)
  }

  function ParseString(s: string): (r: Parsed<string>)
    ensures r.Parsed? ==> |r.rest| < |s|
  {
    var t := Expect(s, '"');
    if t.None? then Died else StringBody(t.value)
  }

  // ---- Numbers ----------------------------------------------------------------------------

  /** 64-bit accumulation; None when a step makes the value smaller. */
  function Accumulated(digits: string): (r: Option<nat>)
    requires forall i :: 0 <= i < |digits| ==> IsDigit(digits[i])
    ensures r.Some? ==> r.value < 0x1_0000_0000_0000_0000
  {
    if digits == "" then Some(0)
    else
      var v := Accumulated(digits[..|digits| - 1]);
      if v.None? then None
      else
        var next := Shifted(v.value, digits[|digits| - 1]);
        if next < v.value then None else Some(next)
  }

  /** One digit more, in 64 bits. */
  function Shifted(v: nat, digit: char): (w: nat)
    requires IsDigit(digit)
    ensures w < 0x1_0000_0000_0000_0000
    ensures v * 10 + DigitValue(digit) < 0x1_0000_0000_0000_0000 ==> w == v * 10 + DigitValue(digit)
  {
    (v * 10 + DigitValue(digit)) % 0x1_0000_0000_0000_0000
  }

  function ParseU64(s: string): (r: Parsed<nat>)
    ensures r.Parsed? ==> |r.rest| < |s|
  {
    var t := SkipSpace(s);
    var digits := DigitRun(t);
    if digits == "" then Died
    else
      var v := Accumulated(digits);
      if v.None? then Died else Parsed(v.value, t[|digits|..])
  }

  // ---- Skipping ---------------------------------------------------------------------------

  /** strchr also finds the terminating NUL of its set. */
  predicate IsNumberChar(c: char) { c in "0123456789+-.eE" || c as int == 0 }

  function SkipNumber(s: string): (r: string)
    ensures |r| <= |s|
  {
    if s != "" && IsNumberChar(s[0]) then SkipNumber(s[1..]) else s
  }

  predicate StartsWith(s: string, word: string) { word <= s }

  function SkipWord(s: string): (r: Option<string>)
    ensures r.Some? ==> |r.value| < |s|
  {
    if StartsWith(s, "true") then Some(s[4..])
    else if StartsWith(s, "false") then Some(s[5..])
    else if StartsWith(s, "null") then Some(s[4..])
    else None
  }

  function SkipValue(s: string): (r: Option<string>)
    ensures r.Some? ==> |r.value| < |s|
    decreases |s|, 2
  {
    ValueAt(SkipSpace(s))
  }

  /** A value, told by its first character. */
  function ValueAt(t: string): (r: Option<string>)
    ensures r.Some? ==> |r.value| < |t|
    decreases |t|, 1
  {
    if t == "" then None
    else if t[0] == '{' then SkipObject(t)
    else if t[0] == '[' then SkipArray(t)
    else if t[0] == '"' then
      var str := ParseString(t);
      if str.Died? then None else Some(str.rest)
    else if t[0] == 't' || t[0] == 'f' || t[0] == 'n' then SkipWord(t)
    else if t[0] == '-' || IsDigit(t[0]) then Some(SkipNumber(t[1..]))
    else None
  }

  function SkipObject(s: string): (r: Option<string>)
    ensures r.Some? ==> |r.value| < |s|
    decreases |s|, 0
  {
    var t := Expect(s, '{');
    if t.None? then None
    else if NextIs(t.value, '}') then Some(SkipSpace(t.value)[1..])
    else SkipMembers(t.value)
  }

  /** The loop of skip_object. */
  function SkipMembers(s: string): (r: Option<string>)
    ensures r.Some? ==> |r.value| < |s|
    decreases |s|, 3
  {
    var key := ParseString(s);
    if key.Died? then None
    else
      var t := Expect(key.rest, ':');
      if t.None? then None
      else
        var v := SkipValue(t.value);
        if v.None? then None
        else if NextIs(v.value, ',') then SkipMembers(SkipSpace(v.value)[1..])
        else if NextIs(v.value, '}') then Some(SkipSpace(v.value)[1..])
        else None
  }

  function SkipArray(s: string): (r: Option<string>)
    ensures r.Some? ==> |r.value| < |s|
    decreases |s|, 0
  {
    var t := Expect(s, '[');
    if t.None? then None
    else if NextIs(t.value, ']') then Some(SkipSpace(t.value)[1..])
    else SkipElements(t.value)
  }

  /** The loop of skip_array. */
  function SkipElements(s: string): (r: Option<string>)
    ensures r.Some? ==> |r.value| < |s|
    decreases |s|, 3
  {
    var v := SkipValue(s);
    if v.None? then None
    else if NextIs(v.value, ',') then SkipElements(SkipSpace(v.value)[1..])
    else if NextIs(v.value, ']') then Some(SkipSpace(v.value)[1..])
    else None
  }

  // ---- The cursor ----------------------------------------------------------------------------

  class Scanner {
    const text: string
    var cur: nat

    predicate Valid()
      reads this
    {
      cur <= |text|
    }

    /** The text that is left. */
    function Left(): (s: string)
      requires Valid()
      reads this
    {
      text[cur..]
    }

    constructor (text: string)
      ensures Valid() && cur == 0 && this.text == text && Left() == text
    {
      this.text, cur := text, 0;
    }

    lemma LeftAfter(n: nat)
      requires Valid() && cur + n <= |text|
      ensures text[cur + n..] == Left()[n..]
    {
    }

    method SkipWs()
      requires Valid()
      modifies this`cur
      ensures Valid() && cur >= old(cur) && Left() == SkipSpace(old(Left()))
    {
      while cur < |text| && IsSpace(text[cur])
        invariant old(cur) <= cur <= |text| && SkipSpace(Left()) == SkipSpace(old(Left()))
      {
        LeftAfter(1);
        cur := cur + 1;
      }
    }

    /** Whether only space is left. */
    method AtEnd() returns (b: bool)
      requires Valid()
      modifies this`cur
      ensures Valid() && (b <==> SkipSpace(old(Left())) == "")
    {
      SkipWs();
      return cur == |text|;
    }

    /** peek: skips space, then compares the next character without taking it. */
    method Peek() returns (c: Option<char>)
      requires Valid()
      modifies this`cur
      ensures Valid() && cur >= old(cur) && Left() == SkipSpace(old(Left()))
      ensures c == if Left() == "" then None else Some(Left()[0])
      ensures forall d :: NextIs(old(Left()), d) <==> c == Some(d)
    {
      SkipWs();
      return if cur < |text| then Some(text[cur]) else None;
    }

    /** The `s->cur++` after a successful peek. */
    method Take()
      requires Valid() && Left() != ""
      modifies this`cur
      ensures Valid() && cur == old(cur) + 1 && Left() == old(Left())[1..]
    {
      LeftAfter(1);
      cur := cur + 1;
    }

    method ExpectChar(c: char) returns (ok: bool)
      requires Valid()
      modifies this`cur
      ensures Valid() && (ok <==> Expect(old(Left()), c).Some?)
      ensures ok ==> cur > old(cur) && Expect(old(Left()), c) == Some(Left())
    {
      SkipWs();
      if cur >= |text| || text[cur] != c { return false; }
      Take();
      return true;
    }

    /** One round of the loop in parse_string_dup. */
    method TakeUnit() returns (r: Option<char>)
      requires Valid() && Left() != ""
      modifies this`cur
      ensures Valid() && (r.Some? <==> ReadUnit(old(Left())).Some?)
      ensures r.Some? ==> cur > old(cur) && ReadUnit(old(Left())) == Some((r.value, Left()))
    {
      hide HexNumber;
      ghost var s := Left();
      var c := text[cur];
      LeftAfter(1);
      cur := cur + 1;
      if c < ' ' { return None; }
      if c != '\\' { return Some(c); }
      if cur >= |text| { return None; }
      var e := text[cur];
      LeftAfter(1);
      cur := cur + 1;
      if e != 'u' {
        return if IsShortEscape(e) then Some(ShortMeaning(e)) else None;
      }
      if |text| - cur < 4 { return None; }
      assert s[2..6] == text[cur..cur + 4];
      var v := 0;
      for i := 0 to 4
        invariant cur == old(cur) + 2 + i && cur + 4 - i <= |text|
        invariant forall k :: 0 <= k < i ==> IsHex(s[2..6][k])
        invariant v == HexPrefix(s[2..6], i)
      {
        var h := text[cur];
        assert h == s[2..6][i];
        cur := cur + 1;
        if !IsHex(h) { return None; }
        v := v * 16 + HexValue(h);
      }
      HexPrefixIsNumber(s[2..6]);
      assert s[6..] == text[cur..];
      if v > 0x7F || v < 0x20 { return None; }
      return Some(v as char);
    }

    method ParseStringDup() returns (r: Option<string>)
      requires Valid()
      modifies this`cur
      ensures Valid() && (r.Some? <==> ParseString(old(Left())).Parsed?)
      ensures r.Some? ==> cur > old(cur) && ParseString(old(Left())) == Parsed(r.value, Left())
    {
      hide ReadUnit, SkipSpace, Expect;
      var ok := ExpectChar('"');
      if !ok { return None; }
      ghost var start := Left();
      var out := "";
      PrependNothing(StringBody(start));
      while cur < |text| && text[cur] != '"'
        invariant old(cur) < cur <= |text| && StringBody(start) == Prepend(out, StringBody(Left()))
      {
        ghost var tail := Left();
        var c := TakeUnit();
        if c.None? { return None; }
        PrependTwice(out, [c.value], StringBody(Left()));
        out := out + [c.value];
      }
      if cur >= |text| { return None; }
      Take();
      assert out + "" == out;
      return Some(out);
    }

    /** parse_u64 */
    method ParseUnsigned() returns (r: Option<nat>)
      requires Valid()
      modifies this`cur
      ensures Valid() && (r.Some? <==> ParseU64(old(Left())).Parsed?)
      ensures r.Some? ==> cur > old(cur) && ParseU64(old(Left())) == Parsed(r.value, Left())
    {
      hide Accumulated, SkipSpace, DigitRun;
      SkipWs();
      NoDigits(Left());
      if cur >= |text| || !IsDigit(text[cur]) { return None; }
      r := TakeDigits();
    }

    /** The loop of parse_u64. */
    method TakeDigits() returns (r: Option<nat>)
      requires Valid() && DigitRun(Left()) != ""
      modifies this`cur
      ensures Valid() && r == Accumulated(DigitRun(old(Left())))
      ensures r.Some? ==> cur > old(cur) && Left() == old(Left())[|DigitRun(old(Left()))|..]
    {
      hide Accumulated, DigitRun, Shifted, Value, IsDigit;
      ghost var t, start := Left(), cur;
      ghost var digits := DigitRun(t);
      var v := 0;
      AccumulatedNone();
      assert digits[..0] == "";
      while cur < |text| && IsDigit(text[cur])
        invariant start <= cur <= start + |digits| && Accumulated(digits[..cur - start]) == Some(v)
      {
        DigitAt(t, cur - start);
        assert text[cur] == t[cur - start];
        AccumulatedMore(digits, cur - start);
        var nv := Shifted(v, text[cur]);
        if nv < v {
          AccumulatedDied(digits, cur - start + 1);
          return None;
        }
        v := nv;
        cur := cur + 1;
      }
      DigitAt(t, cur - start);
      assert cur < |text| ==> text[cur] == t[cur - start];
      assert digits[..|digits|] == digits;
      assert Left() == t[|digits|..];
      return Some(v);
    }

    method SkipObjectValue() returns (ok: bool)
      requires Valid()
      modifies this`cur
      ensures Valid() && (ok <==> SkipObject(old(Left())).Some?)
      ensures ok ==> cur > old(cur) && SkipObject(old(Left())) == Some(Left())
      decreases |text| - cur, 0
    {
      hide SkipSpace, ParseString, SkipValue, Expect, NextIs, Left;
      ok := ExpectChar('{');
      if !ok { return; }
      ghost var start := Left();
      var c := Peek();
      if c == Some('}') { Take(); return true; }
      MembersAfterSpace(start);
      while true
        invariant Valid() && cur > old(cur) && SkipMembers(Left()) == SkipMembers(start)
        decreases |text| - cur
      {
        var k := ParseStringDup();
        if k.None? { return false; }
        ok := ExpectChar(':');
        if !ok { return false; }
        ok := SkipAnyValue();
        if !ok { return false; }
        c := Peek();
        if c == Some(',') { Take(); continue; }
        if c == Some('}') { Take(); return true; }
        return false;
      }
    }

    method SkipArrayValue() returns (ok: bool)
      requires Valid()
      modifies this`cur
      ensures Valid() && (ok <==> SkipArray(old(Left())).Some?)
      ensures ok ==> cur > old(cur) && SkipArray(old(Left())) == Some(Left())
      decreases |text| - cur, 0
    {
      hide SkipSpace, SkipValue, Expect, NextIs, Left;
      ok := ExpectChar('[');
      if !ok { return; }
      ghost var start := Left();
      var c := Peek();
      if c == Some(']') { Take(); return true; }
      ElementsAfterSpace(start);
      while true
        invariant Valid() && cur > old(cur) && SkipElements(Left()) == SkipElements(start)
        decreases |text| - cur
      {
        ok := SkipAnyValue();
        if !ok { return false; }
        c := Peek();
        if c == Some(',') { Take(); continue; }
        if c == Some(']') { Take(); return true; }
        return false;
      }
    }

    /** skip_value */
    method SkipAnyValue() returns (ok: bool)
      requires Valid()
      modifies this`cur
      ensures Valid() && (ok <==> SkipValue(old(Left())).Some?)
      ensures ok ==> cur > old(cur) && SkipValue(old(Left())) == Some(Left())
      decreases |text| - cur, 1
    {
      hide SkipSpace, ParseString, SkipObject, SkipArray, StartsWith;
      var c := Peek();
      if c == Some('{') { ok := SkipObjectValue(); return; }
      if c == Some('[') { ok := SkipArrayValue(); return; }
      if c == Some('"') {
        var t := ParseStringDup();
        return t.Some?;
      }
      if c == Some('t') || c == Some('f') || c == Some('n') { ok := TakeWord(); return; }
      if c.Some? && (c.value == '-' || IsDigit(c.value)) {
        Take();
        TakeNumber();
        return true;
      }
      return false;
    }

    /** memcmp against the words; only the first one that fits the first letter can match. */
    method TakeWord() returns (ok: bool)
      requires Valid()
      modifies this`cur
      ensures Valid() && (ok <==> SkipWord(old(Left())).Some?)
      ensures ok ==> cur > old(cur) && SkipWord(old(Left())) == Some(Left())
    {
      if StartsWith(text[cur..], "true") { LeftAfter(4); cur := cur + 4; return true; }
      if StartsWith(text[cur..], "false") { LeftAfter(5); cur := cur + 5; return true; }
      if StartsWith(text[cur..], "null") { LeftAfter(4); cur := cur + 4; return true; }
      return false;
    }

    method TakeNumber()
      requires Valid()
      modifies this`cur
      ensures Valid() && cur >= old(cur) && Left() == SkipNumber(old(Left()))
    {
      while cur < |text| && IsNumberChar(text[cur])
        invariant old(cur) <= cur <= |text| && SkipNumber(Left()) == SkipNumber(old(Left()))
      {
        LeftAfter(1);
        cur := cur + 1;
      }
    }
  }

  function HexPrefix(s: string, n: nat): nat
    requires n <= |s| && forall i :: 0 <= i < n ==> IsHex(s[i])
  {
    if n == 0 then 0 else HexPrefix(s, n - 1) * 16 + HexValue(s[n - 1])
  }

  lemma HexPrefixIsNumber(s: string)
    requires |s| == 4 && forall i :: 0 <= i < 4 ==> IsHex(s[i])
    ensures HexPrefix(s, 4) == HexNumber(s)
  {
    hide HexValue;
    assert HexPrefix(s, 1) == HexValue(s[0]);
    assert HexPrefix(s, 2) == HexValue(s[0]) * 16 + HexValue(s[1]);
    assert HexPrefix(s, 3) == (HexValue(s[0]) * 16 + HexValue(s[1])) * 16 + HexValue(s[2]);
  }

  lemma PrependNothing(r: Parsed<string>)
    ensures Prepend("", r) == r
  {
    if r.Parsed? { assert "" + r.value == r.value; }
  }

  lemma PrependTwice(a: string, b: string, r: Parsed<string>)
    ensures Prepend(a, Prepend(b, r)) == Prepend(a + b, r)
  {
    if r.Parsed? { assert a + (b + r.value) == a + b + r.value; }
  }

  lemma NoDigits(t: string)
    ensures DigitRun(t) == "" <==> t == "" || !IsDigit(t[0])
  {
  }

  /** The run of digits goes as far as the characters are digits. */
  lemma DigitAt(t: string, k: nat)
    requires k <= |DigitRun(t)|
    ensures k < |DigitRun(t)| <==> k < |t| && IsDigit(t[k])
    ensures k < |DigitRun(t)| ==> DigitRun(t)[k] == t[k]
  {
  }

  lemma AccumulatedNone()
    ensures Accumulated("") == Some(0)
  {
  }

  lemma AccumulatedMore(digits: string, n: nat)
    requires n < |digits| && forall i :: 0 <= i < |digits| ==> IsDigit(digits[i])
    ensures var v := Accumulated(digits[..n]);
      Accumulated(digits[..n + 1]) ==
        if v.None? then None
        else
          var next := Shifted(v.value, digits[n]);
          if next < v.value then None else Some(next)
  {
    assert digits[..n + 1][..n] == digits[..n];
  }

  lemma {:induction false} AccumulatedDied(digits: string, n: nat)
    requires n <= |digits| && (forall i :: 0 <= i < |digits| ==> IsDigit(digits[i])) && Accumulated(digits[..n]) == None
    ensures Accumulated(digits) == None
    decreases |digits| - n
  {
    if n == |digits| {
      assert digits[..n] == digits;
    } else {
      AccumulatedMore(digits, n);
      AccumulatedDied(digits, n + 1);
    }
  }

  lemma {:induction false} SpaceSkippedTwice(s: string)
    ensures SkipSpace(SkipSpace(s)) == SkipSpace(s)
  {
  }

  lemma ExpectAfterSpace(s: string, c: char)
    ensures Expect(SkipSpace(s), c) == Expect(s, c)
  {
    SpaceSkippedTwice(s);
    hide SkipSpace;
  }

  lemma MembersAfterSpace(s: string)
    ensures SkipMembers(SkipSpace(s)) == SkipMembers(s)
  {
    hide SkipSpace, StringBody, SkipValue, Expect, NextIs;
    ExpectAfterSpace(s, '"');
    assert ParseString(SkipSpace(s)) == ParseString(s);
  }

  lemma ValueAfterSpace(s: string)
    ensures SkipValue(SkipSpace(s)) == SkipValue(s)
  {
    hide SkipSpace, ValueAt;
    SpaceSkippedTwice(s);
  }

  lemma ElementsAfterSpace(s: string)
    ensures SkipElements(SkipSpace(s)) == SkipElements(s)
  {
    hide SkipSpace, SkipValue, NextIs;
    ValueAfterSpace(s);
  }

  // ---- Numbers in range --------------------------------------------------------------------

  /** The overflow test is exact as long as the value stays below a tenth of 2^64. */
  lemma {:induction false} AccumulatedBelow(digits: string, limit: nat)
    requires (forall i :: 0 <= i < |digits| ==> IsDigit(digits[i])) && 10 * limit + 9 < 0x1_0000_0000_0000_0000
    ensures Value(digits) <= limit ==> Accumulated(digits) == Some(Value(digits))
    ensures Accumulated(digits).Some? && Accumulated(digits).value <= limit
      ==> Accumulated(digits).value == Value(digits)
  {
    if digits != "" {
      AccumulatedBelow(digits[..|digits| - 1], limit);
    }
  }

  /** So a field limited to 32 bits is read exactly, however many digits it is written with. */
  lemma RangeCheckIsExact(digits: string, limit: nat)
    requires (forall i :: 0 <= i < |digits| ==> IsDigit(digits[i])) && limit <= 0xFFFF_FFFF
    ensures (Accumulated(digits).Some? && Accumulated(digits).value <= limit) <==> Value(digits) <= limit
    ensures Value(digits) <= limit ==> Accumulated(digits) == Some(Value(digits))
  {
    AccumulatedBelow(digits, limit);
  }

  /** The number that comes back is the one written exactly when it is below 2^64, however many digits it has. */
  lemma {:induction false} AccumulatedIsExact(digits: string)
    requires forall i :: 0 <= i < |digits| ==> IsDigit(digits[i])
    ensures Accumulated(digits) == Some(Value(digits)) <==> Value(digits) < 0x1_0000_0000_0000_0000
  {
    if digits != "" { AccumulatedIsExact(digits[..|digits| - 1]); }
  }

  function Tens(n: nat): (t: nat)
    ensures t > 0
  {
    if n == 0 then 1 else 10 * Tens(n - 1)
  }

  /** A number above 2^64 on which the test misses the wrap: the value grows all the same. */
  lemma TwentyDigitsCanWrap()
    ensures var digits := "50000000000000000000";
      (forall i :: 0 <= i < |digits| ==> IsDigit(digits[i])) && Accumulated(digits) == Some(13_106_511_852_580_896_768)
      && Value(digits) != 13_106_511_852_580_896_768
  {
    var digits := "50000000000000000000";
    var front := "5000000000000000000";
    assert digits == front + "0" && digits[..19] == front;
    FiveAndZeros();
    AccumulatedIsExact(front);
  }

  lemma FiveAndZeros()
    ensures Value("5000000000000000000") == 5_000_000_000_000_000_000
  {
    var s := "5000000000000000000";
    assert s[..18] == "500000000000000000" && s[..18][..17] == "50000000000000000";
    ZerosMultiply("5", 18);
    assert Value("5") == 5 by { assert "5"[..0] == ""; }
    TenTo18();
    assert "5" + ZeroText(18) == s;
  }

  lemma TenTo18()
    ensures Tens(18) == 1_000_000_000_000_000_000
  {
    assert Tens(5) == 100_000;
    assert Tens(10) == 10_000_000_000;
    assert Tens(15) == 1_000_000_000_000_000;
  }

  function ZeroText(n: nat): (s: string)
    ensures |s| == n && forall i :: 0 <= i < n ==> s[i] == '0'
  {
    seq(n, _ => '0')
  }

  lemma {:induction false} ZerosMultiply(s: string, n: nat)
    requires forall i :: 0 <= i < |s| ==> IsDigit(s[i])
    ensures Value(s + ZeroText(n)) == Value(s) * Tens(n)
  {
    if n == 0 {
      assert s + ZeroText(0) == s;
    } else {
      ZerosMultiply(s, n - 1);
      assert (s + ZeroText(n))[..|s| + n - 1] == s + ZeroText(n - 1);
      assert Value(s + ZeroText(n)) == 10 * Value(s + ZeroText(n - 1));
      TenTimes(Value(s), Tens(n - 1));
    }
  }

  lemma TenTimes(a: nat, b: nat)
    ensures 10 * (a * b) == a * (10 * b)
  {
  }
}
