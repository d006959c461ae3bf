/**
 * JSON texts as trees (RFC 8259), with their white space, and what the scanner of
 * packages/sandbox-vm-native/src/vm-helper.c makes of them: strings are decoded, and a value is
 * skipped as a whole. The scanner refuses the escapes it has no use for: \u0000, control
 * characters by number, and anything beyond ASCII.
 */
module JsonDocument {
  import opened Prelude
  import opened Decimal
  import opened JsonScanner

  // ---- Strings ---------------------------------------------------------------------------

  /** One character of a string literal: itself, by a short escape, or by number. */
  datatype Unit = Raw(c: char) | Short(e: char) | Hex(digits: string)

  predicate Legal(u: Unit) {
    match u
    case Raw(c) => c >= ' ' && c != '"' && c != '\\'
    case Short(e) => IsShortEscape(e)
    case Hex(digits) => |digits| == 4 && forall i :: 0 <= i < 4 ==> IsHex(digits[i])
  }

  /** What the helper takes. */
  predicate Admitted(u: Unit)
    requires Legal(u)
  {
    u.Hex? ==> 0x20 <= HexNumber(u.digits) <= 0x7F
  }

  function UnitText(u: Unit): (s: string)
    requires Legal(u)
    ensures s != "" && s[0] != '"'
  {
    match u
    case Raw(c) => [c]
    case Short(e) => ['\\', e]
    case Hex(digits) => ['\\', 'u'] + digits
  }

  function UnitMeaning(u: Unit): char
    requires Legal(u) && Admitted(u)
  {
    match u
    case Raw(c) => c
    case Short(e) => ShortMeaning(e)
    case Hex(digits) => HexNumber(digits) as char
  }

  predicate AllLegal(us: seq<Unit>) { forall i :: 0 <= i < |us| ==> Legal(us[i]) }

  predicate AllAdmitted(us: seq<Unit>)
    requires AllLegal(us)
  {
    forall i :: 0 <= i < |us| ==> Admitted(us[i])
  }

  function Content(us: seq<Unit>): string
    requires AllLegal(us)
  {
    if us == [] then "" else UnitText(us[0]) + Content(us[1..])
  }

  function Meaning(us: seq<Unit>): (s: string)
    requires AllLegal(us) && AllAdmitted(us)
    ensures |s| == |us|
  {
    if us == [] then "" else [UnitMeaning(us[0])] + Meaning(us[1..])
  }

  function StringText(us: seq<Unit>): (s: string)
    requires AllLegal(us)
  {
    "\"" + Content(us) + "\""
  }

  lemma UnitIsRead(u: Unit, rest: string)
    requires Legal(u)
    ensures ReadUnit(UnitText(u) + rest) == if Admitted(u) then Some((UnitMeaning(u), rest)) else None
  {
    hide HexNumber, ShortMeaning;
    var s := UnitText(u) + rest;
    match u
    case Raw(c) => assert s[1..] == rest;
    case Short(e) => assert s[2..] == rest;
    case Hex(digits) =>
      assert s[2..6] == digits && s[6..] == rest;
  }

  /** A string body is decoded up to its closing quote, or refused. */
  lemma {:induction false} BodyIsRead(us: seq<Unit>, rest: string)
    requires AllLegal(us)
    ensures StringBody(Content(us) + "\"" + rest) == if AllAdmitted(us) then Parsed(Meaning(us), rest) else Died
  {
    hide ReadUnit, UnitText, UnitMeaning, Admitted, Legal;
    var s := Content(us) + "\"" + rest;
    if us == [] {
      assert s[1..] == rest;
    } else {
      var tail := Content(us[1..]) + "\"" + rest;
      assert s == UnitText(us[0]) + tail;
      UnitIsRead(us[0], tail);
      BodyIsRead(us[1..], rest);
      assert AllAdmitted(us) <==> Admitted(us[0]) && AllAdmitted(us[1..]) by { AdmittedParts(us); }
    }
  }

  lemma AdmittedParts(us: seq<Unit>)
    requires AllLegal(us) && us != []
    ensures AllAdmitted(us) <==> Admitted(us[0]) && AllAdmitted(us[1..])
  {
    hide Admitted, Legal;
    assert forall i :: 1 <= i < |us| ==> us[i] == us[1..][i - 1];
  }

  // ---- Space --------------------------------------------------------------------------------

  predicate AllSpace(s: string) { forall i :: 0 <= i < |s| ==> IsSpace(s[i]) }

  lemma {:induction false} LeadingSpace(ws: string, t: string)
    requires AllSpace(ws)
    ensures SkipSpace(ws + t) == SkipSpace(t)
  {
    if ws == "" {
      assert ws + t == t;
    } else {
      assert (ws + t)[1..] == ws[1..] + t;
      LeadingSpace(ws[1..], t);
    }
  }

  lemma NoSpace(t: string)
    requires t != "" && !IsSpace(t[0])
    ensures SkipSpace(t) == t
  {
  }

  lemma StringIsRead(ws: string, us: seq<Unit>, rest: string)
    requires AllSpace(ws) && AllLegal(us)
    ensures ParseString(ws + StringText(us) + rest) == if AllAdmitted(us) then Parsed(Meaning(us), rest) else Died
  {
    hide StringBody, SkipSpace, Content, Meaning, Admitted, Legal, AllSpace;
    var t := StringText(us) + rest;
    assert ws + StringText(us) + rest == ws + t;
    LeadingSpace(ws, t);
    NoSpace(t);
    assert t[1..] == Content(us) + "\"" + rest;
    BodyIsRead(us, rest);
  }

  /** A mark after some space. */
  lemma MarkIsRead(ws: string, c: char, rest: string)
    requires AllSpace(ws) && !IsSpace(c)
    ensures SkipSpace(ws + [c] + rest) == [c] + rest && ([c] + rest)[1..] == rest
    ensures Expect(ws + [c] + rest, c) == Some(rest)
    ensures forall d :: NextIs(ws + [c] + rest, d) <==> c == d
  {
    hide SkipSpace, AllSpace;
    var t := [c] + rest;
    assert ws + [c] + rest == ws + t;
    LeadingSpace(ws, t);
    NoSpace(t);
  }

  // ---- Values ---------------------------------------------------------------------------------

  datatype Value =
    | Str(units: seq<Unit>)
    | Num(text: string)
    | Word(word: string)
    | EmptyArray(inner: string)
    | Array(items: seq<Padded>)
    | EmptyObject(inner: string)
    | Object(members: seq<Member>)
  /** A value with the space around it. */
  datatype Padded = Padded(before: string, value: Value, after: string)
  datatype Member = Member(before: string, key: seq<Unit>, between: string, padded: Padded)

  predicate IsNumberText(s: string) {
    s != "" && (s[0] == '-' || IsDigit(s[0])) && forall i :: 1 <= i < |s| ==> IsNumberChar(s[i])
  }

  predicate WellFormed(v: Value)
    decreases v
  {
    match v
    case Str(us) => AllLegal(us)
    case Num(text) => IsNumberText(text)
    case Word(w) => w in {"true", "false", "null"}
    case EmptyArray(inner) => AllSpace(inner)
    case Array(items) => items != [] && forall i :: 0 <= i < |items| ==> WellPadded(items[i])
    case EmptyObject(inner) => AllSpace(inner)
    case Object(members) => members != [] && forall i :: 0 <= i < |members| ==> WellNamed(members[i])
  }

  predicate WellPadded(p: Padded)
    decreases p
  {
    AllSpace(p.before) && AllSpace(p.after) && WellFormed(p.value)
  }

  predicate WellNamed(m: Member)
    decreases m
  {
    AllSpace(m.before) && AllSpace(m.between) && AllLegal(m.key) && WellPadded(m.padded)
  }

  /** Every string in the value is one the helper takes. */
  predicate Readable(v: Value)
    requires WellFormed(v)
    decreases v
  {
    match v
    case Str(us) => AllAdmitted(us)
    case Array(items) => forall i :: 0 <= i < |items| ==> ReadablePadded(items[i])
    case Object(members) => forall i :: 0 <= i < |members| ==> ReadableMember(members[i])
    case _ => true
  }

  predicate ReadablePadded(p: Padded)
    requires WellPadded(p)
    decreases p
  {
    Readable(p.value)
  }

  predicate ReadableMember(m: Member)
    requires WellNamed(m)
    decreases m
  {
    AllAdmitted(m.key) && ReadablePadded(m.padded)
  }

  // Parts of well-formed things are well formed.

  lemma StrParts(v: Value)
    requires WellFormed(v) && v.Str?
    ensures AllLegal(v.units)
  {
  }

  lemma ArrayParts(v: Value)
    requires WellFormed(v) && v.Array?
    ensures v.items != [] && forall i :: 0 <= i < |v.items| ==> WellPadded(v.items[i])
  {
  }

  lemma PaddedParts(p: Padded)
    requires WellPadded(p)
    ensures AllSpace(p.after) && AllSpace(p.before) && WellFormed(p.value)
  {
  }

  lemma MemberParts(m: Member)
    requires WellNamed(m)
    ensures AllSpace(m.before) && AllSpace(m.between) && AllLegal(m.key) && WellPadded(m.padded)
      && WellFormed(m.padded.value)
  {
    PaddedParts(m.padded);
  }

  /** A string the helper takes, and the string it stands for. */
  predicate GoodString(v: Value)
    requires WellFormed(v)
  {
    v.Str? && (StrParts(v); AllAdmitted(v.units))
  }

  function StringOf(v: Value): string
    requires WellFormed(v) && GoodString(v)
  {
    StrParts(v);
    Meaning(v.units)
  }

  function Text(v: Value): (s: string)
    requires WellFormed(v)
    decreases v, 0
  {
    match v
    case Str(us) => StringText(us)
    case Num(text) => text
    case Word(w) => w
    case EmptyArray(inner) => "[" + inner + "]"
    case Array(items) => "[" + ItemsText(items) + "]"
    case EmptyObject(inner) => "{" + inner + "}"
    case Object(members) => "{" + MembersText(members) + "}"
  }

  function PaddedText(p: Padded): string
    requires WellPadded(p)
    decreases p, 0
  {
    p.before + Text(p.value) + p.after
  }

  function MemberText(m: Member): string
    requires WellNamed(m)
    decreases m, 0
  {
    m.before + StringText(m.key) + m.between + ":" + PaddedText(m.padded)
  }

  function ItemsText(items: seq<Padded>): string
    requires items != [] && forall i :: 0 <= i < |items| ==> WellPadded(items[i])
    decreases items, 0
  {
    PaddedText(items[0]) + if |items| == 1 then "" else "," + ItemsText(items[1..])
  }

  function MembersText(ms: seq<Member>): string
    requires ms != [] && forall i :: 0 <= i < |ms| ==> WellNamed(ms[i])
    decreases ms, 0
  {
    MemberText(ms[0]) + if |ms| == 1 then "" else "," + MembersText(ms[1..])
  }

  // ---- Skipping takes exactly one value -------------------------------------------------------

  predicate NumberEnds(rest: string) { rest == "" || !IsNumberChar(rest[0]) }

  lemma {:induction false} NumberIsSkipped(digits: string, rest: string)
    requires (forall i :: 0 <= i < |digits| ==> IsNumberChar(digits[i])) && NumberEnds(rest)
    ensures SkipNumber(digits + rest) == rest
  {
    if digits == "" {
      assert digits + rest == rest;
    } else {
      assert (digits + rest)[1..] == digits[1..] + rest;
      NumberIsSkipped(digits[1..], rest);
    }
  }

  lemma WordIsSkipped(w: string, rest: string)
    requires w in {"true", "false", "null"}
    ensures SkipWord(w + rest) == Some(rest) && (w + rest)[0] in "tfn"
  {
    var s := w + rest;
    assert s[..|w|] == w && s[|w|..] == rest;
    assert s[0] == w[0];
    assert w <= s;
  }

  /** Values begin with their own mark. */
  lemma FirstOfValue(v: Value)
    requires WellFormed(v)
    ensures var s := Text(v); s != "" && !IsSpace(s[0]) && s[0] !in ",]}:"
    ensures v.Str? <==> Text(v)[0] == '"'
    ensures v.Num? <==> Text(v)[0] == '-' || IsDigit(Text(v)[0])
    ensures v.Array? || v.EmptyArray? <==> Text(v)[0] == '['
    ensures v.Object? || v.EmptyObject? <==> Text(v)[0] == '{'
  {
    hide Content, ItemsText, MembersText;
  }

  lemma ScalarIsSkipped(v: Value, rest: string)
    requires WellFormed(v) && (v.Str? || v.Num? || v.Word?) && (v.Num? ==> NumberEnds(rest))
    ensures ValueAt(Text(v) + rest) == if Readable(v) then Some(rest) else None
  {
    hide SkipObject, SkipArray, ParseString, SkipWord, SkipNumber, StringText, Admitted, Legal;
    var s := Text(v) + rest;
    FirstOfValue(v);
    match v
    case Str(us) =>
      StringIsRead("", us, rest);
      assert "" + StringText(us) + rest == s;
    case Num(text) =>
      assert s[1..] == text[1..] + rest;
      NumberIsSkipped(text[1..], rest);
    case Word(w) => WordIsSkipped(w, rest);
  }

  lemma EmptyIsSkipped(v: Value, rest: string)
    requires WellFormed(v) && (v.EmptyArray? || v.EmptyObject?)
    ensures ValueAt(Text(v) + rest) == Some(rest)
  {
    hide SkipMembers, SkipElements, SkipSpace, AllSpace;
    var s := Text(v) + rest;
    NoSpace(s);
    if v.EmptyArray? {
      assert s[1..] == v.inner + [']'] + rest;
      MarkIsRead(v.inner, ']', rest);
    } else {
      assert s[1..] == v.inner + ['}'] + rest;
      MarkIsRead(v.inner, '}', rest);
    }
  }

  /** A value is skipped as a whole, whatever follows it; with a refused string in it, the helper dies. */
  lemma {:induction false} ValueIsSkipped(v: Value, rest: string)
    requires WellFormed(v) && (v.Num? ==> NumberEnds(rest))
    ensures SkipValue(Text(v) + rest) == if Readable(v) then Some(rest) else None
    decreases v, 1
  {
    hide SkipSpace, ValueAt, Text, Readable;
    FirstOfValue(v);
    var s := Text(v) + rest;
    NoSpace(s);
    match v
    case Array(items) => ArrayIsSkipped(items, rest);
    case Object(members) => ObjectIsSkipped(members, rest);
    case EmptyArray(_) => EmptyIsSkipped(v, rest); EmptyIsReadable(v);
    case EmptyObject(_) => EmptyIsSkipped(v, rest); EmptyIsReadable(v);
    case _ => ScalarIsSkipped(v, rest);
  }

  lemma EmptyIsReadable(v: Value)
    requires WellFormed(v) && (v.EmptyArray? || v.EmptyObject?)
    ensures Readable(v)
  {
  }

  lemma ArrayText(items: seq<Padded>)
    requires WellFormed(Array(items))
    ensures items != [] && (forall i :: 0 <= i < |items| ==> WellPadded(items[i]))
    ensures Text(Array(items)) == "[" + ItemsText(items) + "]"
    ensures Readable(Array(items)) <==> forall i :: 0 <= i < |items| ==> ReadablePadded(items[i])
  {
    hide ItemsText, WellPadded, ReadablePadded;
  }

  lemma ObjectText(ms: seq<Member>)
    requires WellFormed(Object(ms))
    ensures ms != [] && (forall i :: 0 <= i < |ms| ==> WellNamed(ms[i]))
    ensures Text(Object(ms)) == "{" + MembersText(ms) + "}"
    ensures Readable(Object(ms)) <==> forall i :: 0 <= i < |ms| ==> ReadableMember(ms[i])
  {
    hide MembersText, WellNamed, ReadableMember;
  }

  lemma OpenedArray(t: string)
    requires !NextIs(t, ']')
    ensures ValueAt("[" + t) == SkipElements(t)
  {
    hide SkipElements, NextIs, SkipSpace;
    NoSpace("[" + t);
    assert ("[" + t)[1..] == t;
  }

  lemma OpenedObject(t: string)
    requires !NextIs(t, '}')
    ensures ValueAt("{" + t) == SkipMembers(t)
  {
    hide SkipMembers, NextIs, SkipSpace;
    NoSpace("{" + t);
    assert ("{" + t)[1..] == t;
  }

  lemma {:induction false} ArrayIsSkipped(items: seq<Padded>, rest: string)
    requires WellFormed(Array(items))
    ensures ValueAt(Text(Array(items)) + rest) == if Readable(Array(items)) then Some(rest) else None
    decreases items, 2
  {
    hide *;
    ArrayText(items);
    var t := ItemsText(items) + "]" + rest;
    assert t == ItemsText(items) + ("]" + rest);
    FirstOfItems(items, "]" + rest);
    OpenedArray(t);
    assert Text(Array(items)) + rest == "[" + t;
    ItemsAreSkipped(items, rest);
  }

  lemma {:induction false} ObjectIsSkipped(ms: seq<Member>, rest: string)
    requires WellFormed(Object(ms))
    ensures ValueAt(Text(Object(ms)) + rest) == if Readable(Object(ms)) then Some(rest) else None
    decreases ms, 2
  {
    hide *;
    ObjectText(ms);
    var t := MembersText(ms) + "}" + rest;
    assert t == MembersText(ms) + ("}" + rest);
    FirstOfMembers(ms, "}" + rest);
    OpenedObject(t);
    assert Text(Object(ms)) + rest == "{" + t;
    MembersAreSkipped(ms, rest);
  }

  lemma FirstOfPadded(p: Padded, rest: string)
    requires WellPadded(p)
    ensures !NextIs(PaddedText(p) + rest, ']')
  {
    hide SkipSpace, Text, AllSpace, WellFormed;
    var t := Text(p.value) + (p.after + rest);
    assert PaddedText(p) + rest == p.before + t;
    FirstOfValue(p.value);
    LeadingSpace(p.before, t);
    NoSpace(t);
  }

  /** Items begin with a value, so an array with items is not taken for an empty one. */
  lemma FirstOfItems(items: seq<Padded>, rest: string)
    requires items != [] && forall i :: 0 <= i < |items| ==> WellPadded(items[i])
    ensures !NextIs(ItemsText(items) + rest, ']')
  {
    hide *;
    var more := ItemsHead(items);
    FirstOfPadded(items[0], more + rest);
    assert (PaddedText(items[0]) + more) + rest == PaddedText(items[0]) + (more + rest);
  }

  lemma ItemsHead(items: seq<Padded>) returns (more: string)
    requires items != [] && forall i :: 0 <= i < |items| ==> WellPadded(items[i])
    ensures ItemsText(items) == PaddedText(items[0]) + more
  {
    hide PaddedText, WellPadded;
    more := if |items| == 1 then "" else "," + ItemsText(items[1..]);
  }

  lemma FirstOfMember(m: Member, rest: string)
    requires WellNamed(m)
    ensures !NextIs(MemberText(m) + rest, '}')
  {
    hide SkipSpace, Content, AllSpace, PaddedText, WellPadded, Legal;
    var t := StringText(m.key) + (m.between + ":" + PaddedText(m.padded) + rest);
    assert MemberText(m) + rest == m.before + t;
    LeadingSpace(m.before, t);
    NoSpace(t);
  }

  lemma FirstOfMembers(ms: seq<Member>, rest: string)
    requires ms != [] && forall i :: 0 <= i < |ms| ==> WellNamed(ms[i])
    ensures !NextIs(MembersText(ms) + rest, '}')
  {
    hide *;
    var more := MembersHead(ms);
    FirstOfMember(ms[0], more + rest);
    assert (MemberText(ms[0]) + more) + rest == MemberText(ms[0]) + (more + rest);
  }

  lemma MembersHead(ms: seq<Member>) returns (more: string)
    requires ms != [] && forall i :: 0 <= i < |ms| ==> WellNamed(ms[i])
    ensures MembersText(ms) == MemberText(ms[0]) + more
  {
    hide MemberText, WellNamed;
    more := if |ms| == 1 then "" else "," + MembersText(ms[1..]);
  }

  /** A value with space around it, followed by a mark that ends it. */
  lemma {:induction false} PaddedIsSkipped(p: Padded, c: char, rest: string)
    requires WellPadded(p) && c in ",]}"
    ensures var r := SkipValue(PaddedText(p) + ([c] + rest));
      if ReadablePadded(p) then r == Some(p.after + [c] + rest) else r == None
    decreases p, 2
  {
    hide SkipSpace, Text, Readable, ValueAt, WellFormed;
    var tail := p.after + [c] + rest;
    var t := Text(p.value) + tail;
    assert PaddedText(p) + ([c] + rest) == p.before + t;
    LeadingSpace(p.before, t);
    SpaceThenMark(p.after, c, rest);
    ValueIsSkipped(p.value, tail);
  }

  lemma SpaceThenMark(ws: string, c: char, rest: string)
    requires AllSpace(ws) && c in ",]}"
    ensures NumberEnds(ws + [c] + rest)
  {
    if ws == "" { assert (ws + [c] + rest)[0] == c; } else { assert (ws + [c] + rest)[0] == ws[0]; }
  }

  /** An item and the mark after it. */
  lemma {:induction false} ItemIsSkipped(p: Padded, c: char, tail: string)
    requires WellPadded(p) && c in ",]"
    ensures SkipElements(PaddedText(p) + ([c] + tail)) ==
      if !ReadablePadded(p) then None else if c == ',' then SkipElements(tail) else Some(tail)
    decreases p, 3
  {
    hide SkipValue, SkipSpace, PaddedText, WellPadded, ReadablePadded, NextIs, AllSpace, WellFormed;
    PaddedParts(p);
    PaddedIsSkipped(p, c, tail);
    MarkIsRead(p.after, c, tail);
  }

  lemma {:induction false} ItemsAreSkipped(items: seq<Padded>, rest: string)
    requires items != [] && forall i :: 0 <= i < |items| ==> WellPadded(items[i])
    ensures var ok := forall i :: 0 <= i < |items| ==> ReadablePadded(items[i]);
      SkipElements(ItemsText(items) + "]" + rest) == if ok then Some(rest) else None
    decreases items, 1
  {
    hide SkipElements, PaddedText, WellPadded, ReadablePadded;
    var p, s := items[0], ItemsText(items) + "]" + rest;
    if |items| == 1 {
      assert s == PaddedText(p) + ([']'] + rest);
      ItemIsSkipped(p, ']', rest);
    } else {
      var tail := ItemsText(items[1..]) + "]" + rest;
      assert s == PaddedText(p) + ([','] + tail);
      ItemIsSkipped(p, ',', tail);
      ItemsAreSkipped(items[1..], rest);
      assert forall i :: 1 <= i < |items| ==> items[i] == items[1..][i - 1];
    }
  }

  /** The key and the colon of a member. */
  lemma KeyIsRead(m: Member, rest: string)
    requires WellNamed(m)
    ensures var s := MemberText(m) + rest;
      var key := ParseString(s);
      && (key.Parsed? <==> AllAdmitted(m.key))
      && (key.Parsed? ==> key.value == Meaning(m.key) && Expect(key.rest, ':') == Some(PaddedText(m.padded) + rest))
    ensures AllSpace(m.padded.after) && WellPadded(m.padded)
  {
    hide ParseString, SkipSpace, StringText, Meaning, PaddedText, AllSpace, Admitted, Legal, WellFormed, Expect;
    var t := PaddedText(m.padded) + rest;
    var tail := m.between + [':'] + t;
    assert MemberText(m) + rest == m.before + StringText(m.key) + tail;
    StringIsRead(m.before, m.key, tail);
    MarkIsRead(m.between, ':', t);
  }

  /** A member and the mark after it. */
  lemma {:induction false} MemberStep(m: Member, c: char, tail: string)
    requires WellNamed(m) && c in ",}"
    ensures SkipMembers(MemberText(m) + ([c] + tail)) ==
      if !ReadableMember(m) then None else if c == ',' then SkipMembers(tail) else Some(tail)
    decreases m, 1
  {
    hide SkipValue, SkipSpace, PaddedText, MemberText, WellPadded, WellNamed, ReadablePadded, NextIs, AllSpace,
      ParseString, Expect,
      AllAdmitted, Meaning, WellFormed;
    MemberParts(m);
    KeyIsRead(m, [c] + tail);
    MemberIsSkipped(m, c, tail);
    MarkIsRead(m.padded.after, c, tail);
  }

  lemma {:induction false} MembersAreSkipped(ms: seq<Member>, rest: string)
    requires ms != [] && forall i :: 0 <= i < |ms| ==> WellNamed(ms[i])
    ensures var ok := forall i :: 0 <= i < |ms| ==> ReadableMember(ms[i]);
      SkipMembers(MembersText(ms) + "}" + rest) == if ok then Some(rest) else None
    decreases ms, 1
  {
    hide SkipMembers, MemberText, WellNamed, ReadableMember;
    var m, s := ms[0], MembersText(ms) + "}" + rest;
    if |ms| == 1 {
      assert s == MemberText(m) + (['}'] + rest);
      MemberStep(m, '}', rest);
    } else {
      var tail := MembersText(ms[1..]) + "}" + rest;
      assert s == MemberText(m) + ([','] + tail);
      MemberStep(m, ',', tail);
      MembersAreSkipped(ms[1..], rest);
      assert forall i :: 1 <= i < |ms| ==> ms[i] == ms[1..][i - 1];
    }
  }

  lemma {:induction false} MemberIsSkipped(m: Member, c: char, rest: string)
    requires WellNamed(m) && c in ",]}"
    ensures WellPadded(m.padded)
    ensures var r := SkipValue(PaddedText(m.padded) + ([c] + rest));
      if ReadablePadded(m.padded) then r == Some(m.padded.after + [c] + rest) else r == None
    decreases m, 0
  {
    hide SkipValue, PaddedText, ReadablePadded;
    PaddedIsSkipped(m.padded, c, rest);
  }
}
