/**
 * The helper's launch spec (packages/sandbox-vm-native/src/vm-helper.c, parse_launch_spec):
 * one pass over the members of a JSON object, and the checks afterwards.
 */
module LaunchSpec {
  import opened Prelude
  import opened Decimal
  import opened JsonScanner
  import opened JsonDocument
  import Folds

  datatype Spec = Spec(
    rootfsPath: string, skillBlockPath: string, caBlockPath: string, vsockPort: nat, vsockHostSocket: string,
    cpus: nat, memMib: nat, bootstrapPath: string, bootstrapArgv: seq<string>, trustedEnv: seq<string>)

  /** The fields read so far. */
  datatype Draft = Draft(texts: map<string, string>, numbers: map<string, nat>, argv: seq<string>, env: seq<string>)

  const EMPTY: Draft := Draft(map[], map[], [], [])
  const MAX_ARGV: nat := 16
  const MAX_ENV: nat := 128

  predicate IsTextKey(k: string) {
    k == "rootfsPath" || k == "skillBlockPath" || k == "caBlockPath" || k == "vsockHostSocket" || k == "bootstrapPath"
  }

  predicate IsNumberKey(k: string) { k == "vsockPort" || k == "cpus" || k == "memMib" }

  predicate IsKnown(k: string) { IsTextKey(k) || IsNumberKey(k) || k == "bootstrapArgv" || k == "trustedEnv" }

  function Limit(k: string): (n: nat)
    ensures n <= 0xFFFF_FFFF
  {
    if k == "cpus" then 0xFF else 0xFFFF_FFFF
  }

  /** strchr finds a '=' that is not the first character. */
  predicate IsEnvEntry(e: string) { e != "" && e[0] != '=' && '=' in e }

  predicate ListItemOk(isEnv: bool, item: string) { isEnv ==> IsEnvEntry(item) }

  function Cap(isEnv: bool): nat { if isEnv then MAX_ENV else MAX_ARGV }

  // ---- The parser -----------------------------------------------------------------------

  /** The loop of parse_bootstrap_argv and parse_trusted_env, after the items in `have`. */
  function ParseItems(s: string, have: seq<string>, isEnv: bool): (r: Parsed<seq<string>>)
    ensures r.Parsed? ==> |r.rest| < |s|
    decreases |s|
  {
    if |have| >= Cap(isEnv) then Died
    else
      var item := ParseString(s);
      if item.Died? || !ListItemOk(isEnv, item.value) then Died
      else if NextIs(item.rest, ',') then ParseItems(SkipSpace(item.rest)[1..], have + [item.value], isEnv)
      else if NextIs(item.rest, ']') then Parsed(have + [item.value], SkipSpace(item.rest)[1..])
      else Died
  }

  function ParseList(s: string, have: seq<string>, isEnv: bool): (r: Parsed<seq<string>>)
    ensures r.Parsed? ==> |r.rest| < |s|
  {
    var t := Expect(s, '[');
    if t.None? then Died
    else if NextIs(t.value, ']') then
      if isEnv then Parsed(have, SkipSpace(t.value)[1..]) else Died
    else ParseItems(t.value, have, isEnv)
  }

  /** The value of one member, by its key. */
  function ParseField(key: string, s: string, d: Draft): (r: Parsed<Draft>)
    ensures r.Parsed? ==> |r.rest| < |s|
  {
    if IsTextKey(key) then
      var v := ParseString(s);
      if v.Died? then Died else Parsed(d.(texts := d.texts[key := v.value]), v.rest)
    else if IsNumberKey(key) then
      var v := ParseU64(s);
      if v.Died? || v.value == 0 || v.value > Limit(key) then Died
      else Parsed(d.(numbers := d.numbers[key := v.value]), v.rest)
    else if key == "bootstrapArgv" then
      var v := ParseList(s, d.argv, false);
      if v.Died? then Died else Parsed(d.(argv := v.value), v.rest)
    else if key == "trustedEnv" then
      var v := ParseList(s, d.env, true);
      if v.Died? then Died else Parsed(d.(env := v.value), v.rest)
    else
      var rest := SkipValue(s);
      if rest.None? then Died else Parsed(d, rest.value)
  }

  function ParseFields(s: string, d: Draft): (r: Parsed<Draft>)
    decreases |s|
  {
    var key := ParseString(s);
    if key.Died? then Died
    else
      var t := Expect(key.rest, ':');
      if t.None? then Died
      else
        var v := ParseField(key.value, t.value, d);
        if v.Died? then Died
        else if NextIs(v.rest, ',') then ParseFields(SkipSpace(v.rest)[1..], v.value)
        else if NextIs(v.rest, '}') then Parsed(v.value, SkipSpace(v.rest)[1..])
        else Died
  }

  /** strstr(p, "..") */
  predicate HasDotDot(p: string) { exists i :: 0 <= i < |p| - 1 && p[i] == '.' && p[i + 1] == '.' }

  predicate IsPlainPath(p: string) { p != "" && p[0] == '/' && !HasDotDot(p) }

  predicate Complete(d: Draft) {
    && (forall k :: k in {"rootfsPath", "skillBlockPath", "caBlockPath", "vsockHostSocket", "bootstrapPath"} ==>
      k in d.texts)
    && (forall k :: k in {"vsockPort", "cpus", "memMib"} ==> k in d.numbers)
  }

  function SpecOf(d: Draft): Spec
    requires Complete(d)
  {
    Spec(d.texts["rootfsPath"], d.texts["skillBlockPath"], d.texts["caBlockPath"], d.numbers["vsockPort"],
         d.texts["vsockHostSocket"], d.numbers["cpus"], d.numbers["memMib"], d.texts["bootstrapPath"], d.argv, d.env)
  }

  predicate PathsArePlain(s: Spec) {
    && IsPlainPath(s.rootfsPath) && IsPlainPath(s.skillBlockPath) && IsPlainPath(s.caBlockPath)
    && IsPlainPath(s.vsockHostSocket) && IsPlainPath(s.bootstrapPath)
  }

  predicate ArgvIsTheBlob(s: Spec) {
    |s.bootstrapArgv| == 1 && s.bootstrapArgv[0] != s.bootstrapPath && s.bootstrapArgv[0] != ""
  }

  /** The checks after the pass. */
  function Finish(d: Draft): Option<Spec> {
    if !Complete(d) then None
    else
      var s := SpecOf(d);
      if PathsArePlain(s) && ArgvIsTheBlob(s) then Some(s) else None
  }

  function ParseSpec(s: string): Option<Spec> {
    var t := Expect(s, '{');
    if t.None? || NextIs(t.value, '}') then None
    else
      var d := ParseFields(t.value, EMPTY);
      if d.Died? || SkipSpace(d.rest) != "" then None else Finish(d.value)
  }

  // ---- The parser's loops ------------------------------------------------------------------

  method ReadItems(s: Scanner, have: seq<string>, isEnv: bool) returns (r: Option<seq<string>>)
    requires s.Valid()
    modifies s`cur
    ensures s.Valid() && (r.Some? <==> ParseItems(old(s.Left()), have, isEnv).Parsed?)
    ensures r.Some? ==> s.cur > old(s.cur) && ParseItems(old(s.Left()), have, isEnv) == Parsed(r.value, s.Left())
  {
    hide SkipSpace, ParseString, IsEnvEntry, NextIs, Scanner.Left;
    ghost var start := s.Left();
    var items := have;
    while true
      invariant s.Valid() && s.cur >= old(s.cur) && ParseItems(start, have, isEnv) == ParseItems(s.Left(), items, isEnv)
      decreases |s.text| - s.cur
    {
      if |items| >= Cap(isEnv) { return None; }
      var item := s.ParseStringDup();
      if item.None? || !ListItemOk(isEnv, item.value) { return None; }
      items := items + [item.value];
      var c := s.Peek();
      if c == Some(',') { s.Take(); continue; }
      if c == Some(']') { s.Take(); return Some(items); }
      return None;
    }
  }

  method ReadList(s: Scanner, have: seq<string>, isEnv: bool) returns (r: Option<seq<string>>)
    requires s.Valid()
    modifies s`cur
    ensures s.Valid() && (r.Some? <==> ParseList(old(s.Left()), have, isEnv).Parsed?)
    ensures r.Some? ==> s.cur > old(s.cur) && ParseList(old(s.Left()), have, isEnv) == Parsed(r.value, s.Left())
  {
    hide SkipSpace, ParseItems, Expect, NextIs, Scanner.Left;
    var ok := s.ExpectChar('[');
    if !ok { return None; }
    ghost var t := s.Left();
    ItemsAfterSpace(t, have, isEnv);
    var c := s.Peek();
    if c == Some(']') {
      s.Take();
      return if isEnv then Some(have) else None;
    }
    r := ReadItems(s, have, isEnv);
  }

  lemma ItemsAfterSpace(s: string, have: seq<string>, isEnv: bool)
    ensures ParseItems(SkipSpace(s), have, isEnv) == ParseItems(s, have, isEnv)
  {
    hide SkipSpace, StringBody, Expect, NextIs, IsEnvEntry;
    ExpectAfterSpace(s, '"');
    assert ParseString(SkipSpace(s)) == ParseString(s);
  }

  method ReadField(s: Scanner, key: string, d: Draft) returns (r: Option<Draft>)
    requires s.Valid()
    modifies s`cur
    ensures s.Valid() && (r.Some? <==> ParseField(key, old(s.Left()), d).Parsed?)
    ensures r.Some? ==> s.cur > old(s.cur) && ParseField(key, old(s.Left()), d) == Parsed(r.value, s.Left())
  {
    hide ParseString, ParseU64, ParseList, SkipValue, Scanner.Left;
    if IsTextKey(key) {
      var v := s.ParseStringDup();
      if v.None? { return None; }
      return Some(d.(texts := d.texts[key := v.value]));
    }
    if IsNumberKey(key) {
      var v := s.ParseUnsigned();
      if v.None? || v.value == 0 || v.value > Limit(key) { return None; }
      return Some(d.(numbers := d.numbers[key := v.value]));
    }
    if key == "bootstrapArgv" {
      var v := ReadList(s, d.argv, false);
      if v.None? { return None; }
      return Some(d.(argv := v.value));
    }
    if key == "trustedEnv" {
      var v := ReadList(s, d.env, true);
      if v.None? { return None; }
      return Some(d.(env := v.value));
    }
    var ok := s.SkipAnyValue();
    return if ok then Some(d) else None;
  }

  method ReadFields(s: Scanner) returns (r: Option<Draft>)
    requires s.Valid()
    modifies s`cur
    ensures s.Valid() && (r.Some? <==> ParseFields(old(s.Left()), EMPTY).Parsed?)
    ensures r.Some? ==> ParseFields(old(s.Left()), EMPTY) == Parsed(r.value, s.Left())
  {
    hide SkipSpace, ParseString, Expect, ParseField, NextIs, Scanner.Left;
    var d := EMPTY;
    while true
      invariant s.Valid() && ParseFields(old(s.Left()), EMPTY) == ParseFields(s.Left(), d)
      decreases |s.text| - s.cur
    {
      var key := s.ParseStringDup();
      if key.None? { return None; }
      var ok := s.ExpectChar(':');
      if !ok { return None; }
      var next := ReadField(s, key.value, d);
      if next.None? { return None; }
      d := next.value;
      var c := s.Peek();
      if c == Some(',') { s.Take(); continue; }
      if c == Some('}') { s.Take(); return Some(d); }
      return None;
    }
  }

  lemma FieldsAfterSpace(s: string, d: Draft)
    ensures ParseFields(SkipSpace(s), d) == ParseFields(s, d)
  {
    hide SkipSpace, StringBody, Expect, NextIs, ParseField;
    ExpectAfterSpace(s, '"');
    assert ParseString(SkipSpace(s)) == ParseString(s);
  }

  /** parse_launch_spec */
  method ParseLaunchSpec(json: string) returns (r: Option<Spec>)
    ensures r == ParseSpec(json)
  {
    hide SkipSpace, Expect, ParseFields, Finish, NextIs, Scanner.Left;
    var s := new Scanner(json);
    var ok := s.ExpectChar('{');
    if !ok { return None; }
    ghost var t := s.Left();
    FieldsAfterSpace(t, EMPTY);
    var c := s.Peek();
    if c == Some('}') { return None; }
    var d := ReadFields(s);
    if d.None? { return None; }
    ok := s.AtEnd();
    if !ok { return None; }
    return Finish(d.value);
  }

  // ---- What a document means -----------------------------------------------------------------

  predicate AllDigits(s: string) { s != "" && forall i :: 0 <= i < |s| ==> IsDigit(s[i]) }

  predicate AllPadded(items: seq<Padded>) { forall i :: 0 <= i < |items| ==> WellPadded(items[i]) }

  /** An item that is a string the list takes. */
  predicate GoodItem(p: Padded, isEnv: bool)
    requires WellPadded(p)
  {
    PaddedParts(p);
    GoodString(p.value) && ListItemOk(isEnv, StringOf(p.value))
  }

  predicate GoodItems(items: seq<Padded>, isEnv: bool)
    requires AllPadded(items)
  {
    items == [] || (GoodItem(items[0], isEnv) && GoodItems(items[1..], isEnv))
  }

  function ItemString(p: Padded, isEnv: bool): string
    requires WellPadded(p) && GoodItem(p, isEnv)
  {
    PaddedParts(p);
    StringOf(p.value)
  }

  function ItemStrings(items: seq<Padded>, isEnv: bool): (r: seq<string>)
    requires AllPadded(items) && GoodItems(items, isEnv)
    ensures |r| == |items|
  {
    if items == [] then [] else [ItemString(items[0], isEnv)] + ItemStrings(items[1..], isEnv)
  }

  /** The strings of a list value; None when the helper dies on one. */
  function ListOf(v: Value, isEnv: bool): Option<seq<string>>
    requires WellFormed(v)
  {
    if v.EmptyArray? && isEnv then Some([])
    else if v.Array? then
      ArrayParts(v);
      if GoodItems(v.items, isEnv) then Some(ItemStrings(v.items, isEnv)) else None
    else None
  }

  /** Appended to what an earlier member of the same name gave. */
  function Extended(have: seq<string>, items: seq<string>, isEnv: bool): Option<seq<string>> {
    if items == [] then Some(have)
    else if |have| + |items| <= Cap(isEnv) then Some(have + items)
    else None
  }

  /** What a member does to the draft, told by its key and value alone. */
  datatype Effect =
    | SetText(textKey: string, text: string)
    | SetNumber(numberKey: string, number: nat)
    | AddItems(isEnv: bool, items: seq<string>)
    | NoEffect
    | Fatal

  function EffectOf(key: string, v: Value): Effect
    requires WellFormed(v)
  {
    if IsTextKey(key) then
      if GoodString(v) then SetText(key, StringOf(v)) else Fatal
    else if IsNumberKey(key) then
      if v.Num? && AllDigits(v.text) && 1 <= Decimal.Value(v.text) <= Limit(key)
      then SetNumber(key, Decimal.Value(v.text)) else Fatal
    else if key == "bootstrapArgv" || key == "trustedEnv" then
      var l := ListOf(v, key == "trustedEnv");
      if l.None? then Fatal else AddItems(key == "trustedEnv", l.value)
    else if Readable(v) then NoEffect
    else Fatal
  }

  function Apply(d: Draft, e: Effect): Option<Draft> {
    match e
    case SetText(k, v) => Some(d.(texts := d.texts[k := v]))
    case SetNumber(k, n) => Some(d.(numbers := d.numbers[k := n]))
    case AddItems(isEnv, items) =>
      var l := Extended(if isEnv then d.env else d.argv, items, isEnv);
      if l.None? then None else Some(if isEnv then d.(env := l.value) else d.(argv := l.value))
    case NoEffect => Some(d)
    case Fatal => None
  }

  function EvalField(d: Draft, key: string, v: Value): Option<Draft>
    requires WellFormed(v)
  {
    Apply(d, EffectOf(key, v))
  }

  function EvalMember(d: Draft, m: Member): Option<Draft>
    requires WellNamed(m)
  {
    MemberParts(m);
    if AllAdmitted(m.key) then EvalField(d, Meaning(m.key), m.padded.value) else None
  }

  predicate AllNamed(ms: seq<Member>) { forall i :: 0 <= i < |ms| ==> WellNamed(ms[i]) }

  function Eval(d: Draft, ms: seq<Member>): Option<Draft>
    requires AllNamed(ms)
    decreases |ms|
  {
    if ms == [] then Some(d)
    else
      var next := EvalMember(d, ms[0]);
      if next.None? then None else Eval(next.value, ms[1..])
  }

  // ---- Parsing a document is evaluating it -----------------------------------------------------

  lemma TextIsParsed(p: Padded, c: char, tail: string)
    requires WellPadded(p) && c in ",]}"
    ensures WellFormed(p.value)
    ensures var r := ParseString(PaddedText(p) + ([c] + tail));
      if GoodString(p.value) then r == Parsed(StringOf(p.value), p.after + [c] + tail) else r == Died
  {
    hide Text, StringText, StringBody, SkipSpace, AllSpace, Admitted, Legal, WellFormed, Meaning;
    PaddedParts(p);
    FirstOfValue(p.value);
    var s, rest := PaddedText(p) + ([c] + tail), p.after + [c] + tail;
    if p.value.Str? {
      TextOfStr(p.value);
      StringIsRead(p.before, p.value.units, rest);
      assert s == p.before + StringText(p.value.units) + rest;
    } else {
      var t := Text(p.value) + rest;
      assert s == p.before + t;
      LeadingSpace(p.before, t);
      NoSpace(t);
    }
  }

  lemma TextOfStr(v: Value)
    requires WellFormed(v) && v.Str?
    ensures AllLegal(v.units) && Text(v) == StringText(v.units)
  {
  }

  lemma TextOfNum(v: Value)
    requires WellFormed(v) && v.Num?
    ensures IsNumberText(v.text) && Text(v) == v.text
  {
  }

  lemma NotADigit(t: string)
    requires t != "" && !IsDigit(t[0])
    ensures DigitRun(t) == ""
  {
  }

  lemma DigitsThenRest(text: string, rest: string)
    requires AllDigits(text) && NumberEnds(rest)
    ensures DigitRun(text + rest) == text
  {
    DigitRunOf(text, rest);
  }

  /** No mark that could end a value comes next. */
  predicate Stuck(rest: string) {
    rest != "" && !IsSpace(rest[0]) && rest[0] !in ",]}"
  }

  lemma StuckAtMark(rest: string)
    requires Stuck(rest)
    ensures !NextIs(rest, ',') && !NextIs(rest, '}')
  {
    NoSpace(rest);
  }

  /** A number text that is not all digits leaves a character that nothing may follow. */
  lemma NotAllDigits(text: string, rest: string)
    requires IsNumberText(text) && !AllDigits(text)
    ensures var run := DigitRun(text + rest);
      |run| < |text| && Stuck((text + rest)[|run|..])
  {
    var s := text + rest;
    var run := DigitRun(s);
    RunOfDigits(text, rest);
    assert s[|run|] == text[|run|];
  }

  lemma RunOfDigits(text: string, rest: string)
    requires text != ""
    ensures |DigitRun(text + rest)| >= |text| ==> AllDigits(text)
  {
    var run := DigitRun(text + rest);
    if |run| >= |text| {
      forall i | 0 <= i < |text| ensures IsDigit(text[i]) {
        assert text[i] == (text + rest)[i] == run[i];
      }
    }
  }

  lemma UnsignedIsParsed(p: Padded, c: char, tail: string)
    requires WellPadded(p) && c in ",]}"
    ensures var r := ParseU64(PaddedText(p) + ([c] + tail));
      if p.value.Num? && AllDigits(p.value.text) then
        var v := Accumulated(p.value.text);
        if v.Some? then r == Parsed(v.value, p.after + [c] + tail) else r == Died
      else r.Died? || Stuck(r.rest)
  {
    hide Text, SkipSpace, AllSpace, WellFormed, DigitRun, Accumulated, AllDigits, IsNumberText, Stuck;
    PaddedParts(p);
    FirstOfValue(p.value);
    var s, rest := PaddedText(p) + ([c] + tail), p.after + [c] + tail;
    var t := Text(p.value) + rest;
    assert s == p.before + t;
    LeadingSpace(p.before, t);
    NoSpace(t);
    if p.value.Num? {
      TextOfNum(p.value);
      var text := p.value.text;
      if AllDigits(text) {
        SpaceThenMark(p.after, c, tail);
        DigitsThenRest(text, rest);
        AllAreDigits(text);
        assert t[|text|..] == rest;
      } else {
        NotAllDigits(text, rest);
      }
    } else {
      NotADigit(t);
    }
  }

  lemma NumberIsParsed(key: string, p: Padded, c: char, tail: string, d: Draft)
    requires IsNumberKey(key) && WellPadded(p) && c in ",]}"
    ensures var r := ParseField(key, PaddedText(p) + ([c] + tail), d);
      if p.value.Num? && AllDigits(p.value.text) then
        if 1 <= Decimal.Value(p.value.text) <= Limit(key)
        then r == Parsed(d.(numbers := d.numbers[key := Decimal.Value(p.value.text)]), p.after + [c] + tail)
        else r == Died
      else r.Died? || Stuck(r.rest)
  {
    hide PaddedText, WellPadded, ParseU64, Accumulated, AllDigits, Decimal.Value, Limit, Stuck;
    UnsignedIsParsed(p, c, tail);
    if p.value.Num? && AllDigits(p.value.text) {
      AllAreDigits(p.value.text);
      RangeCheckIsExact(p.value.text, Limit(key));
    }
  }

  lemma AllAreDigits(text: string)
    requires AllDigits(text)
    ensures text != "" && forall i :: 0 <= i < |text| ==> IsDigit(text[i])
  {
  }

  lemma ItemIsGood(p: Padded, isEnv: bool)
    requires WellPadded(p)
    ensures WellFormed(p.value)
    ensures GoodItem(p, isEnv) <==> GoodString(p.value) && ListItemOk(isEnv, StringOf(p.value))
    ensures GoodItem(p, isEnv) ==> ItemString(p, isEnv) == StringOf(p.value)
  {
    PaddedParts(p);
  }

  /** An item and the mark after it. */
  lemma ItemStep(p: Padded, have: seq<string>, isEnv: bool, c: char, tail: string)
    requires WellPadded(p) && c in ",]"
    ensures ParseItems(PaddedText(p) + ([c] + tail), have, isEnv) ==
      if |have| >= Cap(isEnv) || !GoodItem(p, isEnv) then Died
      else if c == ',' then ParseItems(tail, have + [ItemString(p, isEnv)], isEnv)
      else Parsed(have + [ItemString(p, isEnv)], tail)
  {
    hide SkipSpace, ParseString, PaddedText, WellPadded, AllSpace, GoodItem, ItemString, GoodString, StringOf,
      WellFormed, IsEnvEntry;
    PaddedParts(p);
    ItemIsGood(p, isEnv);
    TextIsParsed(p, c, tail);
    MarkIsRead(p.after, c, tail);
  }

  /** The items of a list are collected, or the helper dies on one that does not belong there. */
  lemma {:induction false} ItemsAreParsed(items: seq<Padded>, have: seq<string>, isEnv: bool, rest: string)
    requires items != [] && AllPadded(items)
    ensures ParseItems(ItemsText(items) + "]" + rest, have, isEnv) ==
      if GoodItems(items, isEnv) && |have| + |items| <= Cap(isEnv) then Parsed(have + ItemStrings(items, isEnv), rest)
        else Died
    decreases |items|
  {
    hide ParseItems, PaddedText, WellPadded, GoodItem, ItemString;
    var p, s := items[0], ItemsText(items) + "]" + rest;
    if |items| == 1 {
      assert s == PaddedText(p) + ([']'] + rest);
      ItemStep(p, have, isEnv, ']', rest);
      OneItem(items, isEnv);
    } else {
      var tail := ItemsText(items[1..]) + "]" + rest;
      assert s == PaddedText(p) + ([','] + tail);
      ItemStep(p, have, isEnv, ',', tail);
      if GoodItem(p, isEnv) {
        ItemsAreParsed(items[1..], have + [ItemString(p, isEnv)], isEnv, rest);
        if GoodItems(items[1..], isEnv) {
          assert have + [ItemString(p, isEnv)] + ItemStrings(items[1..], isEnv) == have + ItemStrings(items, isEnv);
        }
      }
    }
  }

  lemma OneItem(items: seq<Padded>, isEnv: bool)
    requires |items| == 1 && AllPadded(items)
    ensures GoodItems(items, isEnv) <==> GoodItem(items[0], isEnv)
    ensures GoodItems(items, isEnv) ==> ItemStrings(items, isEnv) == [ItemString(items[0], isEnv)]
  {
    hide GoodItem, ItemString;
  }

  /** The value in front of a mark, without the space before it. */
  lemma ValueInFront(p: Padded, c: char, tail: string) returns (t: string)
    requires WellPadded(p) && c in ",]}"
    ensures WellFormed(p.value)
    ensures t == Text(p.value) + (p.after + [c] + tail) && t != "" && SkipSpace(PaddedText(p) + ([c] + tail)) == t
    ensures p.value.Array? || p.value.EmptyArray? <==> t[0] == '['
  {
    hide Text, SkipSpace, AllSpace, WellFormed;
    PaddedParts(p);
    FirstOfValue(p.value);
    t := Text(p.value) + (p.after + [c] + tail);
    assert PaddedText(p) + ([c] + tail) == p.before + t;
    LeadingSpace(p.before, t);
    NoSpace(t);
  }

  lemma EmptyListIsParsed(v: Value, s: string, have: seq<string>, isEnv: bool, rest: string)
    requires WellFormed(v) && v.EmptyArray? && SkipSpace(s) == Text(v) + rest
    ensures ParseList(s, have, isEnv) == if isEnv then Parsed(have, rest) else Died
  {
    hide Text, SkipSpace, AllSpace, WellFormed, ParseItems, NextIs;
    TextOfEmpty(v);
    assert (Text(v) + rest)[1..] == v.inner + [']'] + rest;
    MarkIsRead(v.inner, ']', rest);
  }

  lemma FullListIsParsed(v: Value, s: string, have: seq<string>, isEnv: bool, rest: string)
    requires WellFormed(v) && v.Array? && SkipSpace(s) == Text(v) + rest
    ensures AllPadded(v.items) && v.items != []
    ensures ParseList(s, have, isEnv) ==
      if GoodItems(v.items, isEnv) && |have| + |v.items| <= Cap(isEnv)
        then Parsed(have + ItemStrings(v.items, isEnv), rest) else Died
  {
    hide Text, SkipSpace, WellFormed, ParseItems, ItemsText, GoodItems, ItemStrings, NextIs, WellPadded;
    TextOfArray(v);
    assert (Text(v) + rest)[1..] == ItemsText(v.items) + "]" + rest;
    assert ItemsText(v.items) + "]" + rest == ItemsText(v.items) + ("]" + rest);
    FirstOfItems(v.items, "]" + rest);
    ItemsAreParsed(v.items, have, isEnv, rest);
  }

  lemma ListIsParsed(p: Padded, have: seq<string>, isEnv: bool, c: char, tail: string)
    requires WellPadded(p) && c in ",]}"
    ensures WellFormed(p.value)
    ensures var r, l := ParseList(PaddedText(p) + ([c] + tail), have, isEnv), ListOf(p.value, isEnv);
      if l.Some? && Extended(have, l.value, isEnv).Some?
      then r == Parsed(Extended(have, l.value, isEnv).value, p.after + [c] + tail) else r == Died
  {
    hide Text, SkipSpace, WellFormed, ParseItems, GoodItems, ItemStrings, AllPadded, PaddedText, WellPadded, Cap,
      ParseList;
    var t := ValueInFront(p, c, tail);
    var s, rest := PaddedText(p) + ([c] + tail), p.after + [c] + tail;
    if p.value.EmptyArray? {
      EmptyListIsParsed(p.value, s, have, isEnv, rest);
    } else if p.value.Array? {
      FullListIsParsed(p.value, s, have, isEnv, rest);
    } else {
      NotAList(s, have, isEnv);
    }
  }

  lemma NotAList(s: string, have: seq<string>, isEnv: bool)
    requires SkipSpace(s) != "" && SkipSpace(s)[0] != '['
    ensures ParseList(s, have, isEnv) == Died
  {
    hide SkipSpace;
  }

  lemma TextOfEmpty(v: Value)
    requires WellFormed(v) && v.EmptyArray?
    ensures AllSpace(v.inner) && Text(v) == "[" + v.inner + "]"
  {
  }

  lemma TextOfArray(v: Value)
    requires WellFormed(v) && v.Array?
    ensures v.items != [] && AllPadded(v.items) && (forall i :: 0 <= i < |v.items| ==> WellPadded(v.items[i]))
    ensures Text(v) == "[" + ItemsText(v.items) + "]"
  {
  }

  /** The value of a member: what it means is stored, or the helper dies, here or at the next mark. */
  lemma FieldIsParsed(key: string, p: Padded, c: char, tail: string, d: Draft)
    requires WellPadded(p) && c in ",]}"
    ensures WellFormed(p.value)
    ensures var r, e := ParseField(key, PaddedText(p) + ([c] + tail), d), EvalField(d, key, p.value);
      if e.Some? then r == Parsed(e.value, p.after + [c] + tail)
      else r.Died? || Stuck(r.rest)
  {
    hide PaddedText, SkipSpace, WellFormed, ParseString, ParseU64, ParseList, SkipValue, ListOf, Extended, GoodString,
      StringOf, Readable,
      AllDigits, Decimal.Value, Stuck;
    PaddedParts(p);
    if IsTextKey(key) {
      TextIsParsed(p, c, tail);
    } else if IsNumberKey(key) {
      NumberIsParsed(key, p, c, tail, d);
    } else if key == "bootstrapArgv" {
      ListIsParsed(p, d.argv, false, c, tail);
    } else if key == "trustedEnv" {
      ListIsParsed(p, d.env, true, c, tail);
    } else {
      PaddedIsSkipped(p, c, tail);
      ReadableValue(p);
    }
  }

  lemma ReadableValue(p: Padded)
    requires WellPadded(p)
    ensures WellFormed(p.value) && (ReadablePadded(p) <==> Readable(p.value))
  {
  }

  /** A member and the mark after it. */
  lemma MemberIsParsed(m: Member, d: Draft, c: char, tail: string)
    requires WellNamed(m) && c in ",}"
    ensures var s := MemberText(m) + ([c] + tail);
      var e := EvalMember(d, m);
      ParseFields(s, d) ==
        if e.None? then Died else if c == ',' then ParseFields(tail, e.value) else Parsed(e.value, tail)
  {
    hide SkipSpace, ParseString, Expect, ParseField, EvalField, MemberText, PaddedText, WellNamed, WellPadded,
      WellFormed, AllAdmitted,
      Meaning, AllSpace, NextIs, Stuck;
    MemberParts(m);
    PaddedParts(m.padded);
    KeyIsRead(m, [c] + tail);
    MarkIsRead(m.padded.after, c, tail);
    if AllAdmitted(m.key) {
      FieldIsParsed(Meaning(m.key), m.padded, c, tail, d);
      var r := ParseField(Meaning(m.key), PaddedText(m.padded) + ([c] + tail), d);
      if r.Parsed? && EvalMember(d, m).None? { StuckAtMark(r.rest); }
    }
  }

  lemma {:induction false} FieldsAreParsed(ms: seq<Member>, d: Draft, rest: string)
    requires ms != [] && AllNamed(ms)
    ensures ParseFields(MembersText(ms) + "}" + rest, d) ==
      var e := Eval(d, ms); if e.None? then Died else Parsed(e.value, rest)
    decreases |ms|
  {
    hide ParseFields, EvalMember, MemberText, WellNamed;
    var s := MembersText(ms) + "}" + rest;
    if |ms| == 1 {
      assert s == MemberText(ms[0]) + (['}'] + rest);
      MemberIsParsed(ms[0], d, '}', rest);
      assert forall x :: Eval(x, ms[1..]) == Some(x);
    } else {
      var tail := MembersText(ms[1..]) + "}" + rest;
      assert s == MemberText(ms[0]) + ([','] + tail);
      MemberIsParsed(ms[0], d, ',', tail);
      var next := EvalMember(d, ms[0]);
      if next.Some? { FieldsAreParsed(ms[1..], next.value, rest); }
    }
  }

  /** What an object means to the helper. */
  function SpecIn(ms: seq<Member>): Option<Spec>
    requires AllNamed(ms)
  {
    var d := Eval(EMPTY, ms);
    if d.None? then None else Finish(d.value)
  }

  /** Parsing any JSON object, however it is laid out, gives what its members mean. */
  lemma DocumentIsParsed(before: string, ms: seq<Member>, after: string)
    requires AllSpace(before) && AllSpace(after) && ms != [] && AllNamed(ms)
    ensures ParseSpec(before + "{" + MembersText(ms) + "}" + after) == SpecIn(ms)
  {
    hide SkipSpace, ParseFields, Eval, MembersText, WellNamed, AllSpace, Finish, Expect;
    var s := before + "{" + MembersText(ms) + "}" + after;
    var t := MembersText(ms) + "}" + after;
    assert s == before + ['{'] + t;
    MarkIsRead(before, '{', t);
    assert t == MembersText(ms) + ("}" + after);
    FirstOfMembers(ms, "}" + after);
    FieldsAreParsed(ms, EMPTY, after);
    LeadingSpace(after, "");
    assert after + "" == after;
    NothingToSkip();
  }

  lemma NothingToSkip()
    ensures SkipSpace("") == ""
  {
  }

  // ---- Unknown members and the order of members ---------------------------------------------------

  /** One member as a step of a fold; texts that are no members are refused. */
  function Step(d: Draft, m: Member): Option<Draft> { if WellNamed(m) then EvalMember(d, m) else None }

  lemma {:induction false} EvalIsFold(d: Draft, ms: seq<Member>)
    requires AllNamed(ms)
    ensures Eval(d, ms) == Folds.Fold(Step, d, ms)
    decreases |ms|
  {
    hide EvalMember, WellNamed;
    if ms != [] {
      var next := EvalMember(d, ms[0]);
      if next.Some? { EvalIsFold(next.value, ms[1..]); }
    }
  }

  /** A member of another name, its strings being ones the helper takes. */
  predicate IsForeign(m: Member)
    requires WellNamed(m)
  {
    MemberParts(m);
    AllAdmitted(m.key) && !IsKnown(Meaning(m.key)) && Readable(m.padded.value)
  }

  lemma ForeignChangesNothing(d: Draft, m: Member)
    requires WellNamed(m) && IsForeign(m)
    ensures EvalMember(d, m) == Some(d)
  {
    hide WellNamed, AllAdmitted, Readable, Meaning, WellFormed;
    MemberParts(m);
  }

  /** Members of other names do not change the result, wherever they stand. */
  lemma ForeignIsIgnored(d: Draft, a: seq<Member>, m: Member, b: seq<Member>)
    requires AllNamed(a) && AllNamed(b) && WellNamed(m) && IsForeign(m)
    ensures AllNamed(a + [m] + b) && Eval(d, a + [m] + b) == Eval(d, a + b)
  {
    hide EvalMember, WellNamed, IsForeign, Eval;
    EvalIsFold(d, a + [m] + b);
    EvalIsFold(d, a + b);
    assert a + [m] + b == a + ([m] + b);
    Folds.FoldOfConcat(Step, d, a, [m] + b);
    Folds.FoldOfConcat(Step, d, a, b);
    var e := Folds.Fold(Step, d, a);
    if e.Some? {
      ForeignChangesNothing(e.value, m);
      Folds.FoldOfFirst(Step, e.value, m, b);
    }
  }

  predicate DifferentKeys(m: Member, n: Member)
    requires WellNamed(m) && WellNamed(n)
  {
    MemberParts(m);
    MemberParts(n);
    AllAdmitted(m.key) && AllAdmitted(n.key) ==> Meaning(m.key) != Meaning(n.key)
  }

  lemma UpdatesCommute<V>(f: map<string, V>, k: string, v: V, l: string, w: V)
    requires k != l
    ensures f[k := v][l := w] == f[l := w][k := v]
  {
  }

  /** Effects on different fields. */
  predicate Apart(e: Effect, f: Effect) {
    && (e.SetText? && f.SetText? ==> e.textKey != f.textKey)
    && (e.SetNumber? && f.SetNumber? ==> e.numberKey != f.numberKey)
    && (e.AddItems? && f.AddItems? ==> e.isEnv != f.isEnv)
  }

  lemma EffectsCommute(d: Draft, e: Effect, f: Effect)
    requires Apart(e, f)
    ensures var a, b := Apply(d, e), Apply(d, f);
      (if a.None? then None else Apply(a.value, f)) == (if b.None? then None else Apply(b.value, e))
  {
    if e.SetText? && f.SetText? { UpdatesCommute(d.texts, e.textKey, e.text, f.textKey, f.text); }
    if e.SetNumber? && f.SetNumber? { UpdatesCommute(d.numbers, e.numberKey, e.number, f.numberKey, f.number); }
  }

  lemma FieldsAreApart(k: string, v: Value, l: string, w: Value)
    requires WellFormed(v) && WellFormed(w) && k != l
    ensures Apart(EffectOf(k, v), EffectOf(l, w))
  {
    hide WellFormed, GoodString, StringOf, Decimal.Value, AllDigits, ListOf, Readable, Limit;
  }

  lemma MembersCommute(d: Draft, m: Member, n: Member)
    requires WellNamed(m) && WellNamed(n) && DifferentKeys(m, n)
    ensures var a, b := EvalMember(d, m), EvalMember(d, n);
      (if a.None? then None else EvalMember(a.value, n)) == (if b.None? then None else EvalMember(b.value, m))
  {
    hide WellNamed, WellFormed, AllAdmitted, Meaning, EffectOf, Apply, Apart;
    MemberParts(m);
    MemberParts(n);
    if AllAdmitted(m.key) && AllAdmitted(n.key) {
      var e, f := EffectOf(Meaning(m.key), m.padded.value), EffectOf(Meaning(n.key), n.padded.value);
      FieldsAreApart(Meaning(m.key), m.padded.value, Meaning(n.key), n.padded.value);
      EffectsCommute(d, e, f);
    }
  }

  ghost predicate DistinctKeys(ms: seq<Member>)
    requires AllNamed(ms)
  {
    forall i, j :: 0 <= i < j < |ms| ==> DifferentKeys(ms[i], ms[j])
  }

  /** Members with different names may come in any order. */
  lemma OrderDoesNotMatter(d: Draft, ms: seq<Member>, ns: seq<Member>)
    requires AllNamed(ms) && AllNamed(ns) && DistinctKeys(ms) && multiset(ms) == multiset(ns)
    ensures Eval(d, ms) == Eval(d, ns)
  {
    hide EvalMember, WellNamed, DifferentKeys, Eval;
    EvalIsFold(d, ms);
    EvalIsFold(d, ns);
    forall i, j | 0 <= i < j < |ms| ensures Folds.Commute(Step, ms[i], ms[j]) {
      StepsCommute(ms[i], ms[j]);
    }
    Folds.OrderDoesNotMatter(Step, d, ms, ns);
  }

  lemma StepsCommute(m: Member, n: Member)
    requires WellNamed(m) && WellNamed(n) && DifferentKeys(m, n)
    ensures Folds.Commute(Step, m, n)
  {
    hide EvalMember, WellNamed, DifferentKeys;
    forall d ensures Folds.Two(Step, d, m, n) == Folds.Two(Step, d, n, m) {
      MembersCommute(d, m, n);
    }
  }
}
