/**
 * The printer half of the launch spec (packages/sandbox-vm-native/src/helper-launch-spec.ts,
 * buildHelperLaunchSpec) against the helper that reads it.
 */
module HelperLaunchSpec {
  import opened Prelude
  import opened Decimal
  import opened ByteText
  import opened JsonText
  import opened JsonScanner
  import opened JsonDocument
  import opened LaunchSpec
  import Base64Url

  // ---- JSON.stringify ---------------------------------------------------------------------

  /** The kinds of values a launch spec has. */
  datatype Js = JsString(s: string) | JsNumber(n: nat) | JsStrings(items: seq<string>)
  datatype Property = Property(name: string, value: Js)

  function Joined(items: seq<string>): string {
    if items == [] then "" else Stringified(items[0]) + if |items| == 1 then "" else "," + Joined(items[1..])
  }

  function StringifyValue(v: Js): string {
    match v
    case JsString(s) => Stringified(s)
    case JsNumber(n) => Numeral(n)
    case JsStrings(items) => "[" + Joined(items) + "]"
  }

  function StringifyProperties(ps: seq<Property>): string {
    if ps == [] then ""
    else Stringified(ps[0].name) + ":" + StringifyValue(ps[0].value) + if |ps| == 1 then ""
      else "," + StringifyProperties(ps[1..])
  }

  /** The object literal of buildHelperLaunchSpec, in the order of its properties. */
  function Properties(s: Spec): (ps: seq<Property>)
    ensures |ps| == 10
  {
    [Property("rootfsPath", JsString(s.rootfsPath)), Property("skillBlockPath", JsString(s.skillBlockPath)),
     Property("caBlockPath", JsString(s.caBlockPath)), Property("vsockPort", JsNumber(s.vsockPort)),
     Property("vsockHostSocket", JsString(s.vsockHostSocket)), Property("cpus", JsNumber(s.cpus)),
     Property("memMib", JsNumber(s.memMib)), Property("bootstrapPath", JsString(s.bootstrapPath)),
     Property("bootstrapArgv", JsStrings(s.bootstrapArgv)), Property("trustedEnv", JsStrings(s.trustedEnv))]
  }

  function Stringify(s: Spec): string { "{" + StringifyProperties(Properties(s)) + "}" }

  predicate HasNul(s: string) { exists i :: 0 <= i < |s| && s[i] as int == 0 }

  predicate PathFieldOk(p: string) { IsPlainPath(p) && !HasNul(p) }

  /** The checks of buildHelperLaunchSpec; cpus and memMib are not checked. */
  predicate BuilderAccepts(s: Spec) {
    && PathFieldOk(s.rootfsPath) && PathFieldOk(s.skillBlockPath) && PathFieldOk(s.caBlockPath)
    && PathFieldOk(s.vsockHostSocket) && PathFieldOk(s.bootstrapPath)
    && 0 < s.vsockPort <= 0xFFFF_FFFF
    && |s.bootstrapArgv| == 1 && s.bootstrapArgv[0] != s.bootstrapPath && s.bootstrapArgv[0] != ""
      && !HasNul(s.bootstrapArgv[0])
    && forall i :: 0 <= i < |s.trustedEnv| ==> !HasNul(s.trustedEnv[i])
  }

  // ---- The printed text as a document --------------------------------------------------------

  /** A control character without a short escape, which the helper refuses. */
  predicate IsOdd(c: char) { c < ' ' && !HasShortEscape(c) }

  predicate HasOdd(s: string) { exists i :: 0 <= i < |s| && IsOdd(s[i]) }

  function UnitOf(c: char): Unit {
    if c as int == 8 then Short('b') else if c == '\t' then Short('t') else if c == '\n' then Short('n')
    else if c as int == 12 then Short('f') else if c == '\r' then Short('r')
    else if c == '"' then Short('"') else if c == '\\' then Short('\\')
    else if c < ' ' then Hex(LongEscape(c)[2..])
    else Raw(c)
  }

  function Units(s: string): (us: seq<Unit>)
    ensures |us| == |s|
  {
    if s == "" then [] else [UnitOf(s[0])] + Units(s[1..])
  }

  lemma UnitOfChar(c: char)
    ensures Legal(UnitOf(c)) && UnitText(UnitOf(c)) == Escape(c)
    ensures Admitted(UnitOf(c)) <==> !IsOdd(c)
    ensures !IsOdd(c) ==> UnitMeaning(UnitOf(c)) == c
  {
    if c < ' ' && !HasShortEscape(c) {
      var e := LongEscape(c);
      assert e == ['\\', 'u'] + e[2..];
      HexOfDigit(c as int / 16);
      HexOfDigit(c as int % 16);
    }
  }

  lemma HexOfDigit(d: nat)
    requires d < 16
    ensures IsHex(HexDigit(d)) && HexValue(HexDigit(d)) == d
  {
  }

  lemma {:induction false} UnitsAreText(s: string)
    ensures AllLegal(Units(s)) && Content(Units(s)) == Escaped(Escape, s) && StringText(Units(s)) == Stringified(s)
  {
    hide Escape, UnitOf, Legal, UnitText;
    if s != "" {
      UnitOfChar(s[0]);
      UnitsAreText(s[1..]);
      assert Units(s)[1..] == Units(s[1..]);
    }
  }

  lemma {:induction false} UnitsOfString(s: string)
    ensures AllLegal(Units(s)) && Content(Units(s)) == Escaped(Escape, s) && StringText(Units(s)) == Stringified(s)
    ensures AllAdmitted(Units(s)) <==> !HasOdd(s)
    ensures !HasOdd(s) ==> Meaning(Units(s)) == s
  {
    UnitsAreText(s);
    if s != "" {
      hide Escape, UnitOf, Legal, Admitted, UnitText, UnitMeaning, IsOdd, Content, Stringified, StringText, HasOdd,
        AllAdmitted, AllLegal;
      UnitOfChar(s[0]);
      UnitsOfString(s[1..]);
      OddParts(s);
      assert Units(s)[0] == UnitOf(s[0]) && Units(s)[1..] == Units(s[1..]);
      hide Units;
      AdmittedParts(Units(s));
      assert s == [s[0]] + s[1..];
    }
  }

  lemma OddParts(s: string)
    requires s != ""
    ensures HasOdd(s) <==> IsOdd(s[0]) || HasOdd(s[1..])
  {
    hide IsOdd;
    assert forall i :: 1 <= i < |s| ==> s[i] == s[1..][i - 1];
    if HasOdd(s[1..]) {
      var i :| 0 <= i < |s[1..]| && IsOdd(s[1..][i]);
      assert IsOdd(s[i + 1]);
    }
  }

  function StringItem(s: string): Padded { Padded("", Str(Units(s)), "") }

  function Items(ss: seq<string>): (ps: seq<Padded>)
    ensures |ps| == |ss| && forall i :: 0 <= i < |ss| ==> ps[i] == StringItem(ss[i])
  {
    seq(|ss|, i requires 0 <= i < |ss| => StringItem(ss[i]))
  }

  function ValueOf(v: Js): Value {
    match v
    case JsString(s) => Str(Units(s))
    case JsNumber(n) => Num(Numeral(n))
    case JsStrings(items) => if items == [] then EmptyArray("") else Array(Items(items))
  }

  function MemberOf(p: Property): Member { Member("", Units(p.name), "", Padded("", ValueOf(p.value), "")) }

  function MembersOf(ps: seq<Property>): (ms: seq<Member>)
    ensures |ms| == |ps| && forall i :: 0 <= i < |ps| ==> ms[i] == MemberOf(ps[i])
  {
    seq(|ps|, i requires 0 <= i < |ps| => MemberOf(ps[i]))
  }

  lemma StringItemText(s: string)
    ensures WellPadded(StringItem(s)) && PaddedText(StringItem(s)) == Stringified(s)
  {
    hide Units, StringText, Stringified, AllLegal;
    UnitsOfString(s);
    StrText(Units(s));
  }

  lemma StrText(us: seq<Unit>)
    requires AllLegal(us)
    ensures WellFormed(Str(us)) && Text(Str(us)) == StringText(us)
    ensures GoodString(Str(us)) <==> AllAdmitted(us)
    ensures AllAdmitted(us) ==> StringOf(Str(us)) == Meaning(us)
    ensures AllSpace("")
  {
  }

  lemma {:induction false} ItemsAreJoined(ss: seq<string>)
    requires ss != []
    ensures AllPadded(Items(ss)) && ItemsText(Items(ss)) == Joined(ss)
  {
    hide StringItem, Stringified, PaddedText, WellPadded;
    forall i | 0 <= i < |ss| ensures WellPadded(Items(ss)[i]) { StringItemText(ss[i]); }
    StringItemText(ss[0]);
    if |ss| > 1 {
      ItemsAreJoined(ss[1..]);
      assert Items(ss)[1..] == Items(ss[1..]);
    }
  }

  lemma NumberText(n: nat)
    ensures IsNumberText(Numeral(n)) && AllDigits(Numeral(n)) && Decimal.Value(Numeral(n)) == n
  {
    hide Numeral, Decimal.Value;
    ValueOfNumeral(n);
  }

  lemma ValueText(v: Js)
    ensures WellFormed(ValueOf(v)) && Text(ValueOf(v)) == StringifyValue(v)
  {
    hide Units, Items, Stringified, StringText, Numeral, IsNumberText, ItemsText, Joined, AllLegal, Content;
    match v
    case JsString(s) => UnitsOfString(s); StrText(Units(s));
    case JsNumber(n) => NumberText(n);
    case JsStrings(items) =>
      if items != [] {
        hide WellPadded;
        ItemsAreJoined(items);
      } else {
        assert Joined([]) == "" by { NothingJoined(); }
        assert "[" + "" + "]" == "[]";
      }
  }

  lemma NothingJoined()
    ensures Joined([]) == ""
  {
  }

  lemma MemberOfText(p: Property)
    ensures WellNamed(MemberOf(p))
    ensures MemberText(MemberOf(p)) == Stringified(p.name) + ":" + StringifyValue(p.value)
  {
    hide Units, Stringified, StringText, ValueOf, Text, StringifyValue, AllLegal, WellFormed, Content;
    UnitsOfString(p.name);
    ValueText(p.value);
  }

  lemma {:induction false} MembersArePrinted(ps: seq<Property>)
    requires ps != []
    ensures AllNamed(MembersOf(ps)) && MembersText(MembersOf(ps)) == StringifyProperties(ps)
  {
    hide MemberOf, Stringified, StringifyValue, MemberText, WellNamed;
    forall i | 0 <= i < |ps| ensures WellNamed(MembersOf(ps)[i]) { MemberOfText(ps[i]); }
    MemberOfText(ps[0]);
    if |ps| > 1 {
      MembersArePrinted(ps[1..]);
      assert MembersOf(ps)[1..] == MembersOf(ps[1..]);
    }
  }

  // ---- What the helper makes of it --------------------------------------------------------------

  predicate ItemOk(isEnv: bool, s: string) { !HasOdd(s) && ListItemOk(isEnv, s) }

  /** The effect of a printed property. */
  function PropertyEffect(p: Property): Effect {
    match p.value
    case JsString(s) => if IsTextKey(p.name) && !HasOdd(s) then SetText(p.name, s) else Fatal
    case JsNumber(n) => if IsNumberKey(p.name) && 1 <= n <= Limit(p.name) then SetNumber(p.name, n) else Fatal
    case JsStrings(items) =>
      var isEnv := p.name == "trustedEnv";
      if (isEnv || items != []) && forall i :: 0 <= i < |items| ==> ItemOk(isEnv, items[i]) then AddItems(isEnv, items)
        else Fatal
  }

  /** Names and kinds as the printer pairs them. */
  predicate Typed(p: Property) {
    match p.value
    case JsString(_) => IsTextKey(p.name)
    case JsNumber(_) => IsNumberKey(p.name)
    case JsStrings(_) => p.name == "bootstrapArgv" || p.name == "trustedEnv"
  }

  lemma StringItemIsGood(s: string, isEnv: bool)
    ensures WellPadded(StringItem(s))
    ensures GoodItem(StringItem(s), isEnv) <==> ItemOk(isEnv, s)
    ensures ItemOk(isEnv, s) ==> ItemString(StringItem(s), isEnv) == s
  {
    hide Units, HasOdd, IsEnvEntry, AllLegal, AllAdmitted, Meaning;
    UnitsOfString(s);
    StrText(Units(s));
    StringItemText(s);
  }

  lemma {:induction false} ItemsAreGood(ss: seq<string>, isEnv: bool)
    ensures AllPadded(Items(ss))
    ensures GoodItems(Items(ss), isEnv) <==> forall i :: 0 <= i < |ss| ==> ItemOk(isEnv, ss[i])
    ensures GoodItems(Items(ss), isEnv) ==> ItemStrings(Items(ss), isEnv) == ss
  {
    hide StringItem, ItemOk, WellPadded, GoodItem, ItemString;
    forall i | 0 <= i < |ss| ensures WellPadded(Items(ss)[i]) { StringItemIsGood(ss[i], isEnv); }
    if ss != [] {
      StringItemIsGood(ss[0], isEnv);
      ItemsAreGood(ss[1..], isEnv);
      assert Items(ss)[1..] == Items(ss[1..]);
      assert forall i :: 1 <= i < |ss| ==> ss[i] == ss[1..][i - 1];
      assert ss == [ss[0]] + ss[1..];
    }
  }

  lemma ListEffect(items: seq<string>, isEnv: bool)
    ensures WellFormed(ValueOf(JsStrings(items)))
    ensures var l := ListOf(ValueOf(JsStrings(items)), isEnv);
      if (isEnv || items != []) && (forall i :: 0 <= i < |items| ==> ItemOk(isEnv, items[i])) then l == Some(items)
        else l == None
  {
    hide Items, ItemOk, GoodItems, ItemStrings, WellFormed;
    ValueText(JsStrings(items));
    ItemsAreGood(items, isEnv);
  }

  lemma ValueEffect(p: Property)
    requires Typed(p)
    ensures WellFormed(ValueOf(p.value)) && EffectOf(p.name, ValueOf(p.value)) == PropertyEffect(p)
  {
    hide Units, HasOdd, ListOf, ItemOk, Numeral, Decimal.Value, WellFormed, AllLegal, AllAdmitted, Meaning, AllDigits,
      Items, Limit;
    ValueText(p.value);
    match p.value
    case JsString(s) => UnitsOfString(s); StrText(Units(s));
    case JsNumber(n) => NumberText(n);
    case JsStrings(items) => ListEffect(items, p.name == "trustedEnv");
  }

  predicate IsWord(s: string) { forall i :: 0 <= i < |s| ==> 'A' <= s[i] <= 'z' }

  lemma TextKeysAreWords()
    ensures IsWord("rootfsPath") && IsWord("skillBlockPath") && IsWord("caBlockPath")
    ensures IsWord("vsockHostSocket") && IsWord("bootstrapPath")
  {
  }

  lemma OtherKeysAreWords()
    ensures IsWord("vsockPort") && IsWord("cpus") && IsWord("memMib") && IsWord("bootstrapArgv") && IsWord("trustedEnv")
  {
  }

  lemma NameIsAWord(p: Property)
    requires Typed(p)
    ensures IsWord(p.name)
  {
    hide IsWord;
    TextKeysAreWords();
    OtherKeysAreWords();
  }

  lemma WordsArePlain(s: string)
    requires IsWord(s)
    ensures !HasOdd(s) && IsByteString(s)
  {
  }

  lemma MemberEffect(d: Draft, p: Property)
    requires Typed(p)
    ensures WellNamed(MemberOf(p)) && EvalMember(d, MemberOf(p)) == Apply(d, PropertyEffect(p))
  {
    hide Units, HasOdd, ValueOf, EffectOf, PropertyEffect, Apply, WellNamed, AllLegal, AllAdmitted, Meaning, Typed,
      WellFormed, IsWord;
    MemberOfText(p);
    UnitsOfString(p.name);
    NameIsAWord(p);
    WordsArePlain(p.name);
    ValueEffect(p);
  }

  function ApplyAll(d: Draft, es: seq<Effect>): Option<Draft>
    decreases |es|
  {
    if es == [] then Some(d)
    else
      var next := Apply(d, es[0]);
      if next.None? then None else ApplyAll(next.value, es[1..])
  }

  function EffectsOf(ps: seq<Property>): (es: seq<Effect>)
    ensures |es| == |ps| && forall i :: 0 <= i < |ps| ==> es[i] == PropertyEffect(ps[i])
  {
    seq(|ps|, i requires 0 <= i < |ps| => PropertyEffect(ps[i]))
  }

  lemma {:induction false} EvalOfPrinted(d: Draft, ps: seq<Property>)
    requires forall i :: 0 <= i < |ps| ==> Typed(ps[i])
    ensures AllNamed(MembersOf(ps)) && Eval(d, MembersOf(ps)) == ApplyAll(d, EffectsOf(ps))
    decreases |ps|
  {
    hide MemberOf, EvalMember, PropertyEffect, Apply, WellNamed, Typed;
    forall i | 0 <= i < |ps| ensures WellNamed(MembersOf(ps)[i]) { MemberEffect(d, ps[i]); }
    if ps != [] {
      MemberEffect(d, ps[0]);
      assert MembersOf(ps)[1..] == MembersOf(ps[1..]) && EffectsOf(ps)[1..] == EffectsOf(ps[1..]);
      var next := Apply(d, PropertyEffect(ps[0]));
      if next.Some? { EvalOfPrinted(next.value, ps[1..]); }
    }
  }

  // ---- The round trip ------------------------------------------------------------------------------

  /** What the helper asks beyond the builder's checks. */
  predicate HelperAdmits(s: Spec) {
    && 1 <= s.cpus <= 0xFF && 1 <= s.memMib <= 0xFFFF_FFFF
    && |s.trustedEnv| <= MAX_ENV && (forall i :: 0 <= i < |s.trustedEnv| ==> IsEnvEntry(s.trustedEnv[i]))
    && NoOddStrings(s)
  }

  predicate NoOddStrings(s: Spec) {
    && !HasOdd(s.rootfsPath) && !HasOdd(s.skillBlockPath) && !HasOdd(s.caBlockPath) && !HasOdd(s.vsockHostSocket)
    && !HasOdd(s.bootstrapPath) && (forall i :: 0 <= i < |s.bootstrapArgv| ==> !HasOdd(s.bootstrapArgv[i]))
    && forall i :: 0 <= i < |s.trustedEnv| ==> !HasOdd(s.trustedEnv[i])
  }

  lemma {:induction false} FatalEffect(d: Draft, es: seq<Effect>, k: nat)
    requires k < |es| && es[k].Fatal?
    ensures ApplyAll(d, es) == None
    decreases k
  {
    var next := Apply(d, es[0]);
    if k > 0 && next.Some? { FatalEffect(next.value, es[1..], k - 1); }
  }

  lemma AppliedStep(d: Draft, es: seq<Effect>, k: nat)
    requires k < |es|
    ensures ApplyAll(d, es[k..]) == var next := Apply(d, es[k]);
      if next.None? then None else ApplyAll(next.value, es[k + 1..])
  {
    hide Apply;
    assert es[k..][0] == es[k] && es[k..][1..] == es[k + 1..];
  }

  predicate NoneFatal(es: seq<Effect>) { forall k :: 0 <= k < |es| ==> !es[k].Fatal? }

  lemma PropertiesAreTyped(s: Spec)
    ensures forall i :: 0 <= i < 10 ==> Typed(Properties(s)[i])
  {
  }

  function TextEffect(name: string, text: string): Effect { if HasOdd(text) then Fatal else SetText(name, text) }

  function NumberEffect(name: string, n: nat, limit: nat): Effect {
    if 1 <= n <= limit then SetNumber(name, n) else Fatal
  }

  function ListEffectOf(items: seq<string>, isEnv: bool): Effect {
    if (isEnv || items != []) && (forall i :: 0 <= i < |items| ==> ItemOk(isEnv, items[i])) then AddItems(isEnv, items)
      else Fatal
  }

  /** The effect of the k-th property. */
  function EffectAt(s: Spec, k: nat): Effect
    requires k < 10
  {
    match k
    case 0 => TextEffect("rootfsPath", s.rootfsPath)
    case 1 => TextEffect("skillBlockPath", s.skillBlockPath)
    case 2 => TextEffect("caBlockPath", s.caBlockPath)
    case 3 => NumberEffect("vsockPort", s.vsockPort, 0xFFFF_FFFF)
    case 4 => TextEffect("vsockHostSocket", s.vsockHostSocket)
    case 5 => NumberEffect("cpus", s.cpus, 0xFF)
    case 6 => NumberEffect("memMib", s.memMib, 0xFFFF_FFFF)
    case 7 => TextEffect("bootstrapPath", s.bootstrapPath)
    case 8 => ListEffectOf(s.bootstrapArgv, false)
    case _ => ListEffectOf(s.trustedEnv, true)
  }

  lemma EffectsByPosition(s: Spec, k: nat)
    requires k < 10
    ensures EffectsOf(Properties(s))[k] == EffectAt(s, k)
  {
    hide HasOdd, ItemOk;
  }

  lemma AllEffects(s: Spec)
    ensures forall k :: 0 <= k < 10 ==> EffectsOf(Properties(s))[k] == EffectAt(s, k)
  {
    hide EffectAt, Properties, EffectsOf;
    forall k | 0 <= k < 10 ensures EffectsOf(Properties(s))[k] == EffectAt(s, k) { EffectsByPosition(s, k); }
  }

  lemma TextsFatal(s: Spec)
    ensures !EffectAt(s, 0).Fatal? && !EffectAt(s, 1).Fatal? && !EffectAt(s, 2).Fatal? && !EffectAt(s, 4).Fatal?
      && !EffectAt(s, 7).Fatal?
      <==> !HasOdd(s.rootfsPath) && !HasOdd(s.skillBlockPath) && !HasOdd(s.caBlockPath) && !HasOdd(s.vsockHostSocket)
           && !HasOdd(s.bootstrapPath)
  {
    hide HasOdd;
  }

  lemma NumbersFatal(s: Spec)
    ensures !EffectAt(s, 3).Fatal? && !EffectAt(s, 5).Fatal? && !EffectAt(s, 6).Fatal?
      <==> 1 <= s.vsockPort <= 0xFFFF_FFFF && 1 <= s.cpus <= 0xFF && 1 <= s.memMib <= 0xFFFF_FFFF
  {
  }

  lemma ListsFatal(s: Spec)
    ensures !EffectAt(s, 8).Fatal? && !EffectAt(s, 9).Fatal?
      <==> s.bootstrapArgv != [] && (forall i :: 0 <= i < |s.bootstrapArgv| ==> !HasOdd(s.bootstrapArgv[i]))
           && forall i :: 0 <= i < |s.trustedEnv| ==> !HasOdd(s.trustedEnv[i]) && IsEnvEntry(s.trustedEnv[i])
  {
    hide HasOdd, IsEnvEntry;
  }

  lemma NoneFatalByPosition(s: Spec)
    ensures NoneFatal(EffectsOf(Properties(s))) <==>
      !EffectAt(s, 0).Fatal? && !EffectAt(s, 1).Fatal? && !EffectAt(s, 2).Fatal? && !EffectAt(s, 3).Fatal?
        && !EffectAt(s, 4).Fatal?
      && !EffectAt(s, 5).Fatal? && !EffectAt(s, 6).Fatal? && !EffectAt(s, 7).Fatal? && !EffectAt(s, 8).Fatal?
        && !EffectAt(s, 9).Fatal?
  {
    hide EffectAt, Properties, EffectsOf, NoneFatal;
    NoneFatalOfTen(EffectsOf(Properties(s)));
    EffectsByPosition(s, 0);
    EffectsByPosition(s, 1);
    EffectsByPosition(s, 2);
    EffectsByPosition(s, 3);
    EffectsByPosition(s, 4);
    EffectsByPosition(s, 5);
    EffectsByPosition(s, 6);
    EffectsByPosition(s, 7);
    EffectsByPosition(s, 8);
    EffectsByPosition(s, 9);
  }

  lemma NoneFatalOfTen(es: seq<Effect>)
    requires |es| == 10
    ensures NoneFatal(es) <==>
      !es[0].Fatal? && !es[1].Fatal? && !es[2].Fatal? && !es[3].Fatal? && !es[4].Fatal?
      && !es[5].Fatal? && !es[6].Fatal? && !es[7].Fatal? && !es[8].Fatal? && !es[9].Fatal?
  {
  }

  lemma NoneFatalMeans(s: Spec)
    requires BuilderAccepts(s)
    ensures NoneFatal(EffectsOf(Properties(s))) && |s.trustedEnv| <= MAX_ENV <==> HelperAdmits(s)
  {
    hide HasOdd, IsEnvEntry, PathFieldOk, HasNul, Properties, EffectsOf, EffectAt, NoneFatal;
    NoneFatalByPosition(s);
    TextsFatal(s);
    NumbersFatal(s);
    ListsFatal(s);
  }

  function TextsOf(s: Spec): map<string, string> {
    map["rootfsPath" := s.rootfsPath]["skillBlockPath" := s.skillBlockPath]["caBlockPath" := s.caBlockPath]
      ["vsockHostSocket" := s.vsockHostSocket]["bootstrapPath" := s.bootstrapPath]
  }

  function NumbersOf(s: Spec): map<string, nat> {
    map["vsockPort" := s.vsockPort]["cpus" := s.cpus]["memMib" := s.memMib]
  }

  lemma ListApplied(d: Draft, isEnv: bool, items: seq<string>)
    requires isEnv ==> d.env == []
    requires !isEnv ==> d.argv == [] && |items| <= MAX_ARGV
    ensures Apply(d, AddItems(isEnv, items)) ==
      if isEnv then (if |items| <= MAX_ENV then Some(d.(env := items)) else None) else Some(d.(argv := items))
  {
    assert [] + items == items;
  }

  /** The draft once the paths of the three images are taken. */
  function AfterBlockPaths(s: Spec): Draft {
    var paths := map["rootfsPath" := s.rootfsPath]["skillBlockPath" := s.skillBlockPath];
    Draft(paths["caBlockPath" := s.caBlockPath], map[], [], [])
  }

  lemma FirstApplied(s: Spec, es: seq<Effect>, d3: Draft)
    requires |es| == 10 && forall k :: 0 <= k < 3 ==> es[k] == EffectAt(s, k) && !es[k].Fatal?
    requires d3 == AfterBlockPaths(s)
    ensures ApplyAll(EMPTY, es[0..]) == ApplyAll(d3, es[3..])
  {
    hide HasOdd, ApplyAll;
    AppliedStep(EMPTY, es, 0);
    var d1 := EMPTY.(texts := EMPTY.texts["rootfsPath" := s.rootfsPath]);
    AppliedStep(d1, es, 1);
    AppliedStep(d1.(texts := d1.texts["skillBlockPath" := s.skillBlockPath]), es, 2);
  }

  lemma PortApplied(s: Spec, es: seq<Effect>, d3: Draft)
    requires |es| == 10 && forall k :: 3 <= k < 5 ==> es[k] == EffectAt(s, k) && !es[k].Fatal?
    ensures ApplyAll(d3, es[3..]) ==
      ApplyAll(d3.(numbers := d3.numbers["vsockPort" := s.vsockPort],
        texts := d3.texts["vsockHostSocket" := s.vsockHostSocket]), es[5..])
  {
    hide HasOdd, ApplyAll;
    AppliedStep(d3, es, 3);
    AppliedStep(d3.(numbers := d3.numbers["vsockPort" := s.vsockPort]), es, 4);
  }

  lemma SizesApplied(s: Spec, es: seq<Effect>, d5: Draft)
    requires |es| == 10 && forall k :: 5 <= k < 8 ==> es[k] == EffectAt(s, k) && !es[k].Fatal?
    ensures ApplyAll(d5, es[5..]) ==
      ApplyAll(d5.(numbers := d5.numbers["cpus" := s.cpus]["memMib" := s.memMib],
        texts := d5.texts["bootstrapPath" := s.bootstrapPath]),
               es[8..])
  {
    hide HasOdd, ApplyAll;
    AppliedStep(d5, es, 5);
    AppliedStep(d5.(numbers := d5.numbers["cpus" := s.cpus]), es, 6);
    AppliedStep(d5.(numbers := d5.numbers["cpus" := s.cpus]["memMib" := s.memMib]), es, 7);
  }

  lemma MiddleApplied(s: Spec, es: seq<Effect>, d3: Draft, d8: Draft)
    requires |es| == 10 && forall k :: 3 <= k < 8 ==> es[k] == EffectAt(s, k) && !es[k].Fatal?
    requires d3 == AfterBlockPaths(s)
    requires d8 == Draft(TextsOf(s), NumbersOf(s), [], [])
    ensures ApplyAll(d3, es[3..]) == ApplyAll(d8, es[8..])
  {
    hide EffectAt, ApplyAll;
    var d5 := d3.(numbers := d3.numbers["vsockPort" := s.vsockPort],
      texts := d3.texts["vsockHostSocket" := s.vsockHostSocket]);
    PortApplied(s, es, d3);
    SizesApplied(s, es, d5);
    assert d8.numbers == d5.numbers["cpus" := s.cpus]["memMib" := s.memMib];
  }

  lemma LastApplied(s: Spec, es: seq<Effect>, d8: Draft)
    requires |es| == 10 && (forall k :: 8 <= k < 10 ==> es[k] == EffectAt(s, k) && !es[k].Fatal?)
      && |s.bootstrapArgv| <= MAX_ARGV
    requires d8.argv == [] && d8.env == []
    ensures ApplyAll(d8, es[8..]) ==
      if |s.trustedEnv| <= MAX_ENV then Some(d8.(argv := s.bootstrapArgv, env := s.trustedEnv)) else None
  {
    hide HasOdd, ApplyAll, ItemOk;
    AppliedStep(d8, es, 8);
    ListApplied(d8, false, s.bootstrapArgv);
    var d9 := d8.(argv := s.bootstrapArgv);
    AppliedStep(d9, es, 9);
    ListApplied(d9, true, s.trustedEnv);
    NothingLeft(d9.(env := s.trustedEnv), es);
  }

  /** With no fatal effect the properties fill the draft one by one. */
  lemma AppliedInOrder(s: Spec)
    requires NoneFatal(EffectsOf(Properties(s))) && |s.bootstrapArgv| <= MAX_ARGV
    ensures ApplyAll(EMPTY, EffectsOf(Properties(s))) ==
      if |s.trustedEnv| <= MAX_ENV then Some(Draft(TextsOf(s), NumbersOf(s), s.bootstrapArgv, s.trustedEnv)) else None
  {
    hide EffectAt, Properties, EffectsOf, ApplyAll, TextsOf, NumbersOf;
    AllEffects(s);
    var es := EffectsOf(Properties(s));
    var d3 := AfterBlockPaths(s);
    var d8 := Draft(TextsOf(s), NumbersOf(s), [], []);
    assert es[0..] == es;
    FirstApplied(s, es, d3);
    MiddleApplied(s, es, d3, d8);
    LastApplied(s, es, d8);
  }

  lemma NothingLeft(d: Draft, es: seq<Effect>)
    requires |es| == 10
    ensures ApplyAll(d, es[10..]) == Some(d)
  {
  }

  lemma FinishedSpec(s: Spec)
    requires BuilderAccepts(s)
    ensures Finish(Draft(TextsOf(s), NumbersOf(s), s.bootstrapArgv, s.trustedEnv)) == Some(s)
  {
    hide IsPlainPath, HasNul;
  }

  /**
   * Everything the builder prints is read back as it was, when the helper admits it, and
   * refused otherwise. What the builder lets through and the helper refuses: numbers out of
   * range, too many or misshapen environment entries, and control characters printed by number.
   */
  lemma RoundTrip(s: Spec)
    requires BuilderAccepts(s)
    ensures ParseSpec(Stringify(s)) == if HelperAdmits(s) then Some(s) else None
  {
    hide *;
    var ps := Properties(s);
    PropertiesAreTyped(s);
    MembersArePrinted(ps);
    PrintedDocument(ps, Stringify(s), s);
    DocumentIsParsed("", MembersOf(ps), "");
    EvalOfPrinted(EMPTY, ps);
    NoneFatalMeans(s);
    SpecInPrinted(s);
    OneArgument(s);
    if NoneFatal(EffectsOf(ps)) {
      AppliedInOrder(s);
      FinishedSpec(s);
    } else {
      var k := SomeFatal(EffectsOf(ps));
      FatalEffect(EMPTY, EffectsOf(ps), k);
    }
  }

  lemma OneArgument(s: Spec)
    requires BuilderAccepts(s)
    ensures |s.bootstrapArgv| <= MAX_ARGV
  {
  }

  lemma SomeFatal(es: seq<Effect>) returns (k: nat)
    requires !NoneFatal(es)
    ensures k < |es| && es[k].Fatal?
  {
    k :| 0 <= k < |es| && es[k].Fatal?;
  }

  lemma PrintedDocument(ps: seq<Property>, text: string, s: Spec)
    requires ps == Properties(s) && text == Stringify(s)
    requires AllNamed(MembersOf(ps)) && MembersText(MembersOf(ps)) == StringifyProperties(ps)
    ensures MembersOf(ps) != [] && AllSpace("")
    ensures text == "" + "{" + MembersText(MembersOf(ps)) + "}" + ""
  {
    hide StringifyProperties, MembersText, AllNamed, MemberOf;
  }

  lemma SpecInPrinted(s: Spec)
    requires AllNamed(MembersOf(Properties(s)))
    ensures SpecIn(MembersOf(Properties(s))) ==
      var d := Eval(EMPTY, MembersOf(Properties(s))); if d.None? then None else Finish(d.value)
  {
    hide Eval, Finish, AllNamed, Properties, MembersOf;
  }

  // ---- Through base64url ------------------------------------------------------------------------------

  const MAX_TOKEN: nat := 0x10_0000

  /** What buildHelperLaunchSpec returns. */
  function Token(s: Spec): seq<byte>
    requires IsByteString(Stringify(s))
  {
    Base64Url.Encode(Bytes(Stringify(s)))
  }

  /** vm_helper_main from its argument to the parsed spec. */
  function Receive(token: seq<byte>): Option<Spec> {
    if token == [] || |token| > MAX_TOKEN then None
    else
      var json := Base64Url.Accumulated(token);
      if json.None? || json.value == [] || 0 in json.value then None else ParseSpec(FromBytes(json.value))
  }

  predicate StringsAreBytes(s: Spec) {
    && IsByteString(s.rootfsPath) && IsByteString(s.skillBlockPath) && IsByteString(s.caBlockPath)
    && IsByteString(s.vsockHostSocket) && IsByteString(s.bootstrapPath)
    && (forall i :: 0 <= i < |s.bootstrapArgv| ==> IsByteString(s.bootstrapArgv[i]))
    && forall i :: 0 <= i < |s.trustedEnv| ==> IsByteString(s.trustedEnv[i])
  }

  lemma {:induction false} EscapedIsBytes(s: string)
    requires IsByteString(s)
    ensures IsByteString(Escaped(Escape, s)) && IsByteString(Stringified(s))
  {
    if s != "" { EscapedIsBytes(s[1..]); }
  }

  lemma {:induction false} JoinedIsBytes(items: seq<string>)
    requires forall i :: 0 <= i < |items| ==> IsByteString(items[i])
    ensures IsByteString(Joined(items))
  {
    hide Stringified;
    if items != [] {
      EscapedIsBytes(items[0]);
      JoinedIsBytes(items[1..]);
    }
  }

  predicate ValueIsBytes(v: Js) {
    match v
    case JsString(s) => IsByteString(s)
    case JsNumber(_) => true
    case JsStrings(items) => forall i :: 0 <= i < |items| ==> IsByteString(items[i])
  }

  lemma {:induction false} PropertiesAreBytes(ps: seq<Property>)
    requires forall i :: 0 <= i < |ps| ==> IsByteString(ps[i].name) && ValueIsBytes(ps[i].value)
    ensures IsByteString(StringifyProperties(ps))
  {
    hide Stringified, Joined, Numeral;
    if ps != [] {
      EscapedIsBytes(ps[0].name);
      ValueTextIsBytes(ps[0].value);
      PropertiesAreBytes(ps[1..]);
    }
  }

  lemma ValueTextIsBytes(v: Js)
    requires ValueIsBytes(v)
    ensures IsByteString(StringifyValue(v))
  {
    hide Stringified, Joined, Numeral;
    match v
    case JsString(s) => EscapedIsBytes(s);
    case JsNumber(_) =>
    case JsStrings(items) => JoinedIsBytes(items);
  }

  lemma TextIsBytes(s: Spec)
    requires StringsAreBytes(s)
    ensures IsByteString(Stringify(s))
  {
    hide StringifyProperties, IsByteString, Typed, IsWord;
    var ps := Properties(s);
    PropertiesAreTyped(s);
    forall i | 0 <= i < |ps| ensures IsByteString(ps[i].name) {
      NameIsAWord(ps[i]);
      WordsArePlain(ps[i].name);
    }
    PropertiesAreBytes(ps);
    InBraces(StringifyProperties(ps));
  }

  lemma InBraces(t: string)
    requires IsByteString(t)
    ensures IsByteString("{" + t + "}")
  {
  }

  /** The launch spec survives its whole way to the helper's parser. */
  lemma TokenIsReceived(s: Spec)
    requires BuilderAccepts(s) && StringsAreBytes(s)
    ensures IsByteString(Stringify(s))
    ensures Receive(Token(s)) == if HelperAdmits(s) && |Token(s)| <= MAX_TOKEN then Some(s) else None
  {
    hide Stringify, BuilderAccepts, StringsAreBytes, HelperAdmits, ParseSpec, Base64Url.Encode, Base64Url.Accumulated,
      Bytes, FromBytes,
      IsByteString;
    TextIsBytes(s);
    var json := Bytes(Stringify(s));
    TextIsNotEmpty(s);
    Base64Url.EncodedIsNotEmpty(json);
    BytesRoundTrip(Stringify(s));
    Base64Url.BothInvertEncode(json, []);
    assert Base64Url.Encode(json) + [] == Base64Url.Encode(json);
    RoundTrip(s);
  }

  lemma TextIsNotEmpty(s: Spec)
    ensures Stringify(s) != ""
  {
  }
}
