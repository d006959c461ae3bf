/**
 * CBOR texts of section 3 of RFC 8949 as the guest meets them: a map of fields, some of them
 * unknown, and what the decoder of packages/sandbox-vm-native/src/vm-init.c makes of it. Every head
 * may have any width that holds its argument; the shortest ones are the deterministic encoding.
 */
module CborDocument {
  import opened Prelude
  import opened Cbor
  import Folds

  // ---- Encoding ----------------------------------------------------------------------------

  function Pow256(n: nat): (p: nat)
    ensures p > 0
  {
    if n == 0 then 1 else 256 * Pow256(n - 1)
  }

  /** The last `n` base-256 digits of v, most significant first. */
  function Digits(v: nat, n: nat): (b: bytes)
    ensures |b| == n
  {
    if n == 0 then [] else Digits(v / 256, n - 1) + [v % 256]
  }

  /** A head of major type `major`; width 0 keeps the argument in the initial byte. */
  predicate IsWidth(arg: nat, width: nat) {
    match width
    case 0 => arg < 24
    case 1 => arg < 0x100
    case 2 => arg < 0x1_0000
    case 4 => arg < 0x1_0000_0000
    case 8 => arg < 0x1_0000_0000_0000_0000
    case _ => false
  }

  function InfoOf(arg: nat, width: nat): (info: nat)
    requires IsWidth(arg, width)
    ensures info < 32
  {
    match width case 0 => arg case 1 => 24 case 2 => 25 case 4 => 26 case _ => 27
  }

  function HeadBytes(major: nat, arg: nat, width: nat): (b: bytes)
    requires major < 8 && IsWidth(arg, width)
    ensures b != []
  {
    [major * 32 + InfoOf(arg, width)] + Digits(arg, width)
  }

  /** Section 4.2.1 of RFC 8949: the shortest form. */
  function Shortest(arg: nat): (width: nat)
    requires arg < 0x1_0000_0000_0000_0000
    ensures IsWidth(arg, width)
    ensures forall w :: IsWidth(arg, w) ==> width <= w
  {
    if arg < 24 then 0 else if arg < 0x100 then 1 else if arg < 0x1_0000 then 2 else if arg < 0x1_0000_0000 then 4
      else 8
  }

  lemma {:induction false} DigitsAreRead(v: nat, n: nat)
    requires v < Pow256(n)
    ensures BigEndian(Digits(v, n)) == v
  {
    if n > 0 {
      DigitsAreRead(v / 256, n - 1);
      assert Digits(v, n)[..n - 1] == Digits(v / 256, n - 1);
    }
  }

  lemma WidthFits(arg: nat, width: nat)
    requires IsWidth(arg, width)
    ensures width > 0 ==> arg < Pow256(width)
    ensures ArgumentWidth(InfoOf(arg, width)) == Some(width)
  {
    assert Pow256(1) == 256 && Pow256(2) == 0x1_0000 && Pow256(3) == 0x100_0000 && Pow256(4) == 0x1_0000_0000;
    assert Pow256(5) == 0x100_0000_0000 && Pow256(6) == 0x1_0000_0000_0000 && Pow256(7) == 0x100_0000_0000_0000;
    assert Pow256(8) == 0x1_0000_0000_0000_0000;
  }

  lemma HeadIsRead(major: nat, arg: nat, width: nat, rest: bytes)
    requires major < 8 && IsWidth(arg, width)
    ensures ReadHead(HeadBytes(major, arg, width) + rest) == Some(Head(major, arg, rest))
  {
    hide Digits, BigEndian, Pow256, ArgumentWidth;
    var info := InfoOf(arg, width);
    var digits := Digits(arg, width);
    var s := HeadBytes(major, arg, width) + rest;
    WidthFits(arg, width);
    assert s[1..1 + width] == digits && s[1 + width..] == rest;
    if width > 0 { DigitsAreRead(arg, width); }
    InitialByte(major, info);
  }

  lemma InitialByte(major: nat, info: nat)
    requires major < 8 && info < 32
    ensures (major * 32 + info) / 32 == major && (major * 32 + info) % 32 == info
  {
  }

  // ---- Items ----------------------------------------------------------------------------------

  const LIMIT: nat := 0x1_0000_0000_0000_0000

  /** The items a field may hold here; containers hold text strings only. */
  datatype Item =
    | Unsigned(n: nat)
    | Negative(n: nat)
    | ByteString(b: bytes)
    | TextString(t: bytes)
    | Texts(ts: seq<bytes>)
    | Pairs(ps: seq<(bytes, bytes)>)
    | Special(arg: nat)  // simple values and floats

  function Major(i: Item): (m: nat)
    ensures m < 8
  {
    match i
    case Unsigned(_) => UNSIGNED
    case Negative(_) => 1
    case ByteString(_) => BYTE_STRING
    case TextString(_) => TEXT
    case Texts(_) => ARRAY
    case Pairs(_) => MAP
    case Special(_) => 7
  }

  function Argument(i: Item): nat {
    match i
    case Unsigned(n) => n
    case Negative(n) => n
    case ByteString(b) => |b|
    case TextString(t) => |t|
    case Texts(ts) => |ts|
    case Pairs(ps) => |ps|
    case Special(arg) => arg
  }

  /** A head of any width. */
  ghost predicate IsHead(b: bytes, major: nat, arg: nat)
    requires major < 8
  {
    exists width :: IsWidth(arg, width) && b == HeadBytes(major, arg, width)
  }

  ghost predicate IsText(b: bytes, t: bytes) {
    exists k :: 0 <= k <= |b| && IsHead(b[..k], TEXT, |t|) && b[k..] == t
  }

  ghost predicate IsTexts(b: bytes, ts: seq<bytes>)
    decreases |ts|
  {
    if ts == [] then b == []
    else exists k :: 0 <= k <= |b| && IsText(b[..k], ts[0]) && IsTexts(b[k..], ts[1..])
  }

  ghost predicate IsPairs(b: bytes, ps: seq<(bytes, bytes)>)
    decreases |ps|
  {
    if ps == [] then b == []
    else exists k :: 0 <= k <= |b| && IsTexts(b[..k], [ps[0].0, ps[0].1]) && IsPairs(b[k..], ps[1..])
  }

  /** What follows the head. */
  ghost predicate IsBody(b: bytes, i: Item) {
    match i
    case ByteString(s) => b == s
    case TextString(t) => b == t
    case Texts(ts) => IsTexts(b, ts)
    case Pairs(ps) => IsPairs(b, ps)
    case _ => b == []
  }

  /** The bytes are an encoding of the item. */
  ghost predicate IsItem(b: bytes, i: Item) {
    exists k :: 0 <= k <= |b| && IsHead(b[..k], Major(i), Argument(i)) && IsBody(b[k..], i)
  }

  lemma AnyHeadIsRead(b: bytes, major: nat, arg: nat, rest: bytes)
    requires major < 8 && IsHead(b, major, arg)
    ensures ReadHead(b + rest) == Some(Head(major, arg, rest))
  {
    hide ReadHead, HeadBytes;
    var width :| IsWidth(arg, width) && b == HeadBytes(major, arg, width);
    HeadIsRead(major, arg, width, rest);
  }

  lemma ItemHeadIsRead(b: bytes, i: Item, rest: bytes) returns (body: bytes)
    requires IsItem(b, i)
    ensures IsBody(body, i) && ReadHead(b + rest) == Some(Head(Major(i), Argument(i), body + rest))
  {
    hide IsHead, IsBody, ReadHead;
    var k :| 0 <= k <= |b| && IsHead(b[..k], Major(i), Argument(i)) && IsBody(b[k..], i);
    body := b[k..];
    AnyHeadIsRead(b[..k], Major(i), Argument(i), body + rest);
    assert b + rest == b[..k] + (body + rest);
  }

  /** A text string the guest takes. */
  predicate GoodText(t: bytes) { |t| <= MAX_STR_LEN && 0 !in t }

  lemma TextAfterHead(b: bytes, i: Item, rest: bytes)
    requires IsItem(b, i)
    ensures ReadText(b + rest) == if i.TextString? && GoodText(i.t) then Some((i.t, rest)) else None
  {
    hide ReadHead, IsItem, IsTexts, IsPairs;
    var body := ItemHeadIsRead(b, i, rest);
    if i.TextString? {
      assert (i.t + rest)[..|i.t|] == i.t && (i.t + rest)[|i.t|..] == rest;
    }
  }

  lemma TextIsRead(b: bytes, t: bytes, rest: bytes)
    requires IsText(b, t)
    ensures ReadText(b + rest) == if GoodText(t) then Some((t, rest)) else None
  {
    hide ReadText, IsHead;
    assert IsItem(b, TextString(t));
    TextAfterHead(b, TextString(t), rest);
  }

  predicate GoodTexts(ts: seq<bytes>, asEnv: bool) {
    forall k :: 0 <= k < |ts| ==> GoodText(ts[k]) && (asEnv ==> IsEnvEntry(ts[k]))
  }

  lemma GoodTextsParts(ts: seq<bytes>, asEnv: bool)
    requires ts != []
    ensures GoodTexts(ts, asEnv) <==> GoodText(ts[0]) && (asEnv ==> IsEnvEntry(ts[0])) && GoodTexts(ts[1..], asEnv)
  {
    hide GoodText, IsEnvEntry;
    assert forall k :: 1 <= k < |ts| ==> ts[k] == ts[1..][k - 1];
  }

  lemma {:induction false} TextsAreRead(b: bytes, ts: seq<bytes>, asEnv: bool, rest: bytes)
    requires IsTexts(b, ts)
    ensures ReadTexts(b + rest, |ts|, asEnv) == if GoodTexts(ts, asEnv) then Some((ts, rest)) else None
    decreases |ts|
  {
    hide ReadText, IsText, GoodText, IsEnvEntry, GoodTexts;
    if ts == [] {
      assert b + rest == rest;
      NoTexts(asEnv);
    } else {
      var k :| 0 <= k <= |b| && IsText(b[..k], ts[0]) && IsTexts(b[k..], ts[1..]);
      assert b + rest == b[..k] + (b[k..] + rest);
      TextIsRead(b[..k], ts[0], b[k..] + rest);
      TextsAreRead(b[k..], ts[1..], asEnv, rest);
      GoodTextsParts(ts, asEnv);
      assert ts == [ts[0]] + ts[1..];
    }
  }

  lemma NoTexts(asEnv: bool)
    ensures GoodTexts([], asEnv)
  {
  }

  predicate GoodPairs(ps: seq<(bytes, bytes)>) {
    forall k :: 0 <= k < |ps| ==> GoodPair(ps[k])
  }

  predicate GoodPair(p: (bytes, bytes)) { GoodText(p.0) && GoodText(p.1) && IsAbsolute(p.1) }

  lemma {:induction false} PairsAreRead(b: bytes, ps: seq<(bytes, bytes)>, rest: bytes)
    requires IsPairs(b, ps)
    ensures ReadPairs(b + rest, |ps|) == if GoodPairs(ps) then Some((ps, rest)) else None
    decreases |ps|
  {
    hide ReadText, IsText, IsTexts, GoodText, IsAbsolute;
    if ps == [] {
      assert b + rest == rest;
    } else {
      var k :| 0 <= k <= |b| && IsTexts(b[..k], [ps[0].0, ps[0].1]) && IsPairs(b[k..], ps[1..]);
      assert b + rest == b[..k] + (b[k..] + rest);
      var j := TwoTexts(b[..k], ps[0].0, ps[0].1);
      var tail := b[k..] + rest;
      assert b[..k] + tail == b[..k][..j] + (b[..k][j..] + tail);
      TextIsRead(b[..k][..j], ps[0].0, b[..k][j..] + tail);
      TextIsRead(b[..k][j..], ps[0].1, tail);
      PairsAreRead(b[k..], ps[1..], rest);
      assert forall k :: 1 <= k < |ps| ==> ps[k] == ps[1..][k - 1];
      assert ps == [ps[0]] + ps[1..];
    }
  }

  lemma TwoTexts(b: bytes, s: bytes, t: bytes) returns (k: nat)
    requires IsTexts(b, [s, t])
    ensures k <= |b| && IsText(b[..k], s) && IsText(b[k..], t)
  {
    hide IsText;
    var both: seq<bytes> := [s, t];
    assert both[1..] == [t];
    k :| 0 <= k <= |b| && IsText(b[..k], s) && IsTexts(b[k..], both[1..]);
    var one: seq<bytes> := [t];
    assert one[1..] == [] && IsTexts(b[k..], one);
    var l :| 0 <= l <= |b[k..]| && IsText(b[k..][..l], one[0]) && IsTexts(b[k..][l..], one[1..]);
    assert b[k..][..l] == b[k..];
  }

  lemma ArrayIsRead(b: bytes, i: Item, asEnv: bool, rest: bytes)
    requires IsItem(b, i)
    ensures ReadArray(b + rest, asEnv) ==
      if i.Texts? && |i.ts| <= MAX_ENTRIES && GoodTexts(i.ts, asEnv) then Some((i.ts, rest)) else None
  {
    hide ReadHead, IsItem, ReadTexts, IsTexts, IsPairs, GoodTexts;
    var body := ItemHeadIsRead(b, i, rest);
    if i.Texts? { TextsAreRead(body, i.ts, asEnv, rest); }
  }

  lemma MapIsRead(b: bytes, i: Item, rest: bytes)
    requires IsItem(b, i)
    ensures ReadMap(b + rest) ==
      if i.Pairs? && |i.ps| <= MAX_ALLOWED_ENTRIES && GoodPairs(i.ps) then Some((i.ps, rest)) else None
  {
    hide ReadHead, IsItem, ReadPairs, IsTexts, IsPairs, GoodPairs;
    var body := ItemHeadIsRead(b, i, rest);
    if i.Pairs? { PairsAreRead(body, i.ps, rest); }
  }

  /** Scalars and empty containers are stepped over; other containers are refused. */
  predicate Skippable(i: Item) {
    match i case Texts(ts) => ts == [] case Pairs(ps) => ps == [] case _ => true
  }

  /** Twice the number of items does not wrap. */
  predicate CountFits(i: Item) { i.Texts? || i.Pairs? ==> Argument(i) < LIMIT / 2 }

  lemma ItemIsSkipped(b: bytes, i: Item, rest: bytes)
    requires IsItem(b, i) && CountFits(i)
    ensures SkipItem(b + rest) == if Skippable(i) then Some(rest) else None
  {
    hide ReadHead, IsItem;
    var body := ItemHeadIsRead(b, i, rest);
    if i.ByteString? || i.TextString? { assert (body + rest)[|body|..] == rest; }
    if Skippable(i) && !i.ByteString? && !i.TextString? { assert body == [] && [] + rest == rest; }
  }

  // ---- Fields ---------------------------------------------------------------------------------

  datatype Field = Field(key: bytes, item: Item)

  /** What a field does to the draft, told by its key and item alone. */
  datatype Effect =
    | SetExecutable(text: bytes) | SetCwd(text: bytes)
    | SetArgv(list: seq<bytes>) | SetEnv(list: seq<bytes>) | SetAllowed(pairs: seq<(bytes, bytes)>)
    | NoEffect | Fatal

  function TextEffect(i: Item, f: bytes -> Effect): Effect {
    if i.TextString? && GoodText(i.t) then f(i.t) else Fatal
  }

  function EffectOf(key: bytes, i: Item): Effect {
    if key == Ascii("schemaVersion") then (if i == Unsigned(1) then NoEffect else Fatal)
    else if key == Ascii("executable") then TextEffect(i, t => SetExecutable(t))
    else if key == Ascii("argv") then
      if i.Texts? && |i.ts| <= MAX_ENTRIES && GoodTexts(i.ts, false) && ArgvBytes(i.ts) <= MAX_ARGV_BYTES
        then SetArgv(i.ts) else Fatal
    else if key == Ascii("cwd") then TextEffect(i, t => SetCwd(t))
    else if key == Ascii("env") then
      if i.Texts? && |i.ts| <= MAX_ENTRIES && GoodTexts(i.ts, true) then SetEnv(i.ts) else Fatal
    else if key == Ascii("allowedExecutables") then
      if i.Pairs? && |i.ps| <= MAX_ALLOWED_ENTRIES && GoodPairs(i.ps) then SetAllowed(i.ps) else Fatal
    else if Skippable(i) then NoEffect
    else Fatal
  }

  function Apply(d: Draft, e: Effect): Option<Draft> {
    match e
    case SetExecutable(t) => Some(d.(executable := Some(t)))
    case SetCwd(t) => Some(d.(cwd := Some(t)))
    case SetArgv(l) => Some(WithArgv(d, l))
    case SetEnv(l) => Some(WithEnv(d, l))
    case SetAllowed(ps) => Some(WithAllowed(d, ps))
    case NoEffect => Some(d)
    case Fatal => None
  }

  function FieldEffect(f: Field): Effect {
    if GoodText(f.key) then EffectOf(f.key, f.item) else Fatal
  }

  function Step(d: Draft, f: Field): Option<Draft> { Apply(d, FieldEffect(f)) }

  lemma FieldIsRead(key: bytes, b: bytes, i: Item, rest: bytes, d: Draft)
    requires IsItem(b, i) && CountFits(i)
    ensures var next := Apply(d, EffectOf(key, i));
      ReadField(key, b + rest, d) == if next.None? then None else Some((next.value, rest))
  {
    hide ReadHead, ReadText, ReadArray, ReadMap, SkipItem, Ascii, ArgvBytes, IsItem, GoodText, GoodTexts, GoodPairs,
      IsTexts, IsPairs,
      WithArgv, WithEnv, WithAllowed;
    if key == Ascii("schemaVersion") {
      var body := ItemHeadIsRead(b, i, rest);
      if i.Unsigned? { assert body + rest == rest; }
    } else if key == Ascii("executable") || key == Ascii("cwd") {
      TextAfterHead(b, i, rest);
    } else if key == Ascii("argv") {
      ArrayIsRead(b, i, false, rest);
    } else if key == Ascii("env") {
      ArrayIsRead(b, i, true, rest);
    } else if key == Ascii("allowedExecutables") {
      MapIsRead(b, i, rest);
    } else {
      ItemIsSkipped(b, i, rest);
    }
  }

  ghost predicate IsField(b: bytes, f: Field) {
    exists k :: 0 <= k <= |b| && IsText(b[..k], f.key) && IsItem(b[k..], f.item)
  }

  ghost predicate IsFields(b: bytes, fs: seq<Field>)
    decreases |fs|
  {
    if fs == [] then b == []
    else exists k :: 0 <= k <= |b| && IsField(b[..k], fs[0]) && IsFields(b[k..], fs[1..])
  }

  /** The bytes are an encoding of the whole map. */
  ghost predicate IsDocument(b: bytes, fs: seq<Field>) {
    exists k :: 0 <= k <= |b| && IsHead(b[..k], MAP, |fs|) && IsFields(b[k..], fs)
  }

  lemma FieldStep(b: bytes, f: Field, rest: bytes, d: Draft)
    requires IsField(b, f) && CountFits(f.item)
    ensures var r := ReadText(b + rest);
      if GoodText(f.key) then
        && r.Some? && r.value.0 == f.key
        && var next := Apply(d, EffectOf(f.key, f.item));
           ReadField(f.key, r.value.1, d) == if next.None? then None else Some((next.value, rest))
      else r == None
  {
    hide ReadText, ReadField, IsText, IsItem, EffectOf, Apply, GoodText, CountFits;
    var k :| 0 <= k <= |b| && IsText(b[..k], f.key) && IsItem(b[k..], f.item);
    assert b + rest == b[..k] + (b[k..] + rest);
    TextIsRead(b[..k], f.key, b[k..] + rest);
    FieldIsRead(f.key, b[k..], f.item, rest, d);
  }

  lemma {:induction false} FieldsAreRead(b: bytes, fs: seq<Field>, d: Draft, rest: bytes)
    requires IsFields(b, fs) && forall k :: 0 <= k < |fs| ==> CountFits(fs[k].item)
    ensures ReadFields(b + rest, |fs|, d) == Folds.Fold(Step, d, fs)
    decreases |fs|
  {
    hide ReadText, ReadField, IsField, EffectOf, Apply, GoodText, CountFits;
    if fs != [] {
      var f := fs[0];
      var k :| 0 <= k <= |b| && IsField(b[..k], f) && IsFields(b[k..], fs[1..]);
      var tail := b[k..] + rest;
      assert b + rest == b[..k] + tail;
      FieldStep(b[..k], f, tail, d);
      if GoodText(f.key) {
        var next := Apply(d, EffectOf(f.key, f.item));
        if next.Some? { FieldsAreRead(b[k..], fs[1..], next.value, rest); }
      } else {
        FatalStops(d);
      }
    }
  }

  lemma FatalStops(d: Draft)
    ensures Apply(d, Fatal) == None
  {
  }

  /** What a map of fields means to the guest. */
  function Meaning(fs: seq<Field>): Option<Draft> {
    var d := Folds.Fold(Step, EMPTY, fs);
    if d.None? || !Complete(d.value) then None else d
  }

  /** Decoding any encoding of a map gives what its fields mean, whatever bytes follow it. */
  lemma DocumentIsDecoded(b: bytes, fs: seq<Field>, rest: bytes)
    requires IsDocument(b, fs) && forall k :: 0 <= k < |fs| ==> CountFits(fs[k].item)
    ensures Decode(b + rest) == Meaning(fs)
  {
    hide ReadHead, IsHead, IsFields, CountFits, ReadFields, Complete;
    var k :| 0 <= k <= |b| && IsHead(b[..k], MAP, |fs|) && IsFields(b[k..], fs);
    AnyHeadIsRead(b[..k], MAP, |fs|, b[k..] + rest);
    assert b + rest == b[..k] + (b[k..] + rest);
    FieldsAreRead(b[k..], fs, EMPTY, rest);
  }

  // ---- Order and unknown fields --------------------------------------------------------------------

  ghost predicate DistinctKeys(fs: seq<Field>) {
    forall i, j :: 0 <= i < j < |fs| ==> fs[i].key != fs[j].key
  }

  predicate Apart(e: Effect, f: Effect) {
    && !(e.SetExecutable? && f.SetExecutable?) && !(e.SetCwd? && f.SetCwd?) && !(e.SetArgv? && f.SetArgv?)
    && !(e.SetEnv? && f.SetEnv?) && !(e.SetAllowed? && f.SetAllowed?)
  }

  lemma EffectsAreApart(a: Field, b: Field)
    requires a.key != b.key
    ensures Apart(FieldEffect(a), FieldEffect(b))
  {
    hide Ascii, GoodText, GoodTexts, GoodPairs, ArgvBytes;
  }

  lemma FieldsCommute(a: Field, b: Field)
    requires a.key != b.key
    ensures Folds.Commute(Step, a, b)
  {
    hide FieldEffect;
    EffectsAreApart(a, b);
  }

  /** Fields with different keys may come in any order. */
  lemma OrderDoesNotMatter(fs: seq<Field>, gs: seq<Field>)
    requires DistinctKeys(fs) && multiset(fs) == multiset(gs)
    ensures Meaning(fs) == Meaning(gs)
  {
    hide Step, Complete;
    forall i, j | 0 <= i < j < |fs| ensures Folds.Commute(Step, fs[i], fs[j]) {
      FieldsCommute(fs[i], fs[j]);
    }
    Folds.OrderDoesNotMatter(Step, EMPTY, fs, gs);
  }

  predicate IsKnown(key: bytes) {
    || key == Ascii("schemaVersion") || key == Ascii("executable") || key == Ascii("argv")
    || key == Ascii("cwd") || key == Ascii("env") || key == Ascii("allowedExecutables")
  }

  /** Unknown scalar fields change nothing, wherever they stand. */
  lemma UnknownIsIgnored(a: seq<Field>, f: Field, b: seq<Field>)
    requires !IsKnown(f.key) && GoodText(f.key) && Skippable(f.item)
    ensures Meaning(a + [f] + b) == Meaning(a + b)
  {
    hide Complete, GoodText, Skippable, Ascii;
    assert a + [f] + b == a + ([f] + b);
    Folds.FoldOfConcat(Step, EMPTY, a, [f] + b);
    Folds.FoldOfConcat(Step, EMPTY, a, b);
    var e := Folds.Fold(Step, EMPTY, a);
    if e.Some? { Folds.FoldOfFirst(Step, e.value, f, b); }
  }

  // ---- The deterministic encoding -------------------------------------------------------------------

  predicate Fits(i: Item) {
    && Argument(i) < LIMIT
    && match i
       case Texts(ts) => forall k :: 0 <= k < |ts| ==> |ts[k]| < LIMIT
       case Pairs(ps) => forall k :: 0 <= k < |ps| ==> |ps[k].0| < LIMIT && |ps[k].1| < LIMIT
       case _ => true
  }

  predicate FieldFits(f: Field) { |f.key| < LIMIT && Fits(f.item) && CountFits(f.item) }

  function ShortestHead(major: nat, arg: nat): (b: bytes)
    requires major < 8 && arg < LIMIT
    ensures b != [] && IsHead(b, major, arg)
  {
    HeadBytes(major, arg, Shortest(arg))
  }

  function TextBytes(t: bytes): (b: bytes)
    requires |t| < LIMIT
    ensures IsText(b, t)
  {
    var head := ShortestHead(TEXT, |t|);
    assert (head + t)[..|head|] == head && (head + t)[|head|..] == t;
    head + t
  }

  function TextsBytes(ts: seq<bytes>): (b: bytes)
    requires forall k :: 0 <= k < |ts| ==> |ts[k]| < LIMIT
    ensures IsTexts(b, ts)
  {
    if ts == [] then []
    else
      TextsInParts(TextBytes(ts[0]), TextsBytes(ts[1..]), ts);
      TextBytes(ts[0]) + TextsBytes(ts[1..])
  }

  lemma TextsInParts(a: bytes, b: bytes, ts: seq<bytes>)
    requires ts != [] && IsText(a, ts[0]) && IsTexts(b, ts[1..])
    ensures IsTexts(a + b, ts)
  {
    hide IsText;
    assert (a + b)[..|a|] == a && (a + b)[|a|..] == b;
  }

  lemma PairInParts(a: bytes, b: bytes, p: (bytes, bytes))
    requires IsText(a, p.0) && IsText(b, p.1)
    ensures IsTexts(a + b, [p.0, p.1])
  {
    hide IsText;
    var both: seq<bytes> := [p.0, p.1];
    assert both[1..] == [p.1] && b + [] == b;
    TextsInParts(b, [], [p.1]);
    TextsInParts(a, b, both);
  }

  function PairsBytes(ps: seq<(bytes, bytes)>): (b: bytes)
    requires forall k :: 0 <= k < |ps| ==> |ps[k].0| < LIMIT && |ps[k].1| < LIMIT
    ensures IsPairs(b, ps)
  {
    if ps == [] then []
    else
      PairsInParts(TextBytes(ps[0].0), TextBytes(ps[0].1), PairsBytes(ps[1..]), ps);
      TextBytes(ps[0].0) + TextBytes(ps[0].1) + PairsBytes(ps[1..])
  }

  lemma PairsInParts(a: bytes, b: bytes, c: bytes, ps: seq<(bytes, bytes)>)
    requires ps != [] && IsText(a, ps[0].0) && IsText(b, ps[0].1) && IsPairs(c, ps[1..])
    ensures IsPairs(a + b + c, ps)
  {
    hide IsText, IsTexts;
    PairInParts(a, b, ps[0]);
    assert (a + b + c)[..|a + b|] == a + b && (a + b + c)[|a + b|..] == c;
  }

  function Body(i: Item): (b: bytes)
    requires Fits(i)
    ensures IsBody(b, i)
  {
    match i
    case ByteString(b) => b
    case TextString(t) => t
    case Texts(ts) => TextsBytes(ts)
    case Pairs(ps) => PairsBytes(ps)
    case _ => []
  }

  function ItemBytes(i: Item): (b: bytes)
    requires Fits(i)
    ensures IsItem(b, i)
  {
    var head, body := ShortestHead(Major(i), Argument(i)), Body(i);
    assert (head + body)[..|head|] == head && (head + body)[|head|..] == body;
    head + body
  }

  function FieldBytes(f: Field): (b: bytes)
    requires FieldFits(f)
    ensures IsField(b, f)
  {
    var key, item := TextBytes(f.key), ItemBytes(f.item);
    assert (key + item)[..|key|] == key && (key + item)[|key|..] == item;
    key + item
  }

  function FieldsBytes(fs: seq<Field>): (b: bytes)
    requires forall k :: 0 <= k < |fs| ==> FieldFits(fs[k])
    ensures IsFields(b, fs)
  {
    if fs == [] then []
    else
      FieldsInParts(FieldBytes(fs[0]), FieldsBytes(fs[1..]), fs);
      FieldBytes(fs[0]) + FieldsBytes(fs[1..])
  }

  lemma FieldsInParts(a: bytes, b: bytes, fs: seq<Field>)
    requires fs != [] && IsField(a, fs[0]) && IsFields(b, fs[1..])
    ensures IsFields(a + b, fs)
  {
    hide IsField;
    assert (a + b)[..|a|] == a && (a + b)[|a|..] == b;
  }

  /** Section 4.2.1 of RFC 8949, but for the order of the keys: the shortest heads. */
  function DocumentBytes(fs: seq<Field>): (b: bytes)
    requires |fs| < LIMIT && forall k :: 0 <= k < |fs| ==> FieldFits(fs[k])
    ensures b != [] && IsDocument(b, fs)
  {
    var head, body := ShortestHead(MAP, |fs|), FieldsBytes(fs);
    assert (head + body)[..|head|] == head && (head + body)[|head|..] == body;
    head + body
  }
}
