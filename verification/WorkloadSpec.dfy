/**
 * The host's launch-spec encoder (packages/sandbox/src/vm/launch-spec.ts) against the guest's
 * decoder (packages/sandbox-vm-native/src/vm-init.c). Strings are their UTF-8 bytes.
 */
module WorkloadSpec {
  import opened Prelude
  import opened Sorting
  import opened Cbor
  import opened CborDocument
  import Base64Url
  import Folds

  /** VmWorkloadSpec; `allowed` in the order of Object.entries. */
  datatype Workload = Workload(
    executable: bytes, argv: seq<bytes>, cwd: bytes, env: seq<bytes>, allowed: seq<(bytes, bytes)>)

  const MAX_CBOR: nat := 65536
  const MAX_BLOB: nat := 98304

  // ---- The encoder ---------------------------------------------------------------------------

  predicate NulFree(s: bytes) { 0 !in s }

  /** ENV_RE: a key without '=' that is not empty, then '=', no NUL anywhere. */
  predicate MatchesEnv(e: bytes) {
    NulFree(e) && exists i :: 0 < i < |e| && e[i] == EQUALS && EQUALS !in e[..i]
  }

  /** validateWorkloadSpec */
  predicate Valid(w: Workload) {
    && NulFree(w.executable) && NulFree(w.cwd)
    && (forall i :: 0 <= i < |w.argv| ==> NulFree(w.argv[i]))
    && (forall i :: 0 <= i < |w.env| ==> MatchesEnv(w.env[i]))
    && forall i :: 0 <= i < |w.allowed| ==>
      NulFree(w.allowed[i].0) && NulFree(w.allowed[i].1) && IsAbsolute(w.allowed[i].1)
  }

  /** Far beyond what a JavaScript string or array can hold. */
  predicate Sized(w: Workload) {
    && |w.executable| < LIMIT && |w.cwd| < LIMIT && |w.argv| < LIMIT / 2 && |w.env| < LIMIT / 2
      && |w.allowed| < LIMIT / 2
    && (forall i :: 0 <= i < |w.argv| ==> |w.argv[i]| < LIMIT)
    && (forall i :: 0 <= i < |w.env| ==> |w.env[i]| < LIMIT)
    && forall i :: 0 <= i < |w.allowed| ==> |w.allowed[i].0| < LIMIT && |w.allowed[i].1| < LIMIT
  }

  /** The sort key of section 4.2.1 of RFC 8949: the encoded key. */
  function EncodedKey(key: bytes): bytes { if |key| < LIMIT then TextBytes(key) else [] }

  function PairKey(p: (bytes, bytes)): bytes { EncodedKey(p.0) }
  function FieldKey(f: Field): bytes { EncodedKey(f.key) }

  /** encodeStringMap's order. */
  function SortedPairs(ps: seq<(bytes, bytes)>): seq<(bytes, bytes)> { SortBy(PairKey, ps) }

  function Fields(w: Workload): (fs: seq<Field>)
    ensures |fs| == 6
  {
    [Field(Ascii("allowedExecutables"), Pairs(SortedPairs(w.allowed))), Field(Ascii("argv"), Texts(w.argv)),
     Field(Ascii("cwd"), TextString(w.cwd)), Field(Ascii("env"), Texts(w.env)),
     Field(Ascii("executable"), TextString(w.executable)), Field(Ascii("schemaVersion"), Unsigned(1))]
  }

  function SortedFields(w: Workload): seq<Field> { SortBy(FieldKey, Fields(w)) }

  lemma PairsAreSorted(ps: seq<(bytes, bytes)>)
    ensures multiset(SortedPairs(ps)) == multiset(ps) && |SortedPairs(ps)| == |ps|
    ensures forall p :: p in SortedPairs(ps) <==> p in ps
  {
    SortBySorts(PairKey, ps);
    assert |SortedPairs(ps)| == |multiset(SortedPairs(ps))| && |ps| == |multiset(ps)|;
    assert forall p :: p in SortedPairs(ps) <==> p in multiset(SortedPairs(ps));
    assert forall p :: p in ps <==> p in multiset(ps);
  }

  lemma FieldsAreSorted(w: Workload)
    ensures multiset(SortedFields(w)) == multiset(Fields(w)) && |SortedFields(w)| == 6
    ensures forall f :: f in SortedFields(w) <==> f in Fields(w)
  {
    hide Fields;
    SortBySorts(FieldKey, Fields(w));
    assert |SortedFields(w)| == |multiset(SortedFields(w))| && |Fields(w)| == |multiset(Fields(w))|;
    assert forall f :: f in SortedFields(w) <==> f in multiset(SortedFields(w));
    assert forall f :: f in Fields(w) <==> f in multiset(Fields(w));
  }

  lemma FieldsFit(w: Workload)
    requires Sized(w)
    ensures forall k :: 0 <= k < |SortedFields(w)| ==> FieldFits(SortedFields(w)[k])
    ensures forall f :: f in Fields(w) ==> FieldFits(f)
  {
    hide SortedPairs, SortedFields, Ascii;
    FieldsAreSorted(w);
    PairsAreSorted(w.allowed);
    var ps := SortedPairs(w.allowed);
    forall k | 0 <= k < |ps| ensures |ps[k].0| < LIMIT && |ps[k].1| < LIMIT {
      assert ps[k] in w.allowed;
    }
    var fs := SortedFields(w);
    forall k | 0 <= k < |fs| ensures FieldFits(fs[k]) {
      assert fs[k] in Fields(w);
    }
  }

  /** encodeCanonicalLaunchSpec */
  function Canonical(w: Workload): bytes
    requires Sized(w)
  {
    FieldsFit(w);
    FieldsAreSorted(w);
    DocumentBytes(SortedFields(w))
  }

  /** encodeLaunchSpec; None where it throws. */
  function EncodeLaunchSpec(w: Workload): Option<bytes>
    requires Sized(w)
  {
    if !Valid(w) || |Canonical(w)| > MAX_CBOR || |Base64Url.Encode(Canonical(w))| > MAX_BLOB then None
    else Some(Base64Url.Encode(Canonical(w)))
  }

  // ---- The order is the one of the standard -----------------------------------------------------

  /** The comparator of both sorts: shorter first, then bytewise. */
  function LengthFirst(a: bytes, b: bytes): int {
    if |a| != |b| then |a| - |b| else StrCmp(a, b)
  }

  lemma {:induction false} DigitsOrder(v: nat, w: nat, n: nat, a: bytes, b: bytes)
    requires v < w < Pow256(n)
    ensures StrCmp(Digits(v, n) + a, Digits(w, n) + b) < 0
  {
    if n > 0 {
      var x, y := Digits(v / 256, n - 1), Digits(w / 256, n - 1);
      var s, t := [v % 256] + a, [w % 256] + b;
      assert Digits(v, n) + a == x + s && Digits(w, n) + b == y + t;
      if v / 256 == w / 256 {
        SamePrefix(x, s, t);
      } else {
        DigitsOrder(v / 256, w / 256, n - 1, s, t);
      }
    }
  }

  lemma HeadsOrder(m: nat, n: nat, a: bytes, b: bytes)
    requires m < n < LIMIT
    ensures StrCmp(HeadBytes(TEXT, m, Shortest(m)) + a, HeadBytes(TEXT, n, Shortest(n)) + b) < 0
  {
    hide Digits, Pow256;
    var v, w := Shortest(m), Shortest(n);
    var s, t := HeadBytes(TEXT, m, v) + a, HeadBytes(TEXT, n, w) + b;
    var x, y := Digits(m, v) + a, Digits(n, w) + b;
    assert s[1..] == x && t[1..] == y;
    WidthFits(n, w);
    if v == w && v > 0 { DigitsOrder(m, n, v, a, b); }
  }

  /** The comparator sorts by the bytes of the encoded keys, as deterministic encoding demands. */
  lemma OrderIsDeterministic(a: bytes, b: bytes)
    requires |a| < LIMIT && |b| < LIMIT
    ensures LengthFirst(a, b) < 0 <==> StrCmp(EncodedKey(a), EncodedKey(b)) < 0
    ensures LengthFirst(a, b) == 0 <==> StrCmp(EncodedKey(a), EncodedKey(b)) == 0
  {
    hide StrCmp, HeadBytes, Shortest;
    StrCmpIsAnOrder(EncodedKey(a), EncodedKey(b));
    if |a| < |b| {
      HeadsOrder(|a|, |b|, a, b);
    } else if |b| < |a| {
      HeadsOrder(|b|, |a|, b, a);
      StrCmpIsAnOrder(EncodedKey(b), EncodedKey(a));
    } else {
      SamePrefix(HeadBytes(TEXT, |a|, Shortest(|a|)), a, b);
    }
  }

  // ---- The round trip --------------------------------------------------------------------------

  predicate Short(t: bytes) { |t| <= MAX_STR_LEN }

  /** What the guest asks beyond the host's checks. */
  predicate GuestAdmits(w: Workload) {
    && Short(w.executable) && Short(w.cwd) && IsAbsolute(w.cwd)
    && 0 < |w.argv| <= MAX_ENTRIES && (forall i :: 0 <= i < |w.argv| ==> Short(w.argv[i]))
    && |w.env| <= MAX_ENTRIES && (forall i :: 0 <= i < |w.env| ==> Short(w.env[i]))
    && |w.allowed| <= MAX_ALLOWED_ENTRIES && forall i :: 0 <= i < |w.allowed| ==>
      Short(w.allowed[i].0) && Short(w.allowed[i].1)
  }

  /** The spec as the guest holds it, the counts being those of the lists. */
  function Held(w: Workload): Draft {
    Draft(Some(w.executable), Some(w.cwd), Some(w.argv), |w.argv|, w.env, |w.env|, SortedPairs(w.allowed),
      |SortedPairs(w.allowed)|)
  }

  lemma EnvShapesAgree(e: bytes)
    requires MatchesEnv(e)
    ensures IsEnvEntry(e)
  {
    var i :| 0 < i < |e| && e[i] == EQUALS && EQUALS !in e[..i];
    assert e[..i][0] == e[0];
  }

  lemma GoodArgv(w: Workload)
    requires Valid(w)
    ensures GoodTexts(w.argv, false) <==> forall i :: 0 <= i < |w.argv| ==> Short(w.argv[i])
    ensures GoodTexts(w.env, true) <==> forall i :: 0 <= i < |w.env| ==> Short(w.env[i])
  {
    hide IsEnvEntry, MatchesEnv, IsAbsolute;
    forall i | 0 <= i < |w.env| ensures IsEnvEntry(w.env[i]) && NulFree(w.env[i]) {
      EnvShapesAgree(w.env[i]);
      EnvIsNulFree(w.env[i]);
    }
  }

  lemma EnvIsNulFree(e: bytes)
    requires MatchesEnv(e)
    ensures NulFree(e)
  {
  }

  lemma GoodAllowed(w: Workload)
    requires Valid(w)
    ensures GoodPairs(SortedPairs(w.allowed))
      <==> forall i :: 0 <= i < |w.allowed| ==> Short(w.allowed[i].0) && Short(w.allowed[i].1)
  {
    hide SortedPairs, MatchesEnv, IsAbsolute;
    PairsAreSorted(w.allowed);
    var ps := SortedPairs(w.allowed);
    forall i | 0 <= i < |w.allowed|
      ensures GoodPair(w.allowed[i]) <==> Short(w.allowed[i].0) && Short(w.allowed[i].1)
    {
    }
    if GoodPairs(ps) {
      forall i | 0 <= i < |w.allowed| ensures GoodPair(w.allowed[i]) {
        assert w.allowed[i] in ps;
      }
    }
    if forall i :: 0 <= i < |w.allowed| ==> GoodPair(w.allowed[i]) {
      forall k | 0 <= k < |ps| ensures GoodPair(ps[k]) {
        assert ps[k] in w.allowed;
      }
    }
  }

  lemma KeysDiffer()
    ensures Ascii("cwd") != Ascii("env") && Ascii("argv") != Ascii("env") && Ascii("argv") != Ascii("cwd")
    ensures |Ascii("allowedExecutables")| == 18 && |Ascii("argv")| == 4 && |Ascii("cwd")| == 3 && |Ascii("env")| == 3
    ensures |Ascii("executable")| == 10 && |Ascii("schemaVersion")| == 13
    ensures GoodText(Ascii("allowedExecutables")) && GoodText(Ascii("argv")) && GoodText(Ascii("cwd"))
      && GoodText(Ascii("env"))
    ensures GoodText(Ascii("executable")) && GoodText(Ascii("schemaVersion"))
  {
    assert Ascii("cwd")[0] != Ascii("env")[0];
  }

  function EffectAt(w: Workload, k: nat): Effect
    requires k < 6
  {
    match k
    case 0 => if |w.allowed| <= MAX_ALLOWED_ENTRIES && GoodPairs(SortedPairs(w.allowed))
      then SetAllowed(SortedPairs(w.allowed)) else Fatal
    case 1 =>
      if |w.argv| <= MAX_ENTRIES && GoodTexts(w.argv, false) && ArgvBytes(w.argv) <= MAX_ARGV_BYTES
        then SetArgv(w.argv) else Fatal
    case 2 => if GoodText(w.cwd) then SetCwd(w.cwd) else Fatal
    case 3 => if |w.env| <= MAX_ENTRIES && GoodTexts(w.env, true) then SetEnv(w.env) else Fatal
    case 4 => if GoodText(w.executable) then SetExecutable(w.executable) else Fatal
    case _ => NoEffect
  }

  lemma FieldEffects(w: Workload, k: nat)
    requires k < 6
    ensures FieldEffect(Fields(w)[k]) == EffectAt(w, k)
  {
    hide Ascii, GoodText, GoodTexts, GoodPairs, ArgvBytes, SortedPairs;
    KeysDiffer();
    PairsAreSorted(w.allowed);
  }

  lemma StepFrom(w: Workload, d: Draft, k: nat)
    requires k < 6
    ensures Folds.Fold(Step, d, Fields(w)[k..]) ==
      var next := Apply(d, EffectAt(w, k));
      if next.None? then None else Folds.Fold(Step, next.value, Fields(w)[k + 1..])
  {
    hide Fields, EffectAt, FieldEffect, Apply;
    FieldEffects(w, k);
    var fs := Fields(w);
    assert fs[k..] == [fs[k]] + fs[k + 1..];
    Folds.FoldOfFirst(Step, d, fs[k], fs[k + 1..]);
  }

  predicate NoneFatal(w: Workload) { forall k :: 0 <= k < 6 ==> !EffectAt(w, k).Fatal? }

  lemma {:induction false} FatalEffect(w: Workload, d: Draft, j: nat, k: nat)
    requires j <= k < 6 && EffectAt(w, k).Fatal?
    ensures Folds.Fold(Step, d, Fields(w)[j..]) == None
    decreases k - j
  {
    hide Fields, EffectAt;
    StepFrom(w, d, j);
    var next := Apply(d, EffectAt(w, j));
    if j < k && next.Some? { FatalEffect(w, next.value, j + 1, k); }
  }

  function AfterLists(w: Workload): Draft { WithArgv(WithAllowed(EMPTY, SortedPairs(w.allowed)), w.argv) }

  lemma ListsFirst(w: Workload)
    requires !EffectAt(w, 0).Fatal? && !EffectAt(w, 1).Fatal?
    ensures Folds.Fold(Step, EMPTY, Fields(w)) == Folds.Fold(Step, AfterLists(w), Fields(w)[2..])
  {
    hide Fields, GoodText, GoodTexts, GoodPairs, ArgvBytes, SortedPairs, WithArgv, WithAllowed, Folds.Fold;
    StepFrom(w, EMPTY, 0);
    StepFrom(w, WithAllowed(EMPTY, SortedPairs(w.allowed)), 1);
    assert Fields(w)[0..] == Fields(w);
  }

  lemma TextsLast(w: Workload)
    requires !EffectAt(w, 2).Fatal? && !EffectAt(w, 3).Fatal? && !EffectAt(w, 4).Fatal?
    ensures Folds.Fold(Step, AfterLists(w), Fields(w)[2..]) ==
      Some(WithEnv(AfterLists(w).(cwd := Some(w.cwd)), w.env).(executable := Some(w.executable)))
  {
    hide Fields, GoodText, GoodTexts, GoodPairs, ArgvBytes, SortedPairs, WithEnv, AfterLists, Folds.Fold;
    var d3 := AfterLists(w).(cwd := Some(w.cwd));
    var d4 := WithEnv(d3, w.env);
    var d5 := d4.(executable := Some(w.executable));
    StepFrom(w, AfterLists(w), 2);
    StepFrom(w, d3, 3);
    StepFrom(w, d4, 4);
    StepFrom(w, d5, 5);
    NothingLeft(w, d5);
  }

  lemma NothingLeft(w: Workload, d: Draft)
    ensures Folds.Fold(Step, d, Fields(w)[6..]) == Some(d)
  {
    hide Fields;
  }

  lemma FilledInOrder(w: Workload)
    requires NoneFatal(w)
    ensures Folds.Fold(Step, EMPTY, Fields(w)) == Some(Held(w))
  {
    hide Fields, EffectAt, SortedPairs, Folds.Fold;
    ListsFirst(w);
    TextsLast(w);
  }

  /** The map the host writes, in whatever order it sorts its fields, means the spec to the guest. */
  lemma FieldsMean(w: Workload)
    requires Valid(w) && ArgvBytes(w.argv) <= MAX_ARGV_BYTES
    ensures Meaning(Fields(w)) == if GuestAdmits(w) then Some(Held(w)) else None
  {
    hide Fields, SortedPairs, Valid, ArgvBytes;
    NoneFatalMeans(w);
    if NoneFatal(w) {
      FilledInOrder(w);
    } else {
      var k :| 0 <= k < 6 && EffectAt(w, k).Fatal?;
      FatalEffect(w, EMPTY, 0, k);
      assert Fields(w)[0..] == Fields(w);
    }
  }

  lemma NoneFatalMeans(w: Workload)
    requires Valid(w) && ArgvBytes(w.argv) <= MAX_ARGV_BYTES
    ensures NoneFatal(w) && w.argv != [] && IsAbsolute(w.cwd) <==> GuestAdmits(w)
  {
    hide GoodTexts, GoodPairs, SortedPairs, ArgvBytes, MatchesEnv;
    GoodArgv(w);
    GoodAllowed(w);
    assert NoneFatal(w) <==>
      !EffectAt(w, 0).Fatal? && !EffectAt(w, 1).Fatal? && !EffectAt(w, 2).Fatal? && !EffectAt(w, 3).Fatal?
        && !EffectAt(w, 4).Fatal?;
  }

  // ---- The size cap covers the guest's argv cap ----------------------------------------------------

  lemma {:induction false} TextsAreLonger(ts: seq<bytes>)
    requires forall k :: 0 <= k < |ts| ==> |ts[k]| < LIMIT
    ensures ArgvBytes(ts) <= |TextsBytes(ts)|
  {
    hide HeadBytes, Shortest;
    if ts != [] {
      TextsAreLonger(ts[1..]);
      ArgvBytesFromFront(ts);
    }
  }

  lemma {:induction false} ArgvBytesFromFront(ts: seq<bytes>)
    requires ts != []
    ensures ArgvBytes(ts) == |ts[0]| + 1 + ArgvBytes(ts[1..])
    decreases |ts|
  {
    if |ts| > 1 {
      ArgvBytesFromFront(ts[..|ts| - 1]);
      assert ts[1..][..|ts| - 2] == ts[..|ts| - 1][1..];
    }
  }

  lemma {:induction false} FieldIsPart(fs: seq<Field>, k: nat)
    requires (forall j :: 0 <= j < |fs| ==> FieldFits(fs[j])) && k < |fs|
    ensures |FieldBytes(fs[k])| <= |FieldsBytes(fs)|
  {
    hide FieldBytes, FieldFits;
    if k > 0 {
      assert fs[1..][k - 1] == fs[k];
      FieldIsPart(fs[1..], k - 1);
    }
  }

  lemma ArgvFitsInCbor(w: Workload)
    requires Sized(w)
    ensures ArgvBytes(w.argv) <= |Canonical(w)|
  {
    hide HeadBytes, Shortest, FieldsBytes, TextBytes, TextsBytes, PairsBytes, ArgvBytes, SortedFields, Ascii,
      SortedPairs;
    FieldsFit(w);
    FieldsAreSorted(w);
    var f := Field(Ascii("argv"), Texts(w.argv));
    assert f == Fields(w)[1] && f in SortedFields(w);
    var k :| 0 <= k < |SortedFields(w)| && SortedFields(w)[k] == f;
    FieldIsPart(SortedFields(w), k);
    TextsAreLonger(w.argv);
  }

  /** vm-init, from its argument to the decoded spec. */
  function Receive(token: bytes): Option<Draft> {
    var cbor := Base64Url.Quads(token);
    if cbor.None? || cbor.value == [] || |cbor.value| > MAX_CBOR then None else Decode(cbor.value)
  }

  lemma CanonicalIsDecoded(w: Workload)
    requires Sized(w) && Valid(w) && |Canonical(w)| <= MAX_CBOR
    ensures Decode(Canonical(w)) == if GuestAdmits(w) then Some(Held(w)) else None
  {
    hide DocumentBytes, Fields, SortedFields, Valid, Sized, GuestAdmits, Meaning, Held, ArgvBytes, Decode, CountFits,
      Fits;
    FieldsFit(w);
    FieldsAreSorted(w);
    ArgvFitsInCbor(w);
    DocumentIsDecoded(Canonical(w), SortedFields(w), []);
    assert Canonical(w) + [] == Canonical(w);
    KeysAreDistinct(w);
    OrderDoesNotMatter(Fields(w), SortedFields(w));
    FieldsMean(w);
  }

  lemma KeysAreDistinct(w: Workload)
    ensures DistinctKeys(Fields(w))
  {
    hide Ascii, SortedPairs;
    KeysDiffer();
  }

  /**
   * Every spec the host encodes is decoded by the guest to the same spec, its allowed executables
   * in key order, when the guest's own limits admit it, and refused otherwise.
   */
  lemma SpecIsReceived(w: Workload)
    requires Sized(w) && EncodeLaunchSpec(w).Some?
    ensures Receive(EncodeLaunchSpec(w).value) == if GuestAdmits(w) then Some(Held(w)) else None
    ensures multiset(Held(w).allowed) == multiset(w.allowed)
  {
    hide Canonical, Base64Url.Encode, Base64Url.Quads, Valid, Sized, GuestAdmits, Decode, SortedPairs;
    var cbor := Canonical(w);
    CanonicalIsNotEmpty(w);
    CanonicalIsDecoded(w);
    Base64Url.BothInvertEncode(cbor, []);
    assert Base64Url.Encode(cbor) + [] == Base64Url.Encode(cbor);
    Base64Url.EncodedIsNotEmpty(cbor);
    PairsAreSorted(w.allowed);
  }

  lemma CanonicalIsNotEmpty(w: Workload)
    requires Sized(w)
    ensures Canonical(w) != []
  {
    hide HeadBytes, FieldsBytes, Shortest;
  }
}
