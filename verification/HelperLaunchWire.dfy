/**
 * The launch spec from the strings of buildHelperLaunchSpec
 * (packages/sandbox-vm-native/src/helper-launch-spec.ts) to the bytes the helper holds:
 * JSON.stringify, UTF-8, base64url, and the way back.
 */
module HelperLaunchWire {
  import opened Prelude
  import opened ByteText
  import opened JsonText
  import opened LaunchSpec
  import opened HelperLaunchSpec
  import Decimal
  import Base64Url
  import Utf8

  function AllInUtf8(ss: seq<string>): (r: seq<string>)
    ensures |r| == |ss| && forall i :: 0 <= i < |ss| ==> r[i] == InUtf8(ss[i])
  {
    seq(|ss|, i requires 0 <= i < |ss| => InUtf8(ss[i]))
  }

  /** The spec with the bytes of its strings. */
  function OnWire(s: Spec): Spec {
    Spec(InUtf8(s.rootfsPath), InUtf8(s.skillBlockPath), InUtf8(s.caBlockPath), s.vsockPort, InUtf8(s.vsockHostSocket),
         s.cpus, s.memMib, InUtf8(s.bootstrapPath), AllInUtf8(s.bootstrapArgv), AllInUtf8(s.trustedEnv))
  }

  function ValueOnWire(v: Js): Js {
    match v
    case JsString(s) => JsString(InUtf8(s))
    case JsNumber(_) => v
    case JsStrings(items) => JsStrings(AllInUtf8(items))
  }

  /** Property names are ASCII. */
  function AllOnWire(ps: seq<Property>): (r: seq<Property>)
    ensures |r| == |ps| && forall i :: 0 <= i < |ps| ==> r[i] == Property(ps[i].name, ValueOnWire(ps[i].value))
  {
    seq(|ps|, i requires 0 <= i < |ps| => Property(ps[i].name, ValueOnWire(ps[i].value)))
  }

  // ---- The bytes of the printed text ------------------------------------------------------------

  lemma {:induction false} JoinedOnWire(items: seq<string>)
    ensures InUtf8(Joined(items)) == Joined(AllInUtf8(items))
  {
    hide InUtf8, Stringified;
    if items == [] {
      InUtf8OfAscii("");
    } else {
      assert AllInUtf8(items)[1..] == AllInUtf8(items[1..]);
      var tail := if |items| == 1 then "" else "," + Joined(items[1..]);
      JoinedOnWire(items[1..]);
      StringifiedInUtf8(items[0]);
      InUtf8OfAscii(",");
      InUtf8OfAscii("");
      InUtf8OfConcat(",", Joined(items[1..]));
      InUtf8OfConcat(Stringified(items[0]), tail);
    }
  }

  lemma ValueTextOnWire(v: Js)
    ensures InUtf8(StringifyValue(v)) == StringifyValue(ValueOnWire(v))
  {
    hide InUtf8, Stringified, Joined, Decimal.Numeral;
    match v
    case JsString(s) => StringifiedInUtf8(s);
    case JsNumber(n) => InUtf8OfAscii(Decimal.Numeral(n));
    case JsStrings(items) =>
      JoinedOnWire(items);
      InUtf8OfAscii("[");
      InUtf8OfAscii("]");
      InUtf8OfConcat("[", Joined(items));
      InUtf8OfConcat("[" + Joined(items), "]");
  }

  lemma {:induction false} PropertiesOnWire(ps: seq<Property>)
    requires forall i :: 0 <= i < |ps| ==> IsAscii(ps[i].name)
    ensures InUtf8(StringifyProperties(ps)) == StringifyProperties(AllOnWire(ps))
  {
    hide InUtf8, Stringified, StringifyValue, ValueOnWire, IsAscii;
    if ps == [] {
      MarksOnWire();
    } else {
      var name, value := ps[0].name, StringifyValue(ps[0].value);
      var tail := if |ps| == 1 then "" else "," + StringifyProperties(ps[1..]);
      assert AllOnWire(ps)[1..] == AllOnWire(ps[1..]);
      PropertiesOnWire(ps[1..]);
      ValueTextOnWire(ps[0].value);
      StringifiedInUtf8(name);
      InUtf8OfAscii(name);
      MarksOnWire();
      InUtf8OfConcat(",", StringifyProperties(ps[1..]));
      InUtf8OfConcat(Stringified(name), ":");
      InUtf8OfConcat(Stringified(name) + ":", value);
      InUtf8OfConcat(Stringified(name) + ":" + value, tail);
    }
  }

  lemma MarksOnWire()
    ensures InUtf8("") == "" && InUtf8(",") == "," && InUtf8(":") == ":" && InUtf8("{") == "{" && InUtf8("}") == "}"
  {
    hide InUtf8;
    InUtf8OfAscii("");
    InUtf8OfAscii(",");
    InUtf8OfAscii(":");
    InUtf8OfAscii("{");
    InUtf8OfAscii("}");
  }

  lemma WordIsAscii(w: string)
    requires IsWord(w)
    ensures IsAscii(w)
  {
  }

  lemma TextOnWire(s: Spec)
    ensures InUtf8(Stringify(s)) == Stringify(OnWire(s))
  {
    var ps := Properties(s);
    PropertiesAreTyped(s);
    forall i | 0 <= i < |ps| ensures IsAscii(ps[i].name) {
      hide Typed, IsWord, IsAscii, Properties;
      NameIsAWord(ps[i]);
      WordIsAscii(ps[i].name);
    }
    assert AllOnWire(ps) == Properties(OnWire(s));
    hide InUtf8, Properties, StringifyProperties, IsAscii;
    PropertiesOnWire(ps);
    MarksOnWire();
    InUtf8OfConcat("{", StringifyProperties(ps));
    InUtf8OfConcat("{" + StringifyProperties(ps), "}");
  }

  // ---- Checks on strings and on their bytes -----------------------------------------------------------

  predicate Occurs(p: char -> bool, t: string) { exists i :: 0 <= i < |t| && p(t[i]) }

  lemma OccursInConcat(p: char -> bool, a: string, b: string)
    ensures Occurs(p, a + b) <==> Occurs(p, a) || Occurs(p, b)
  {
    if i :| 0 <= i < |a| && p(a[i]) { assert p((a + b)[i]); }
    if i :| 0 <= i < |b| && p(b[i]) { assert p((a + b)[|a| + i]); }
  }

  /** An ASCII character occurs in the bytes exactly when it occurs in the text. */
  lemma {:induction false} OccursOnWire(p: char -> bool, t: string)
    requires forall c :: p(c) ==> c as int < 0x80
    ensures Occurs(p, InUtf8(t)) <==> Occurs(p, t)
  {
    hide InUtf8, Occurs;
    if t == "" {
      InUtf8OfAscii("");
    } else {
      var c, rest := t[0], t[1..];
      assert t == [c] + rest;
      OccursOnWire(p, rest);
      OneChar(c);
      InUtf8OfConcat([c], rest);
      OccursInConcat(p, [c], rest);
      OccursInConcat(p, InUtf8([c]), InUtf8(rest));
      if c as int >= 0x80 { NoneOccurs(p, [c]); NoneOccurs(p, InUtf8([c])); }
    }
  }

  lemma NoneOccurs(p: char -> bool, t: string)
    requires (forall c :: p(c) ==> c as int < 0x80) && forall i :: 0 <= i < |t| ==> t[i] as int >= 0x80
    ensures !Occurs(p, t)
  {
  }

  /** The first byte is the first character when either is ASCII, and the bytes go on as the text does. */
  lemma FirstOnWire(t: string)
    requires t != ""
    ensures InUtf8(t) != "" && InUtf8(t) == InUtf8([t[0]]) + InUtf8(t[1..])
    ensures if t[0] as int < 0x80 then InUtf8([t[0]]) == [t[0]] && InUtf8(t)[0] == t[0] else InUtf8(t)[0] as int >= 0x80
  {
    assert t == [t[0]] + t[1..];
    InUtf8OfConcat([t[0]], t[1..]);
    OneChar(t[0]);
    assert Utf8.EncodeChar(t[0]) != [];
  }

  lemma DotDotOfConcat(a: string, b: string)
    ensures HasDotDot(a + b) <==>
      HasDotDot(a) || HasDotDot(b) || (a != "" && b != "" && a[|a| - 1] == '.' && b[0] == '.')
  {
    var s := a + b;
    if i :| 0 <= i < |a| - 1 && a[i] == '.' && a[i + 1] == '.' { assert s[i] == '.' && s[i + 1] == '.'; }
    if i :| 0 <= i < |b| - 1 && b[i] == '.' && b[i + 1] == '.' { assert s[|a| + i] == '.' && s[|a| + i + 1] == '.'; }
    if a != "" && b != "" && a[|a| - 1] == '.' && b[0] == '.' { assert s[|a| - 1] == '.' && s[|a| - 1 + 1] == '.'; }
    if i :| 0 <= i < |s| - 1 && s[i] == '.' && s[i + 1] == '.' {
      if i + 1 < |a| { assert a[i] == '.' && a[i + 1] == '.'; }
      else if i >= |a| { assert b[i - |a|] == '.' && b[i - |a| + 1] == '.'; }
    }
  }

  lemma {:induction false} DotDotOnWire(t: string)
    ensures HasDotDot(InUtf8(t)) <==> HasDotDot(t)
  {
    hide InUtf8, HasDotDot;
    if t == "" {
      InUtf8OfAscii("");
    } else {
      var c, rest := t[0], t[1..];
      assert t == [c] + rest;
      DotDotOnWire(rest);
      FirstOnWire(t);
      DotDotOfConcat([c], rest);
      DotDotOfConcat(InUtf8([c]), InUtf8(rest));
      if rest != "" { FirstOnWire(rest); }
      MarksOnWire();
      OneChar(c);
      OneHasNone(c);
    }
  }

  lemma OneHasNone(c: char)
    ensures !HasDotDot([c]) && (c as int >= 0x80 ==> !HasDotDot(InUtf8([c])))
  {
    hide InUtf8;
    OneChar(c);
  }

  lemma NulOnWire(t: string)
    ensures HasNul(InUtf8(t)) <==> HasNul(t)
    ensures !HasNul(t) ==> IsByteString(InUtf8(t))
  {
    hide InUtf8;
    var p := (c: char) => c as int == 0;
    OccursOnWire(p, t);
    assert Occurs(p, t) <==> HasNul(t);
    assert Occurs(p, InUtf8(t)) <==> HasNul(InUtf8(t));
    if !HasNul(t) { InUtf8IsBytes(t); }
  }

  lemma OddOnWire(t: string)
    ensures HasOdd(InUtf8(t)) <==> HasOdd(t)
  {
    hide InUtf8, HasShortEscape;
    OccursOnWire(IsOdd, t);
    assert Occurs(IsOdd, t) <==> HasOdd(t);
    assert Occurs(IsOdd, InUtf8(t)) <==> HasOdd(InUtf8(t));
  }

  lemma EnvEntryOnWire(e: string)
    ensures IsEnvEntry(InUtf8(e)) <==> IsEnvEntry(e)
  {
    hide InUtf8;
    var p := (c: char) => c == '=';
    OccursOnWire(p, e);
    assert Occurs(p, e) <==> '=' in e;
    assert Occurs(p, InUtf8(e)) <==> '=' in InUtf8(e);
    MarksOnWire();
    if e != "" { FirstOnWire(e); }
  }

  lemma PathOnWire(p: string)
    requires PathFieldOk(p)
    ensures PathFieldOk(InUtf8(p)) && IsByteString(InUtf8(p))
  {
    hide InUtf8, HasDotDot, HasNul;
    FirstOnWire(p);
    DotDotOnWire(p);
    NulOnWire(p);
  }

  lemma AcceptedOnWire(s: Spec)
    requires BuilderAccepts(s)
    ensures BuilderAccepts(OnWire(s)) && StringsAreBytes(OnWire(s))
  {
    hide InUtf8, PathFieldOk, HasNul, IsByteString;
    PathOnWire(s.rootfsPath);
    PathOnWire(s.skillBlockPath);
    PathOnWire(s.caBlockPath);
    PathOnWire(s.vsockHostSocket);
    PathOnWire(s.bootstrapPath);
    var a := s.bootstrapArgv[0];
    NulOnWire(a);
    FirstOnWire(a);
    if InUtf8(a) == InUtf8(s.bootstrapPath) { InUtf8IsInjective(a, s.bootstrapPath); }
    forall i | 0 <= i < |s.trustedEnv|
      ensures !HasNul(InUtf8(s.trustedEnv[i])) && IsByteString(InUtf8(s.trustedEnv[i]))
    {
      NulOnWire(s.trustedEnv[i]);
    }
  }

  lemma AdmittedOnWire(s: Spec)
    ensures HelperAdmits(OnWire(s)) <==> HelperAdmits(s)
  {
    hide InUtf8, HasOdd, IsEnvEntry;
    OddOnWire(s.rootfsPath);
    OddOnWire(s.skillBlockPath);
    OddOnWire(s.caBlockPath);
    OddOnWire(s.vsockHostSocket);
    OddOnWire(s.bootstrapPath);
    var w := OnWire(s);
    forall i | 0 <= i < |s.bootstrapArgv| ensures HasOdd(w.bootstrapArgv[i]) <==> HasOdd(s.bootstrapArgv[i]) {
      OddOnWire(s.bootstrapArgv[i]);
    }
    forall i | 0 <= i < |s.trustedEnv|
      ensures HasOdd(w.trustedEnv[i]) <==> HasOdd(s.trustedEnv[i])
      ensures IsEnvEntry(w.trustedEnv[i]) <==> IsEnvEntry(s.trustedEnv[i])
    {
      OddOnWire(s.trustedEnv[i]);
      EnvEntryOnWire(s.trustedEnv[i]);
    }
  }

  // ---- The way of a spec ------------------------------------------------------------------------------

  /** What buildHelperLaunchSpec returns. */
  function TextToken(s: Spec): seq<byte> { Base64Url.Encode(Utf8.Encode(Stringify(s))) }

  lemma TokenOnWire(s: Spec)
    requires BuilderAccepts(s)
    ensures IsByteString(Stringify(OnWire(s))) && TextToken(s) == Token(OnWire(s))
  {
    hide Stringify, BuilderAccepts, StringsAreBytes, Base64Url.Encode, Utf8.Encode, IsByteString, OnWire;
    AcceptedOnWire(s);
    TextIsBytes(OnWire(s));
    TextOnWire(s);
    BytesOfInUtf8(Stringify(s));
  }

  lemma BytesOfInUtf8(t: string)
    requires IsByteString(InUtf8(t))
    ensures Bytes(InUtf8(t)) == Utf8.Encode(t)
  {
    hide Utf8.Encode;
  }

  /**
   * For every spec the builder accepts, whatever its strings hold, the helper has the UTF-8 bytes
   * of just that spec, or refuses it exactly when it breaks one of the helper's own limits.
   */
  lemma SpecIsReceived(s: Spec)
    requires BuilderAccepts(s)
    ensures Receive(TextToken(s)) == if HelperAdmits(s) && |TextToken(s)| <= MAX_TOKEN then Some(OnWire(s)) else None
  {
    hide Stringify, BuilderAccepts, StringsAreBytes, HelperAdmits, Base64Url.Encode, Utf8.Encode, IsByteString, OnWire,
      Receive;
    AcceptedOnWire(s);
    TokenOnWire(s);
    TokenIsReceived(OnWire(s));
    AdmittedOnWire(s);
  }

  /** Different specs have different bytes. */
  lemma OnWireIsInjective(s: Spec, t: Spec)
    requires OnWire(s) == OnWire(t)
    ensures s == t
  {
    hide InUtf8;
    InUtf8IsInjective(s.rootfsPath, t.rootfsPath);
    InUtf8IsInjective(s.skillBlockPath, t.skillBlockPath);
    InUtf8IsInjective(s.caBlockPath, t.caBlockPath);
    InUtf8IsInjective(s.vsockHostSocket, t.vsockHostSocket);
    InUtf8IsInjective(s.bootstrapPath, t.bootstrapPath);
    ListIsInjective(s.bootstrapArgv, t.bootstrapArgv);
    ListIsInjective(s.trustedEnv, t.trustedEnv);
  }

  lemma ListIsInjective(a: seq<string>, b: seq<string>)
    requires AllInUtf8(a) == AllInUtf8(b)
    ensures a == b
  {
    hide InUtf8;
    forall i | 0 <= i < |a| ensures a[i] == b[i] {
      assert AllInUtf8(a)[i] == AllInUtf8(b)[i];
      InUtf8IsInjective(a[i], b[i]);
    }
  }
}
