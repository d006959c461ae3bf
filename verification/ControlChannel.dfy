/**
 * The ready handshake on the control stream (packages/sandbox-vm-native/src/engine.ts,
 * waitForReady): frames are cut out of a growing buffer by brace matching, and the first one
 * that decides settles the wait. Every chunk of bytes is decoded on its own. JSON.parse and
 * String.trim are a classification of texts that is a parameter.
 */
module ControlChannel {
  import opened Prelude
  import opened Strings
  import opened JsonScanner
  import opened JsonDocument
  import opened Decimal
  import Utf8

  // ---- Brace matching -----------------------------------------------------------------------

  /** Where the matching loop stands. */
  datatype Mode = Mode(depth: nat, inStr: bool, esc: bool)

  const OUTSIDE: Mode := Mode(0, false, false)

  /** The closing brace of the first object. */
  predicate Closes(m: Mode, c: char) { !m.esc && !m.inStr && c == '}' && m.depth == 1 }

  function Next(m: Mode, c: char): Mode {
    if m.esc then m.(esc := false)
    else if c == '\\' then m.(esc := true)
    else if c == '"' then m.(inStr := !m.inStr)
    else if m.inStr then m
    else if c == '{' then m.(depth := m.depth + 1)
    else if c == '}' && m.depth > 0 then m.(depth := m.depth - 1)
    else m
  }

  /** How many characters the first object takes; None while it is incomplete. */
  function FrameLength(s: string, m: Mode): (n: Option<nat>)
    ensures n.Some? ==> 0 < n.value <= |s|
  {
    if s == "" then None
    else if Closes(m, s[0]) then Some(1)
    else
      var rest := FrameLength(s[1..], Next(m, s[0]));
      if rest.None? then None else Some(rest.value + 1)
  }

  // ---- One piece at a time ---------------------------------------------------------------------

  /** A piece handed to onFrame, and what stays in the buffer. */
  datatype Cut = Cut(piece: string, rest: string)

  /** The next piece of the buffer: a garbage line, the garbage in front of an object, or an object. */
  function CutOne(buf: string): (r: Option<Cut>)
    ensures r.Some? ==> |r.value.rest| < |buf|
  {
    var start, nl := IndexOf(buf, '{'), IndexOf(buf, '\n');
    if nl < start then Some(Cut(buf[..nl], buf[nl + 1..]))
    else if start == |buf| then None
    else if start > 0 then Some(Cut(buf[..start], buf[start..]))
    else
      var n := FrameLength(buf, OUTSIDE);
      if n.None? then None else Some(Cut(buf[..n.value], buf[n.value..]))
  }

  /** All pieces of a text, in order, and what is left over. */
  function Pieces(buf: string): seq<string>
    decreases |buf|
  {
    var r := CutOne(buf);
    if r.None? then [] else [r.value.piece] + Pieces(r.value.rest)
  }

  function Leftover(buf: string): string
    decreases |buf|
  {
    var r := CutOne(buf);
    if r.None? then buf else Leftover(r.value.rest)
  }

  lemma {:induction false} FrameStays(s: string, m: Mode, more: string)
    requires FrameLength(s, m).Some?
    ensures FrameLength(s + more, m) == FrameLength(s, m)
  {
    assert (s + more)[0] == s[0] && (s + more)[1..] == s[1..] + more;
    if !Closes(m, s[0]) { FrameStays(s[1..], Next(m, s[0]), more); }
  }

  /** More input does not change a piece that can already be cut. */
  lemma CutStays(buf: string, more: string)
    requires CutOne(buf).Some?
    ensures CutOne(buf + more) == Some(Cut(CutOne(buf).value.piece, CutOne(buf).value.rest + more))
  {
    hide FrameLength, IndexOf;
    var all := buf + more;
    var start, nl := IndexOf(buf, '{'), IndexOf(buf, '\n');
    IndexStays(buf, '{', more);
    IndexStays(buf, '\n', more);
    if nl < start {
      assert all[..nl] == buf[..nl] && all[nl + 1..] == buf[nl + 1..] + more;
    } else if start > 0 {
      assert all[..start] == buf[..start] && all[start..] == buf[start..] + more;
    } else {
      FrameStays(buf, OUTSIDE, more);
      var n := FrameLength(buf, OUTSIDE).value;
      assert all[..n] == buf[..n] && all[n..] == buf[n..] + more;
    }
  }

  /** Cutting what has arrived and then the rest with more is cutting the whole. */
  lemma {:induction false} CutInParts(buf: string, more: string)
    ensures Pieces(buf + more) == Pieces(buf) + Pieces(Leftover(buf) + more)
    ensures Leftover(buf + more) == Leftover(Leftover(buf) + more)
    decreases |buf|
  {
    hide CutOne;
    if CutOne(buf).Some? {
      CutStays(buf, more);
      CutInParts(CutOne(buf).value.rest, more);
    }
  }

  // ---- Judging pieces --------------------------------------------------------------------------

  /** What trim and JSON.parse make of a piece. */
  datatype Class =
    | Blank
    | NotJson
    | Null                      // reading a property of it throws
    | Ready
    | Failure(message: string)
    | Other

  datatype Verdict = IsReady | Refused(message: string) | TooMuchGarbage | Thrown | EndOfStream

  datatype Progress = Open(malformed: nat) | Settled(verdict: Verdict)

  const MAX_MALFORMED: nat := 2

  /** onFrame */
  function Judge(p: Progress, c: Class): Progress {
    if p.Settled? then p
    else
      match c
      case Blank => p
      case NotJson => if p.malformed + 1 > MAX_MALFORMED then Settled(TooMuchGarbage) else Open(p.malformed + 1)
      case Null => Settled(Thrown)
      case Ready => Settled(IsReady)
      case Failure(m) => Settled(Refused(m))
      case Other => p
  }

  function JudgeAll(p: Progress, pieces: seq<string>, classify: string -> Class): Progress
    decreases |pieces|
  {
    if pieces == [] then p else JudgeAll(Judge(p, classify(pieces[0])), pieces[1..], classify)
  }

  lemma {:induction false} JudgedInParts(p: Progress, a: seq<string>, b: seq<string>, classify: string -> Class)
    ensures JudgeAll(p, a + b, classify) == JudgeAll(JudgeAll(p, a, classify), b, classify)
    decreases |a|
  {
    if a == [] {
      assert a + b == b;
    } else {
      assert (a + b)[1..] == a[1..] + b;
      JudgedInParts(Judge(p, classify(a[0])), a[1..], b, classify);
    }
  }

  lemma {:induction false} SettledStays(p: Progress, pieces: seq<string>, classify: string -> Class)
    requires p.Settled?
    ensures JudgeAll(p, pieces, classify) == p
  {
    if pieces != [] { SettledStays(p, pieces[1..], classify); }
  }

  /** The state of the wait after a stream. */
  function After(stream: string, classify: string -> Class): Progress {
    JudgeAll(Open(0), Pieces(stream), classify)
  }

  /** The verdict once the stream has ended: a last look at what is left, then end of stream. */
  function VerdictOf(stream: string, classify: string -> Class): Verdict {
    var p := JudgeAll(After(stream, classify), [Leftover(stream)], classify);
    if p.Settled? then p.verdict else EndOfStream
  }

  // ---- The listener -----------------------------------------------------------------------------

  class Listener {
    const classify: string -> Class
    var buf: string
    var progress: Progress
    ghost var stream: string

    /** What has been read so far has been judged, and what is left is in the buffer. */
    ghost predicate Valid()
      reads this
    {
      && progress == After(stream, classify)
      && (progress.Open? ==> buf == Leftover(stream))
    }

    constructor (classify: string -> Class)
      ensures Valid() && stream == "" && progress == Open(0) && this.classify == classify
    {
      this.classify := classify;
      buf, progress, stream := "", Open(0), "";
    }

    method OnFrame(piece: string)
      modifies this`progress
      ensures progress == Judge(old(progress), classify(piece))
    {
      progress := Judge(progress, classify(piece));
    }

    /** drainFrames(false): every round shortens the buffer or returns. */
    method Drain()
      requires progress.Open?
      modifies this`buf, this`progress
      ensures progress == JudgeAll(old(progress), Pieces(old(buf)), classify)
      ensures progress.Open? ==> buf == Leftover(old(buf))
    {
      hide CutOne;
      while true
        invariant progress.Open?
        invariant JudgeAll(old(progress), Pieces(old(buf)), classify) == JudgeAll(progress, Pieces(buf), classify)
        invariant Leftover(old(buf)) == Leftover(buf)
        decreases |buf|
      {
        var cut := CutOne(buf);
        if cut.None? { return; }
        buf := cut.value.rest;
        ghost var tail := Pieces(buf);
        assert ([cut.value.piece] + tail)[1..] == tail;
        OnFrame(cut.value.piece);
        if progress.Settled? {
          SettledStays(progress, tail, classify);
          return;
        }
      }
    }

    /** onData: the chunk is decoded by itself, whatever the chunk before it ended with. */
    method OnData(chunk: seq<byte>)
      requires Valid()
      modifies this
      ensures Valid() && stream == old(stream) + Utf8.Decode(chunk)
      ensures old(progress).Settled? ==> progress == old(progress)
    {
      hide CutOne, Utf8.Decode;
      var text := Utf8.Decode(chunk);
      CutInParts(stream, text);
      JudgedInParts(Open(0), Pieces(stream), Pieces(Leftover(stream) + text), classify);
      ghost var pieces := Pieces(Leftover(stream) + text);
      stream := stream + text;
      if progress.Settled? {
        SettledStays(progress, pieces, classify);
        return;
      }
      buf := buf + text;
      Drain();
    }

    /** onEnd: drain, flush what is left, give up. */
    method OnEnd() returns (v: Verdict)
      requires Valid()
      modifies this
      ensures v == VerdictOf(stream, classify) && progress == Settled(v) && stream == old(stream)
    {
      hide CutOne, Pieces, Leftover;
      JudgedOne(progress, Leftover(stream), classify);
      if progress.Open? {
        NothingLeftToCut(stream);
        NoneJudged(progress, classify);
        Drain();
        var rest := buf;
        buf := "";
        OnFrame(rest);
        if progress.Open? { progress := Settled(EndOfStream); }
      }
      return progress.verdict;
    }
  }

  lemma JudgedOne(p: Progress, piece: string, classify: string -> Class)
    ensures JudgeAll(p, [piece], classify) == Judge(p, classify(piece))
  {
    assert [piece][1..] == [];
  }

  lemma NoneJudged(p: Progress, classify: string -> Class)
    ensures JudgeAll(p, [], classify) == p
  {
  }

  lemma {:induction false} NothingLeftToCut(s: string)
    ensures Pieces(Leftover(s)) == [] && Leftover(Leftover(s)) == Leftover(s)
    decreases |s|
  {
    hide CutOne;
    if CutOne(s).Some? { NothingLeftToCut(CutOne(s).value.rest); }
  }

  /**
   * The verdict of a whole run depends on the text that was seen alone. When no chunk ends inside
   * a decoding unit that is the text of the stream, so the verdict does not depend on the cuts.
   */
  method WaitForReady(chunks: seq<seq<byte>>, classify: string -> Class) returns (v: Verdict)
    ensures v == VerdictOf(Utf8.Seen(chunks), classify)
    ensures Utf8.IsCleanlyCut(chunks) ==> v == VerdictOf(Utf8.Decode(Utf8.Joined(chunks)), classify)
  {
    hide VerdictOf, Utf8.IsCleanlyCut, Utf8.Decode, Utf8.Joined;
    Utf8.SeenIsDecoded(chunks);
    var l := new Listener(classify);
    assert chunks[..0] == [];
    for i := 0 to |chunks|
      invariant l.Valid() && l.classify == classify && l.stream == Utf8.Seen(chunks[..i])
    {
      assert chunks[..i + 1][..i] == chunks[..i];
      l.OnData(chunks[i]);
    }
    assert chunks[..|chunks|] == chunks;
    v := l.OnEnd();
  }

  // ---- Every JSON object is one frame -----------------------------------------------------------

  /** The mode after a text that closes nothing; None when the first object ends inside it. */
  function Through(m: Mode, s: string): Option<Mode>
    decreases |s|
  {
    if s == "" then Some(m)
    else if Closes(m, s[0]) then None
    else Through(Next(m, s[0]), s[1..])
  }

  lemma {:induction false} ThroughConcat(m: Mode, a: string, b: string)
    ensures Through(m, a + b) == var n := Through(m, a); if n.None? then None else Through(n.value, b)
    decreases |a|
  {
    hide Closes, Next;
    if a == "" {
      assert a + b == b;
    } else {
      assert (a + b)[1..] == a[1..] + b;
      if !Closes(m, a[0]) { ThroughConcat(Next(m, a[0]), a[1..], b); }
    }
  }

  lemma {:induction false} LengthAfter(m: Mode, a: string, b: string)
    requires Through(m, a).Some?
    ensures FrameLength(a + b, m) == var n := FrameLength(b, Through(m, a).value);
      if n.None? then None else Some(|a| + n.value)
    decreases |a|
  {
    hide Closes, Next;
    if a == "" {
      assert a + b == b;
    } else {
      assert (a + b)[0] == a[0] && (a + b)[1..] == a[1..] + b;
      LengthAfter(Next(m, a[0]), a[1..], b);
    }
  }

  /** A mode between values, inside an object. */
  function At(depth: nat): Mode { Mode(depth, false, false) }

  /** The text is passed without a change of depth, and without closing the object. */
  ghost predicate Neutral(s: string) {
    forall d: nat :: d > 0 ==> Through(At(d), s) == Some(At(d))
  }

  lemma NeutralConcat(a: string, b: string)
    requires Neutral(a) && Neutral(b)
    ensures Neutral(a + b)
  {
    hide Through;
    forall d: nat | d > 0 ensures Through(At(d), a + b) == Some(At(d)) {
      ThroughConcat(At(d), a, b);
    }
  }

  predicate IsPlainChar(c: char) { c != '{' && c != '}' && c != '"' && c != '\\' }

  lemma {:induction false} PlainIsNeutral(s: string)
    requires forall i :: 0 <= i < |s| ==> IsPlainChar(s[i])
    ensures Neutral(s)
    decreases |s|
  {
    if s != "" {
      PlainIsNeutral(s[1..]);
      assert IsPlainChar(s[0]);
    }
  }

  lemma {:induction false} InsideString(s: string, d: nat)
    requires forall i :: 0 <= i < |s| ==> s[i] != '"' && s[i] != '\\'
    ensures Through(Mode(d, true, false), s) == Some(Mode(d, true, false))
    decreases |s|
  {
    if s != "" {
      assert s[0] != '"' && s[0] != '\\';
      InsideString(s[1..], d);
    }
  }

  lemma EscapeThrough(d: nat, e: char, rest: string)
    ensures Through(Mode(d, true, false), ['\\', e] + rest) == Through(Mode(d, true, false), rest)
  {
    var s := ['\\', e] + rest;
    assert s[0] == '\\' && s[1..] == [e] + rest && ([e] + rest)[0] == e && ([e] + rest)[1..] == rest;
    assert Through(Mode(d, true, true), [e] + rest) == Through(Mode(d, true, false), rest);
  }

  lemma UnitStaysInside(u: Unit, d: nat)
    requires Legal(u)
    ensures Through(Mode(d, true, false), UnitText(u)) == Some(Mode(d, true, false))
  {
    match u
    case Raw(c) => InsideString([c], d);
    case Short(e) =>
      EscapeThrough(d, e, "");
      assert ['\\', e] + "" == UnitText(u);
    case Hex(digits) =>
      assert forall i :: 0 <= i < |digits| ==> IsHex(digits[i]);
      InsideString(digits, d);
      EscapeThrough(d, 'u', digits);
  }

  lemma {:induction false} ContentStaysInside(us: seq<Unit>, d: nat)
    requires AllLegal(us)
    ensures Through(Mode(d, true, false), Content(us)) == Some(Mode(d, true, false))
    decreases |us|
  {
    hide UnitText, Legal, Through;
    if us == [] {
      NothingThrough(Mode(d, true, false));
    } else {
      UnitStaysInside(us[0], d);
      ContentStaysInside(us[1..], d);
      ThroughConcat(Mode(d, true, false), UnitText(us[0]), Content(us[1..]));
    }
  }

  lemma NothingThrough(m: Mode)
    ensures Through(m, "") == Some(m)
  {
  }

  lemma QuoteThrough(d: nat, inStr: bool)
    ensures Through(Mode(d, inStr, false), "\"") == Some(Mode(d, !inStr, false))
  {
    assert "\""[1..] == "";
  }

  lemma StringIsNeutral(us: seq<Unit>)
    requires AllLegal(us)
    ensures Neutral(StringText(us))
  {
    hide Content, Through, Legal;
    forall d: nat | d > 0 ensures Through(At(d), StringText(us)) == Some(At(d)) {
      QuoteThrough(d, false);
      QuoteThrough(d, true);
      ContentStaysInside(us, d);
      ThroughConcat(At(d), "\"", Content(us));
      ThroughConcat(At(d), "\"" + Content(us), "\"");
    }
  }

  lemma BracesThrough(d: nat)
    ensures Through(At(d), "{") == Some(At(d + 1))
    ensures d > 1 ==> Through(At(d), "}") == Some(At(d - 1))
    ensures Through(At(1), "}") == None && FrameLength("}", At(1)) == Some(1)
  {
    assert "{"[1..] == "" && "}"[1..] == "";
  }

  /** Braces around a neutral text. */
  lemma BracedIsNeutral(s: string)
    requires Neutral(s)
    ensures Neutral("{" + s + "}")
  {
    hide Through;
    forall d: nat | d > 0 ensures Through(At(d), "{" + s + "}") == Some(At(d)) {
      BracesThrough(d);
      BracesThrough(d + 1);
      ThroughConcat(At(d), "{", s);
      ThroughConcat(At(d), "{" + s, "}");
    }
  }

  lemma SpaceIsNeutral(ws: string)
    requires AllSpace(ws)
    ensures Neutral(ws)
  {
    PlainIsNeutral(ws);
  }

  lemma NumberCharIsPlain(c: char)
    requires IsNumberChar(c) || IsDigit(c) || c == '-'
    ensures IsPlainChar(c)
  {
  }

  lemma NumberIsNeutral(text: string)
    requires IsNumberText(text)
    ensures Neutral(text)
  {
    hide IsNumberChar, Neutral, IsPlainChar;
    forall i | 0 <= i < |text| ensures IsPlainChar(text[i]) { NumberCharIsPlain(text[i]); }
    PlainIsNeutral(text);
  }

  lemma ScalarIsNeutral(v: Value)
    requires WellFormed(v) && (v.Str? || v.Num? || v.Word?)
    ensures Neutral(Text(v))
  {
    hide Neutral, StringText, ItemsText, MembersText, Legal, IsNumberText;
    match v
    case Str(us) => StringIsNeutral(us);
    case Num(text) => NumberIsNeutral(text);
    case Word(w) => WordIsPlain(w);
  }

  lemma EmptyIsNeutral(v: Value)
    requires WellFormed(v) && (v.EmptyArray? || v.EmptyObject?)
    ensures Neutral(Text(v))
  {
    hide Neutral, StringText, ItemsText, MembersText, AllSpace;
    SpaceIsNeutral(v.inner);
    Bracketed(v.inner);
    BracedIsNeutral(v.inner);
  }

  /** Every JSON value leaves the matching where it was. */
  lemma {:induction false} ValueIsNeutral(v: Value)
    requires WellFormed(v)
    ensures Neutral(Text(v))
    decreases v, 0
  {
    hide Neutral, StringText, ItemsText, MembersText, WellPadded, WellNamed, AllSpace, Legal, IsNumberText;
    match v
    case Array(items) => ItemsAreNeutral(items); Bracketed(ItemsText(items));
    case Object(members) => MembersAreNeutral(members); BracedIsNeutral(MembersText(members));
    case EmptyArray(_) => EmptyIsNeutral(v);
    case EmptyObject(_) => EmptyIsNeutral(v);
    case _ => ScalarIsNeutral(v);
  }

  lemma WordIsPlain(w: string)
    requires w in {"true", "false", "null"}
    ensures Neutral(w)
  {
    hide Neutral;
    PlainIsNeutral(w);
  }

  lemma Bracketed(s: string)
    requires Neutral(s)
    ensures Neutral("[" + s + "]")
  {
    hide Neutral;
    PlainIsNeutral("[");
    PlainIsNeutral("]");
    NeutralConcat("[", s);
    NeutralConcat("[" + s, "]");
  }

  lemma {:induction false} PaddedIsNeutral(p: Padded)
    requires WellPadded(p)
    ensures Neutral(PaddedText(p))
    decreases p, 0
  {
    hide Neutral, Text, AllSpace, WellFormed;
    SpaceIsNeutral(p.before);
    SpaceIsNeutral(p.after);
    ValueIsNeutral(p.value);
    NeutralConcat(p.before, Text(p.value));
    NeutralConcat(p.before + Text(p.value), p.after);
  }

  lemma {:induction false} ItemsAreNeutral(items: seq<Padded>)
    requires items != [] && forall i :: 0 <= i < |items| ==> WellPadded(items[i])
    ensures Neutral(ItemsText(items))
    decreases items, 0
  {
    hide Neutral, PaddedText, WellPadded;
    PaddedIsNeutral(items[0]);
    if |items| == 1 {
      assert PaddedText(items[0]) + "" == PaddedText(items[0]);
    } else {
      ItemsAreNeutral(items[1..]);
      PlainIsNeutral(",");
      NeutralConcat(",", ItemsText(items[1..]));
      NeutralConcat(PaddedText(items[0]), "," + ItemsText(items[1..]));
    }
  }

  lemma {:induction false} MemberIsNeutral(m: Member)
    requires WellNamed(m)
    ensures Neutral(MemberText(m))
    decreases m, 0
  {
    hide Neutral, PaddedText, StringText, AllSpace, WellPadded, Legal;
    SpaceIsNeutral(m.before);
    SpaceIsNeutral(m.between);
    StringIsNeutral(m.key);
    PaddedIsNeutral(m.padded);
    PlainIsNeutral(":");
    NeutralConcat(m.before, StringText(m.key));
    NeutralConcat(m.before + StringText(m.key), m.between);
    NeutralConcat(m.before + StringText(m.key) + m.between, ":");
    NeutralConcat(m.before + StringText(m.key) + m.between + ":", PaddedText(m.padded));
  }

  lemma {:induction false} MembersAreNeutral(ms: seq<Member>)
    requires ms != [] && forall i :: 0 <= i < |ms| ==> WellNamed(ms[i])
    ensures Neutral(MembersText(ms))
    decreases ms, 0
  {
    hide Neutral, MemberText, WellNamed;
    MemberIsNeutral(ms[0]);
    if |ms| == 1 {
      assert MemberText(ms[0]) + "" == MemberText(ms[0]);
    } else {
      MembersAreNeutral(ms[1..]);
      PlainIsNeutral(",");
      NeutralConcat(",", MembersText(ms[1..]));
      NeutralConcat(MemberText(ms[0]), "," + MembersText(ms[1..]));
    }
  }

  predicate IsObject(v: Value) { v.Object? || v.EmptyObject? }

  lemma BracedIsOneFrame(s: string, rest: string)
    requires Neutral(s)
    ensures FrameLength("{" + s + "}" + rest, OUTSIDE) == Some(|s| + 2)
  {
    hide Through, FrameLength;
    BracesThrough(0);
    BracesThrough(1);
    assert "{" + s + "}" + rest == ("{" + s) + ("}" + rest);
    ThroughConcat(At(0), "{", s);
    LengthAfter(At(0), "{" + s, "}" + rest);
    FrameStays("}", At(1), rest);
  }

  /** An object is cut as one frame, whatever follows it. */
  lemma ObjectIsOneFrame(v: Value, rest: string)
    requires WellFormed(v) && IsObject(v)
    ensures FrameLength(Text(v) + rest, OUTSIDE) == Some(|Text(v)|)
  {
    hide Neutral, FrameLength, MembersText, AllSpace, WellNamed;
    if v.Object? {
      MembersAreNeutral(v.members);
      BracedIsOneFrame(MembersText(v.members), rest);
    } else {
      SpaceIsNeutral(v.inner);
      BracedIsOneFrame(v.inner, rest);
    }
  }

  function Texts(vs: seq<Value>): (ts: seq<string>)
    requires forall i :: 0 <= i < |vs| ==> WellFormed(vs[i])
    ensures |ts| == |vs|
  {
    if vs == [] then [] else [Text(vs[0])] + Texts(vs[1..])
  }

  function Run(vs: seq<Value>): string
    requires forall i :: 0 <= i < |vs| ==> WellFormed(vs[i])
  {
    if vs == [] then "" else Text(vs[0]) + Run(vs[1..])
  }

  lemma ObjectIsCut(v: Value, rest: string)
    requires WellFormed(v) && IsObject(v)
    ensures CutOne(Text(v) + rest) == Some(Cut(Text(v), rest))
  {
    hide Text, FrameLength;
    ObjectIsOneFrame(v, rest);
    FirstOfValue(v);
    var s := Text(v) + rest;
    assert s[0] == '{' && s[..|Text(v)|] == Text(v) && s[|Text(v)|..] == rest;
  }

  /** Objects written back to back come out one by one, and nothing is left over. */
  lemma {:induction false} ObjectsComeOutOneByOne(vs: seq<Value>)
    requires forall i :: 0 <= i < |vs| ==> WellFormed(vs[i]) && IsObject(vs[i])
    ensures Pieces(Run(vs)) == Texts(vs) && Leftover(Run(vs)) == ""
    decreases |vs|
  {
    hide CutOne, Text, WellFormed, IsObject;
    if vs == [] {
      NothingToCut();
    } else {
      ObjectIsCut(vs[0], Run(vs[1..]));
      ObjectsComeOutOneByOne(vs[1..]);
    }
  }

  lemma NothingToCut()
    ensures CutOne("") == None
  {
  }

  // ---- A cut that shows ---------------------------------------------------------------------------

  const NBSP: char := '\U{00A0}'

  lemma LineIsCut(line: string, rest: string)
    requires '{' !in line && '\n' !in line
    ensures CutOne(line + "\n" + rest) == Some(Cut(line, rest))
  {
    hide FrameLength;
    var s := line + "\n" + rest;
    assert s[|line|] == '\n' && s[..|line|] == line && s[|line| + 1..] == rest;
    assert forall k :: 0 <= k < |line| ==> s[k] == line[k];
  }

  lemma PiecesStep(piece: string, rest: string, s: string)
    requires CutOne(s) == Some(Cut(piece, rest))
    ensures Pieces(s) == [piece] + Pieces(rest)
  {
  }

  /** Three garbage lines and an object. */
  lemma PiecesOfLines(line: string, v: Value)
    requires '{' !in line && '\n' !in line && WellFormed(v) && IsObject(v)
    ensures Pieces(line + "\n" + (line + "\n" + (line + "\n" + Text(v)))) == [line, line, line, Text(v)]
  {
    hide CutOne, Text, IsObject, Pieces;
    var s1 := line + "\n" + Text(v);
    var s2 := line + "\n" + s1;
    LineIsCut(line, s2);
    LineIsCut(line, s1);
    LineIsCut(line, Text(v));
    ObjectIsCut(v, "");
    assert Text(v) + "" == Text(v);
    PiecesStep(line, s2, line + "\n" + s2);
    PiecesStep(line, s1, s2);
    PiecesStep(line, Text(v), s1);
    PiecesStep(Text(v), "", Text(v));
    assert Pieces("") == [] by { NothingToCut(); NoPieces(); }
    assert [line] + ([line] + ([line] + ([Text(v)] + []))) == [line, line, line, Text(v)];
  }

  lemma NoPieces()
    requires CutOne("") == None
    ensures Pieces("") == []
  {
  }

  lemma VerdictOfFour(stream: string, a: string, b: string, classify: string -> Class)
    requires Pieces(stream) == [a, a, a, b]
    requires classify(b) == Ready && (classify(a) == Blank || classify(a) == NotJson)
    ensures VerdictOf(stream, classify) == if classify(a) == Blank then IsReady else TooMuchGarbage
  {
    hide Pieces, Leftover, JudgeAll;
    assert [a, a, a, b] == [a] + ([a] + ([a] + [b]));
    var p1 := Judge(Open(0), classify(a));
    var p2 := Judge(p1, classify(a));
    var p3 := Judge(p2, classify(a));
    JudgedFirst(Open(0), a, [a] + ([a] + [b]), classify);
    JudgedFirst(p1, a, [a] + [b], classify);
    JudgedFirst(p2, a, [b], classify);
    JudgedOne(p3, b, classify);
    SettledStays(After(stream, classify), [Leftover(stream)], classify);
  }

  lemma JudgedFirst(p: Progress, piece: string, rest: seq<string>, classify: string -> Class)
    ensures JudgeAll(p, [piece] + rest, classify) == JudgeAll(Judge(p, classify(piece)), rest, classify)
  {
    assert ([piece] + rest)[1..] == rest;
  }

  /** Three times the bytes of a no-break space and a newline, each cut inside the space, and then a frame. */
  function CutStream(frame: seq<byte>): seq<seq<byte>> {
    [[0xC2]] + [[0xA0, 0x0A] + [0xC2]] + [[0xA0, 0x0A] + [0xC2]] + [[0xA0, 0x0A] + frame]
  }

  lemma CutStreamJoined(frame: seq<byte>)
    ensures Utf8.Joined(CutStream(frame)) == [0xC2, 0xA0, 0x0A] + ([0xC2, 0xA0, 0x0A] + ([0xC2, 0xA0, 0x0A] + frame))
  {
    hide Utf8.Joined, Utf8.Seen;
    var m: seq<byte> := [0xA0, 0x0A] + [0xC2];
    assert [] + [[0xC2 as byte]] == [[0xC2 as byte]] && Utf8.Joined([]) == [] by { NoneJoined(); }
    Utf8.OneMoreChunk([], [0xC2]);
    Utf8.OneMoreChunk([[0xC2]], m);
    Utf8.OneMoreChunk([[0xC2]] + [m], m);
    Utf8.OneMoreChunk([[0xC2]] + [m] + [m], [0xA0, 0x0A] + frame);
  }

  lemma NoneJoined()
    ensures Utf8.Joined([]) == [] && Utf8.Seen([]) == ""
  {
  }

  lemma LineDecoded(rest: seq<byte>)
    ensures Utf8.Decode([0xC2, 0xA0, 0x0A] + rest) == [NBSP] + "\n" + Utf8.Decode(rest)
  {
    var t: string := [NBSP, '\n'];
    assert t[1..] == "\n" && "\n"[1..] == "";
    assert Utf8.Encode(t) == [0xC2, 0xA0, 0x0A];
    hide Utf8.Encode, Utf8.Decode;
    Utf8.DecodeInvertsEncode(t, rest);
  }

  lemma CutStreamDecoded(t: string)
    ensures var line := [NBSP];
      Utf8.Decode(Utf8.Joined(CutStream(Utf8.Encode(t)))) == line + "\n" + (line + "\n" + (line + "\n" + t))
  {
    hide Utf8.Decode, Utf8.Joined, CutStream, Utf8.Encode;
    var frame := Utf8.Encode(t);
    CutStreamJoined(frame);
    Utf8.DecodeInvertsEncode(t, []);
    assert frame + [] == frame && t + "" == t;
    Utf8.DecodeNothing();
    LineDecoded(frame);
    LineDecoded([0xC2, 0xA0, 0x0A] + frame);
    LineDecoded([0xC2, 0xA0, 0x0A] + ([0xC2, 0xA0, 0x0A] + frame));
  }

  lemma LooseByteDecoded(rest: seq<byte>)
    ensures Utf8.Decode([0xA0, 0x0A] + rest) == [Utf8.REPLACEMENT, '\n'] + Utf8.Decode(rest)
  {
    var s: seq<byte> := [0xA0, 0x0A] + rest;
    Utf8.DecodeFirst(s, 1);
    assert s[1..] == [0x0A] + rest && s[1..][1..] == rest;
    Utf8.DecodeFirst(s[1..], 1);
    hide Utf8.Decode;
    assert [Utf8.REPLACEMENT] + (['\n'] + Utf8.Decode(rest)) == [Utf8.REPLACEMENT, '\n'] + Utf8.Decode(rest);
  }

  lemma CutStreamParts(frame: seq<byte>)
    ensures var m: seq<byte> := [0xA0, 0x0A] + [0xC2];
      Utf8.Seen(CutStream(frame)) == Utf8.Decode([0xC2]) + Utf8.Decode(m) + Utf8.Decode(m)
        + Utf8.Decode([0xA0, 0x0A] + frame)
  {
    hide Utf8.Decode, Utf8.Joined, Utf8.Seen;
    var m: seq<byte> := [0xA0, 0x0A] + [0xC2];
    NoneJoined();
    assert [] + [[0xC2 as byte]] == [[0xC2 as byte]] && "" + Utf8.Decode([0xC2]) == Utf8.Decode([0xC2]);
    Utf8.OneMoreChunk([], [0xC2]);
    Utf8.OneMoreChunk([[0xC2]], m);
    Utf8.OneMoreChunk([[0xC2]] + [m], m);
    Utf8.OneMoreChunk([[0xC2]] + [m] + [m], [0xA0, 0x0A] + frame);
  }

  lemma Regrouped(r: char, t: string)
    ensures var part, line := [r, '\n'] + [r], [r, r];
      [r] + part + part + ([r, '\n'] + t) == line + "\n" + (line + "\n" + (line + "\n" + t))
  {
  }

  lemma CutStreamSeen(t: string)
    ensures var line := [Utf8.REPLACEMENT, Utf8.REPLACEMENT];
      Utf8.Seen(CutStream(Utf8.Encode(t))) == line + "\n" + (line + "\n" + (line + "\n" + t))
  {
    var frame, r := Utf8.Encode(t), Utf8.REPLACEMENT;
    LoneLeadDecoded();
    hide Utf8.Decode, Utf8.Encode, Utf8.Seen, CutStream;
    CutStreamParts(frame);
    LooseByteDecoded([0xC2]);
    LooseByteDecoded(frame);
    EncodedIsDecoded(t);
    Regrouped(r, t);
  }

  lemma LoneLeadDecoded()
    ensures Utf8.Decode([0xC2]) == [Utf8.REPLACEMENT]
  {
    Utf8.DecodeFirst([0xC2], 1);
    Utf8.DecodeNothing();
    assert [0xC2 as byte][1..] == [];
  }

  lemma EncodedIsDecoded(t: string)
    ensures Utf8.Decode(Utf8.Encode(t)) == t
  {
    hide *;
    Utf8.DecodeInvertsEncode(t, []);
    Utf8.DecodeNothing();
    assert Utf8.Encode(t) + [] == Utf8.Encode(t) && t + "" == t;
  }

  /**
   * A handshake that succeeds in one piece and fails when three lines of white space are cut inside
   * their one character: trim removes a no-break space and keeps replacement characters.
   */
  lemma CutChangesVerdict(v: Value, classify: string -> Class)
    requires WellFormed(v) && IsObject(v) && classify(Text(v)) == Ready
    requires classify([NBSP]) == Blank && classify([Utf8.REPLACEMENT, Utf8.REPLACEMENT]) == NotJson
    ensures var cut := CutStream(Utf8.Encode(Text(v)));
      && VerdictOf(Utf8.Decode(Utf8.Joined(cut)), classify) == IsReady
      && VerdictOf(Utf8.Seen(cut), classify) == TooMuchGarbage
  {
    hide Utf8.Decode, Utf8.Joined, Utf8.Seen, Utf8.Encode, CutStream, Pieces, VerdictOf, Text, WellFormed, IsObject;
    CutStreamDecoded(Text(v));
    CutStreamSeen(Text(v));
    PiecesOfLines([NBSP], v);
    PiecesOfLines([Utf8.REPLACEMENT, Utf8.REPLACEMENT], v);
    VerdictOfFour(Utf8.Decode(Utf8.Joined(CutStream(Utf8.Encode(Text(v))))), [NBSP], Text(v), classify);
    VerdictOfFour(Utf8.Seen(CutStream(Utf8.Encode(Text(v)))), [Utf8.REPLACEMENT, Utf8.REPLACEMENT], Text(v), classify);
  }
}
