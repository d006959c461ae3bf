/**
 * UTF-8: the encoding of section 3 of RFC 3629, and the two decoders the source relies on, both
 * of which replace what is not well formed. Buffer.toString decodes a chunk on its own;
 * a streaming TextDecoder keeps an unfinished sequence for the next chunk. A text is a sequence
 * of Unicode scalar values.
 */
module Utf8 {
  import opened Prelude

  const REPLACEMENT: char := '\U{FFFD}'
  const BOM: char := '\U{FEFF}'

  // ---- Decoding units --------------------------------------------------------------------------

  predicate IsContinuation(b: byte) { 0x80 <= b <= 0xBF }

  /** How many continuation bytes a first byte announces; 0 also for what cannot be one. */
  function Announced(b: byte): (n: nat)
    ensures n <= 3
  {
    if 0xC2 <= b <= 0xDF then 1 else if 0xE0 <= b <= 0xEF then 2 else if 0xF0 <= b <= 0xF4 then 3 else 0
  }

  /** The second byte must not make the sequence overlong, a surrogate, or too large. */
  predicate MaySecond(b0: byte, b1: byte) {
    && IsContinuation(b1)
    && (b0 == 0xE0 ==> b1 >= 0xA0) && (b0 == 0xED ==> b1 <= 0x9F) && (b0 == 0xF0 ==> b1 >= 0x90)
      && (b0 == 0xF4 ==> b1 <= 0x8F)
  }

  /**
   * A first byte and as many of the announced bytes as follow it: a well-formed sequence, or the
   * longest start of one.
   */
  function UnitLength(s: seq<byte>): (n: nat)
    requires s != []
    ensures 0 < n <= |s| && n <= Announced(s[0]) + 1
    ensures forall i :: 0 < i < n ==> IsContinuation(s[i])
  {
    var most := Announced(s[0]);
    if most == 0 || |s| < 2 || !MaySecond(s[0], s[1]) then 1
    else if most == 1 || |s| < 3 || !IsContinuation(s[2]) then 2
    else if most == 2 || |s| < 4 || !IsContinuation(s[3]) then 3
    else 4
  }

  predicate IsUnit(u: seq<byte>) { u != [] && UnitLength(u) == |u| }

  /** All the announced bytes are there. */
  predicate IsComplete(u: seq<byte>)
    requires u != []
  {
    |u| == Announced(u[0]) + 1
  }

  function Scalar(u: seq<byte>): (v: nat)
    requires IsUnit(u) && IsComplete(u) && |u| > 1
    ensures v < 0xD800 || 0xE000 <= v < 0x11_0000
  {
    var b0: nat, b1: nat := u[0], u[1];
    if |u| == 2 then (b0 - 0xC0) * 0x40 + (b1 - 0x80)
    else
      var b2: nat := u[2];
      if |u| == 3 then (b0 - 0xE0) * 0x1000 + (b1 - 0x80) * 0x40 + (b2 - 0x80)
      else
        var b3: nat := u[3];
        (b0 - 0xF0) * 0x4_0000 + (b1 - 0x80) * 0x1000 + (b2 - 0x80) * 0x40 + (b3 - 0x80)
  }

  /** A whole sequence is its character, anything else one replacement character. */
  function UnitChar(u: seq<byte>): char
    requires IsUnit(u)
  {
    if |u| == 1 then (if u[0] < 0x80 then u[0] as char else REPLACEMENT)
    else if IsComplete(u) then Scalar(u) as char
    else REPLACEMENT
  }

  lemma FirstUnit(s: seq<byte>)
    requires s != []
    ensures IsUnit(s[..UnitLength(s)])
  {
  }

  /** Buffer.toString('utf8') */
  function Decode(s: seq<byte>): string
    decreases |s|
  {
    if s == [] then ""
    else
      FirstUnit(s);
      [UnitChar(s[..UnitLength(s)])] + Decode(s[UnitLength(s)..])
  }

  /** Position `k` lies between two units. */
  predicate IsBoundary(s: seq<byte>, k: nat)
    decreases |s|
  {
    k == 0 || (s != [] && UnitLength(s) <= k && IsBoundary(s[UnitLength(s)..], k - UnitLength(s)))
  }

  // ---- Decoding in parts -------------------------------------------------------------------------

  /** A unit that ended before the end of the bytes stays as it is; another may only grow. */
  lemma UnitStays(s: seq<byte>, more: seq<byte>)
    requires s != []
    ensures UnitLength(s) < |s| || IsComplete(s[..UnitLength(s)]) ==> UnitLength(s + more) == UnitLength(s)
    ensures UnitLength(s) == |s| ==> UnitLength(s + more) >= |s|
  {
  }

  lemma DecodeFirst(s: seq<byte>, n: nat)
    requires s != [] && n == UnitLength(s)
    ensures IsUnit(s[..n]) && Decode(s) == [UnitChar(s[..n])] + Decode(s[n..])
  {
    FirstUnit(s);
  }

  /** Continuation bytes at the front are replaced one by one. */
  lemma {:induction false} LooseContinuations(s: seq<byte>, k: nat)
    requires k <= |s| && forall i :: 0 <= i < k ==> IsContinuation(s[i])
    ensures |Decode(s)| == k + |Decode(s[k..])|
  {
    if k > 0 {
      assert Announced(s[0]) == 0;
      DecodeFirst(s, 1);
      assert s[1..][k - 1..] == s[k..];
      LooseContinuations(s[1..], k - 1);
    }
  }

  /** A cut between units does not show; any other cut leaves more characters than there were. */
  lemma {:induction false} DecodedInParts(a: seq<byte>, b: seq<byte>)
    ensures IsBoundary(a + b, |a|) ==> Decode(a + b) == Decode(a) + Decode(b)
    ensures !IsBoundary(a + b, |a|) ==> |Decode(a + b)| < |Decode(a)| + |Decode(b)|
    decreases |a|
  {
    hide Decode, UnitLength, UnitChar;
    if a == [] {
      assert a + b == b && Decode([]) == "" by { DecodeNothing(); }
    } else {
      var n, m := UnitLength(a), UnitLength(a + b);
      UnitStays(a, b);
      DecodeFirst(a, n);
      DecodeFirst(a + b, m);
      if m == n {
        assert (a + b)[..n] == a[..n] && (a + b)[n..] == a[n..] + b;
        DecodedInParts(a[n..], b);
      } else {
        assert n == |a| && a[n..] == [] && (a + b)[m..] == b[m - n..];
        DecodeNothing();
        assert forall i :: 0 <= i < m - n ==> b[i] == (a + b)[n + i];
        LooseContinuations(b, m - n);
      }
    }
  }

  lemma DecodeNothing()
    ensures Decode([]) == ""
  {
  }

  function Joined(chunks: seq<seq<byte>>): seq<byte> {
    if chunks == [] then [] else Joined(chunks[..|chunks| - 1]) + chunks[|chunks| - 1]
  }

  /** What is read when every chunk is decoded on its own. */
  function Seen(chunks: seq<seq<byte>>): string {
    if chunks == [] then "" else Seen(chunks[..|chunks| - 1]) + Decode(chunks[|chunks| - 1])
  }

  lemma OneMoreChunk(chunks: seq<seq<byte>>, chunk: seq<byte>)
    ensures Joined(chunks + [chunk]) == Joined(chunks) + chunk && Seen(chunks + [chunk]) == Seen(chunks) + Decode(chunk)
  {
    hide Decode;
    assert (chunks + [chunk])[..|chunks|] == chunks;
  }

  /** No chunk ends inside a unit of the stream. */
  predicate IsCleanlyCut(chunks: seq<seq<byte>>) {
    forall k :: 0 <= k <= |chunks| ==> IsBoundary(Joined(chunks), |Joined(chunks[..k])|)
  }

  /** A boundary of the front part is one of the whole, and the other way round, when the parts meet at one. */
  lemma {:induction false} BoundaryOfFront(a: seq<byte>, b: seq<byte>, k: nat)
    requires k <= |a| && IsBoundary(a + b, |a|)
    ensures IsBoundary(a + b, k) <==> IsBoundary(a, k)
    decreases |a|
  {
    hide UnitLength;
    if k > 0 {
      var n := UnitLength(a);
      UnitStays(a, b);
      assert UnitLength(a + b) == n;
      assert (a + b)[n..] == a[n..] + b;
      if k >= n { BoundaryOfFront(a[n..], b, k - n); }
    }
  }

  lemma {:induction false} EndIsBoundary(s: seq<byte>)
    ensures IsBoundary(s, |s|)
    decreases |s|
  {
    if s != [] { EndIsBoundary(s[UnitLength(s)..]); }
  }

  lemma JoinedStep(chunks: seq<seq<byte>>, k: nat)
    requires k < |chunks|
    ensures Joined(chunks[..k + 1]) == Joined(chunks[..k]) + chunks[k]
  {
    assert chunks[..k + 1][..k] == chunks[..k];
  }

  lemma {:induction false} JoinedUpTo(chunks: seq<seq<byte>>, k: nat)
    requires k <= |chunks|
    ensures Joined(chunks[..k]) <= Joined(chunks)
  {
    if k == |chunks| {
      assert chunks[..k] == chunks;
    } else {
      assert chunks[..|chunks| - 1][..k] == chunks[..k];
      JoinedUpTo(chunks[..|chunks| - 1], k);
    }
  }

  lemma CleanFront(chunks: seq<seq<byte>>)
    requires chunks != []
    ensures var init := chunks[..|chunks| - 1];
      IsCleanlyCut(chunks) <==> IsCleanlyCut(init) && IsBoundary(Joined(chunks), |Joined(init)|)
  {
    hide IsBoundary;
    var n := |chunks| - 1;
    var init, last := chunks[..n], chunks[n];
    EndIsBoundary(Joined(chunks));
    assert chunks[..n + 1] == chunks;
    forall k | 0 <= k <= n
      ensures chunks[..k] == init[..k]
      ensures IsBoundary(Joined(chunks), |Joined(init)|)
              ==> (IsBoundary(Joined(chunks), |Joined(init[..k])|) <==> IsBoundary(Joined(init), |Joined(init[..k])|))
    {
      assert chunks[..k] == init[..k];
      JoinedUpTo(init, k);
      if IsBoundary(Joined(chunks), |Joined(init)|) { BoundaryOfFront(Joined(init), last, |Joined(init[..k])|); }
    }
    hide Joined;
    assert init[..n] == init;
    if IsCleanlyCut(chunks) {
      assert IsBoundary(Joined(chunks), |Joined(chunks[..n])|);
      forall k | 0 <= k <= |init| ensures IsBoundary(Joined(init), |Joined(init[..k])|) {
        assert IsBoundary(Joined(chunks), |Joined(chunks[..k])|);
      }
    }
    if IsCleanlyCut(init) && IsBoundary(Joined(chunks), |Joined(init)|) {
      forall k | 0 <= k <= |chunks| ensures IsBoundary(Joined(chunks), |Joined(chunks[..k])|) {
        if k <= n { assert IsBoundary(Joined(init), |Joined(init[..k])|); }
      }
    }
  }

  /**
   * Chunks decoded one by one give the text of the stream exactly when no chunk ends inside a unit;
   * otherwise they give a longer one.
   */
  lemma {:induction false} SeenIsDecoded(chunks: seq<seq<byte>>)
    ensures Seen(chunks) == Decode(Joined(chunks)) <==> IsCleanlyCut(chunks)
    ensures |Seen(chunks)| >= |Decode(Joined(chunks))|
    ensures |Seen(chunks)| == |Decode(Joined(chunks))| ==> IsCleanlyCut(chunks)
  {
    hide Decode, IsBoundary, IsCleanlyCut;
    if chunks == [] {
      DecodeNothing();
      NoChunks();
    } else {
      var init, last := chunks[..|chunks| - 1], chunks[|chunks| - 1];
      SeenIsDecoded(init);
      DecodedInParts(Joined(init), last);
      CleanFront(chunks);
    }
  }

  lemma NoChunks()
    ensures IsCleanlyCut([])
  {
  }

  /** A chunk that does not begin with a continuation byte begins a unit. */
  lemma {:induction false} FreshStart(a: seq<byte>, b: seq<byte>)
    requires b == [] || !IsContinuation(b[0])
    ensures IsBoundary(a + b, |a|)
    decreases |a|
  {
    hide UnitLength;
    if a != [] {
      var n := UnitLength(a + b);
      assert b != [] ==> (a + b)[|a|] == b[0];
      assert (a + b)[n..] == a[n..] + b;
      FreshStart(a[n..], b);
    }
  }

  /** So a stream without continuation bytes, such as an ASCII one, may be cut anywhere. */
  lemma {:induction false} AsciiIsCleanlyCut(chunks: seq<seq<byte>>)
    requires forall i :: 0 <= i < |Joined(chunks)| ==> Joined(chunks)[i] < 0x80
    ensures IsCleanlyCut(chunks)
  {
    hide IsCleanlyCut;
    if chunks == [] {
      NoChunks();
    } else {
      var init, last := chunks[..|chunks| - 1], chunks[|chunks| - 1];
      var a, s := Joined(init), Joined(chunks);
      assert forall i :: 0 <= i < |a| ==> a[i] == s[i];
      assert last != [] ==> last[0] == s[|a|];
      AsciiIsCleanlyCut(init);
      FreshStart(a, last);
      CleanFront(chunks);
    }
  }

  /** Not only whole sequences matter: a cut in the start of a broken one shows as well. */
  lemma CutOfBrokenSequence()
    ensures Decode([0xE2, 0x82, 0x41]) == [REPLACEMENT, 'A']
    ensures Decode([0xE2]) + Decode([0x82, 0x41]) == [REPLACEMENT, REPLACEMENT, 'A']
  {
    var s: seq<byte> := [0xE2, 0x82, 0x41];
    DecodeFirst(s, 2);
    assert s[2..] == [0x41];
    DecodeFirst([0x41], 1);
    DecodeFirst([0xE2], 1);
    DecodeFirst([0x82, 0x41], 1);
    DecodeNothing();
    assert [0x82 as byte, 0x41][1..] == [0x41];
  }

  // ---- Encoding ------------------------------------------------------------------------------------

  function EncodeChar(c: char): (s: seq<byte>)
    ensures s != []
  {
    var v := c as int;
    if v < 0x80 then [v]
    else if v < 0x800 then [0xC0 + v / 0x40, 0x80 + v % 0x40]
    else if v < 0x1_0000 then [0xE0 + v / 0x1000, 0x80 + v / 0x40 % 0x40, 0x80 + v % 0x40]
    else [0xF0 + v / 0x4_0000, 0x80 + v / 0x1000 % 0x40, 0x80 + v / 0x40 % 0x40, 0x80 + v % 0x40]
  }

  function Encode(t: string): seq<byte> {
    if t == "" then [] else EncodeChar(t[0]) + Encode(t[1..])
  }

  /** The quotients by powers of 64, one from the other. */
  lemma Quotients(v: nat)
    requires v < 0x11_0000
    ensures v == v / 0x40 * 0x40 + v % 0x40
    ensures v / 0x40 == v / 0x1000 * 0x40 + v / 0x40 % 0x40
    ensures v / 0x1000 == v / 0x4_0000 * 0x40 + v / 0x1000 % 0x40
    ensures v / 0x4_0000 <= 4 && (v < 0x1_0000 ==> v / 0x1000 < 0x10) && (v < 0x800 ==> v / 0x40 < 0x20)
  {
  }

  /** Two, three and four bytes, put together from their parts. */
  lemma UnitOfTwo(v: nat, a: nat, b: nat)
    requires 0x80 <= v < 0x800 && v == a * 0x40 + b && b < 0x40
    ensures a < 0x20
    ensures var u: seq<byte> := [0xC0 + a, 0x80 + b]; IsUnit(u) && IsComplete(u) && Scalar(u) == v
  {
  }

  lemma UnitOfThree(v: nat, a: nat, b: nat, c: nat)
    requires 0x800 <= v < 0x1_0000 && !(0xD800 <= v < 0xE000) && v == a * 0x1000 + b * 0x40 + c && b < 0x40 && c < 0x40
    ensures a < 0x10
    ensures var u: seq<byte> := [0xE0 + a, 0x80 + b, 0x80 + c]; IsUnit(u) && IsComplete(u) && Scalar(u) == v
  {
  }

  lemma UnitOfFour(v: nat, a: nat, b: nat, c: nat, d: nat)
    requires 0x1_0000 <= v < 0x11_0000 && v == a * 0x4_0000 + b * 0x1000 + c * 0x40 + d && b < 0x40 && c < 0x40
      && d < 0x40
    ensures a < 5
    ensures var u: seq<byte> := [0xF0 + a, 0x80 + b, 0x80 + c, 0x80 + d]; IsUnit(u) && IsComplete(u) && Scalar(u) == v
  {
  }

  lemma EncodedUnit(c: char)
    ensures IsUnit(EncodeChar(c)) && IsComplete(EncodeChar(c)) && UnitChar(EncodeChar(c)) == c
  {
    var v := c as int;
    Quotients(v);
    if v < 0x80 {
    } else if v < 0x800 {
      UnitOfTwo(v, v / 0x40, v % 0x40);
      hide UnitLength, Scalar;
    } else if v < 0x1_0000 {
      UnitOfThree(v, v / 0x1000, v / 0x40 % 0x40, v % 0x40);
      hide UnitLength, Scalar;
    } else {
      UnitOfFour(v, v / 0x4_0000, v / 0x1000 % 0x40, v / 0x40 % 0x40, v % 0x40);
      hide UnitLength, Scalar;
    }
  }

  /** Decoding undoes encoding, whatever follows. */
  lemma {:induction false} DecodeInvertsEncode(t: string, rest: seq<byte>)
    ensures Decode(Encode(t) + rest) == t + Decode(rest)
  {
    hide Decode, EncodeChar, UnitLength, UnitChar;
    if t == "" {
      assert Encode(t) + rest == rest && t + Decode(rest) == Decode(rest);
    } else {
      var u, s := EncodeChar(t[0]), Encode(t[1..]) + rest;
      EncodedUnit(t[0]);
      UnitStays(u, s);
      assert Encode(t) + rest == u + s && (u + s)[..|u|] == u && (u + s)[|u|..] == s && u[..|u|] == u;
      DecodeFirst(u + s, |u|);
      DecodeInvertsEncode(t[1..], rest);
    }
  }

  lemma {:induction false} EncodeOfConcat(a: string, b: string)
    ensures Encode(a + b) == Encode(a) + Encode(b)
    decreases |a|
  {
    if a == "" {
      assert a + b == b;
    } else {
      assert (a + b)[1..] == a[1..] + b;
      EncodeOfConcat(a[1..], b);
    }
  }

  /** In an encoded text the boundaries are those between characters. */
  lemma {:induction false} BoundariesOfText(t: string, k: nat)
    ensures IsBoundary(Encode(t), k) <==> exists j :: 0 <= j <= |t| && k == |Encode(t[..j])|
  {
    hide EncodeChar, UnitLength;
    assert t[..0] == "";
    if k > 0 && t != "" {
      var u, s := EncodeChar(t[0]), Encode(t[1..]);
      EncodedUnit(t[0]);
      UnitStays(u, s);
      assert UnitLength(u + s) == |u| && (u + s)[|u|..] == s by { assert u[..|u|] == u; }
      forall j | 0 < j <= |t| ensures |Encode(t[..j])| == |u| + |Encode(t[1..][..j - 1])| {
        assert t[..j][0] == t[0] && t[..j][1..] == t[1..][..j - 1];
      }
      if k >= |u| {
        BoundariesOfText(t[1..], k - |u|);
        if j :| 0 <= j <= |t[1..]| && k - |u| == |Encode(t[1..][..j])| { assert k == |Encode(t[..j + 1])|; }
        if j :| 0 < j <= |t| && k == |Encode(t[..j])| { assert k - |u| == |Encode(t[1..][..j - 1])|; }
      }
    }
  }

  // ---- The streaming decoder ---------------------------------------------------------------------------

  /** Whether more bytes could still belong to the last unit. */
  predicate IsUnfinished(s: seq<byte>)
    requires s != []
  {
    UnitLength(s) == |s| && !IsComplete(s)
  }

  /** What a streaming decoder has given out. */
  function StreamText(s: seq<byte>): string
    decreases |s|
  {
    if s == [] || IsUnfinished(s) then ""
    else
      FirstUnit(s);
      [UnitChar(s[..UnitLength(s)])] + StreamText(s[UnitLength(s)..])
  }

  /** What it keeps. */
  function StreamLeft(s: seq<byte>): seq<byte>
    decreases |s|
  {
    if s == [] || IsUnfinished(s) then s else StreamLeft(s[UnitLength(s)..])
  }

  lemma StreamStep(s: seq<byte>, n: nat)
    requires s != [] && n == UnitLength(s) && !IsUnfinished(s)
    ensures IsUnit(s[..n]) && StreamText(s) == [UnitChar(s[..n])] + StreamText(s[n..])
      && StreamLeft(s) == StreamLeft(s[n..])
  {
    FirstUnit(s);
  }

  /** Whether and where a finished unit ends does not depend on what follows. */
  lemma FinishedStays(a: seq<byte>, b: seq<byte>)
    requires a != [] && !IsUnfinished(a)
    ensures UnitLength(a + b) == UnitLength(a) && !IsUnfinished(a + b)
  {
    UnitStays(a, b);
    assert UnitLength(a) == |a| ==> a[..|a|] == a;
  }

  /** Wherever the bytes are cut, the text is the same. */
  lemma {:induction false} StreamInParts(a: seq<byte>, b: seq<byte>)
    ensures StreamText(a + b) == StreamText(a) + StreamText(StreamLeft(a) + b)
    ensures StreamLeft(a + b) == StreamLeft(StreamLeft(a) + b)
    decreases |a|
  {
    hide UnitLength, UnitChar, IsUnfinished;
    if a != [] && !IsUnfinished(a) {
      var n := UnitLength(a);
      FinishedStays(a, b);
      StreamStep(a, n);
      StreamStep(a + b, n);
      assert (a + b)[..n] == a[..n] && (a + b)[n..] == a[n..] + b;
      StreamInParts(a[n..], b);
    }
  }

  /** Of an encoded text nothing is kept and nothing replaced. */
  lemma {:induction false} StreamOfText(t: string)
    ensures StreamText(Encode(t)) == t && StreamLeft(Encode(t)) == []
  {
    hide EncodeChar, UnitLength, UnitChar;
    if t != "" {
      var u, s := EncodeChar(t[0]), Encode(t[1..]);
      EncodedUnit(t[0]);
      FinishedStays(u, s);
      assert (u + s)[..|u|] == u && (u + s)[|u|..] == s;
      StreamStep(u + s, |u|);
      StreamOfText(t[1..]);
    }
  }

  /** A byte order mark at the front is not part of the text. */
  function WithoutBom(t: string): string { if t != "" && t[0] == BOM then t[1..] else t }

  function StreamedText(s: seq<byte>): string { WithoutBom(StreamText(s)) }

  lemma NothingStreamed()
    ensures StreamedText([]) == "" && Joined([]) == []
  {
  }

  lemma StreamedPrefix(a: seq<byte>, b: seq<byte>)
    ensures StreamedText(a) <= StreamedText(a + b)
  {
    hide StreamText, StreamLeft;
    StreamInParts(a, b);
  }

  /** TextDecoder with the stream option, as it stands by default. */
  class StreamDecoder {
    var pending: seq<byte>
    var started: bool
    ghost var bytes: seq<byte>

    ghost predicate Valid()
      reads this
    {
      pending == StreamLeft(bytes) && (started <==> StreamText(bytes) != "")
    }

    constructor ()
      ensures Valid() && bytes == []
    {
      pending, started, bytes := [], false, [];
    }

    /** One chunk: the texts of the chunks add up to that of all the bytes. */
    method Decode(chunk: seq<byte>) returns (piece: string)
      requires Valid()
      modifies this
      ensures Valid() && bytes == old(bytes) + chunk && StreamedText(bytes) == StreamedText(old(bytes)) + piece
    {
      hide StreamText, StreamLeft;
      StreamInParts(bytes, chunk);
      ghost var before := StreamText(bytes);
      var text := StreamText(pending + chunk);
      pending := StreamLeft(pending + chunk);
      piece := if started then text else WithoutBom(text);
      started := started || text != "";
      assert before + text == if before == "" then text else [before[0]] + (before[1..] + text);
      bytes := bytes + chunk;
    }
  }
}
