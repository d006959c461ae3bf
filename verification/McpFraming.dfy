/**
 * Newline framing of MCP messages (packages/sandbox/src/mcp-stdio-relay.ts, frameMessage and
 * createFrameParser). Printing and parsing of JSON are parameters; chunks are bytes, put through
 * a streaming decoder, or strings.
 */
module McpFraming {
  import opened Prelude
  import opened Strings
  import Utf8

  /** The complete lines of a text. */
  function Lines(s: string): seq<string>
    decreases |s|
  {
    var nl := IndexOf(s, '\n');
    if nl == |s| then [] else [s[..nl]] + Lines(s[nl + 1..])
  }

  /** What follows the last newline. */
  function Rest(s: string): string
    decreases |s|
  {
    var nl := IndexOf(s, '\n');
    if nl == |s| then s else Rest(s[nl + 1..])
  }

  /** trim and JSON.parse: a blank line, a message, or neither. */
  datatype Reading<M> = Blank | Message(m: M) | Malformed

  /** The first line that is malformed, |lines| when none is. */
  function FirstBad<M>(read: string -> Reading<M>, lines: seq<string>): (k: nat)
    ensures k <= |lines| && (k < |lines| ==> read(lines[k]).Malformed?)
    ensures forall i :: 0 <= i < k ==> !read(lines[i]).Malformed?
  {
    if lines == [] || read(lines[0]).Malformed? then 0 else 1 + FirstBad(read, lines[1..])
  }

  predicate AllRead<M>(read: string -> Reading<M>, lines: seq<string>) {
    forall i :: 0 <= i < |lines| ==> !read(lines[i]).Malformed?
  }

  function Messages<M>(read: string -> Reading<M>, lines: seq<string>): seq<M> {
    if lines == [] then [] else Taken(read(lines[0])) + Messages(read, lines[1..])
  }

  function Taken<M>(r: Reading<M>): seq<M> { if r.Message? then [r.m] else [] }

  lemma LinesStep(s: string, nl: nat)
    requires nl == IndexOf(s, '\n') < |s|
    ensures Lines(s) == [s[..nl]] + Lines(s[nl + 1..])
  {
    hide IndexOf, Rest;
  }

  lemma RestStep(s: string, nl: nat)
    requires nl == IndexOf(s, '\n') < |s|
    ensures Rest(s) == Rest(s[nl + 1..])
  {
    hide IndexOf, Lines;
  }

  /** Lines that are complete stay as they are, whatever comes next. */
  lemma {:induction false} LinesInParts(s: string, more: string)
    ensures Lines(s + more) == Lines(s) + Lines(Rest(s) + more)
    ensures Rest(s + more) == Rest(Rest(s) + more)
    decreases |s|
  {
    hide IndexOf, Lines, Rest;
    var nl := IndexOf(s, '\n');
    IndexStays(s, '\n', more);
    if nl < |s| {
      assert (s + more)[..nl] == s[..nl] && (s + more)[nl + 1..] == s[nl + 1..] + more;
      LinesStep(s, nl);
      RestStep(s, nl);
      LinesStep(s + more, nl);
      RestStep(s + more, nl);
      LinesInParts(s[nl + 1..], more);
    } else {
      NoLine(s);
    }
  }

  lemma NoLine(s: string)
    requires IndexOf(s, '\n') == |s|
    ensures Lines(s) == [] && Rest(s) == s
  {
  }

  lemma {:induction false} MessagesOfConcat<M>(read: string -> Reading<M>, a: seq<string>, b: seq<string>)
    ensures Messages(read, a + b) == Messages(read, a) + Messages(read, b)
  {
    hide Taken;
    if a == [] {
      assert a + b == b;
    } else {
      assert (a + b)[1..] == a[1..] + b;
      MessagesOfConcat(read, a[1..], b);
    }
  }

  datatype Chunk = Bytes(bytes: seq<byte>) | Text(text: string)

  class FrameParser<M> {
    const read: string -> Reading<M>
    const decoder: Utf8.StreamDecoder
    var buffer: string
    var delivered: seq<M>
    /** The text received so far. */
    ghost var text: string

    /**
     * What was delivered and what the buffer still holds are the messages of the text. After a
     * malformed line was thrown the buffer may hold complete lines.
     */
    ghost predicate Valid()
      reads this, decoder
    {
      && decoder.Valid()
      && delivered + Messages(read, Lines(buffer)) == Messages(read, Lines(text)) && Rest(buffer) == Rest(text)
    }

    constructor (read: string -> Reading<M>)
      ensures Valid() && fresh(decoder) && this.read == read
      ensures text == "" && buffer == "" && delivered == [] && decoder.bytes == []
    {
      this.read := read;
      decoder := new Utf8.StreamDecoder();
      buffer, delivered, text := "", [], "";
    }

    /**
     * The parser on one chunk. The messages up to the first malformed line are delivered; that
     * line is dropped and thrown, and the lines after it wait for the next chunk.
     */
    method Feed(chunk: Chunk) returns (thrown: Option<string>, ghost piece: string)
      requires Valid()
      modifies this, decoder
      ensures Valid() && text == old(text) + piece
      ensures match chunk
        case Text(t) => piece == t && decoder.bytes == old(decoder.bytes)
        case Bytes(b) =>
          && decoder.bytes == old(decoder.bytes) + b
          && Utf8.StreamedText(decoder.bytes) == Utf8.StreamedText(old(decoder.bytes)) + piece
      ensures var lines := Lines(old(buffer) + piece);
        var k := FirstBad(read, lines);
        && delivered == old(delivered) + Messages(read, lines[..k]) && Rest(buffer) == Rest(old(buffer) + piece)
        && (k == |lines| ==> thrown == None && Lines(buffer) == [] && buffer == Rest(buffer))
        && (k < |lines| ==> thrown == Some(lines[k]) && Lines(buffer) == lines[k + 1..])
    {
      hide IndexOf, Messages, Lines, Rest, FirstBad, Utf8.StreamedText;
      var t: string;
      match chunk {
        case Text(u) => t := u;
        case Bytes(b) => t := decoder.Decode(b);
      }
      piece := t;
      ReadFurther(read, delivered, text, buffer, t);
      text := text + t;
      buffer := buffer + t;
      thrown := Drain();
    }

    /** The loop over the complete lines. */
    method Drain() returns (thrown: Option<string>)
      modifies this`buffer, this`delivered
      ensures var lines := Lines(old(buffer));
        var k := FirstBad(read, lines);
        && delivered == old(delivered) + Messages(read, lines[..k]) && Rest(buffer) == Rest(old(buffer))
        && (k == |lines| ==> thrown == None && Lines(buffer) == [] && buffer == Rest(buffer))
        && (k < |lines| ==> thrown == Some(lines[k]) && Lines(buffer) == lines[k + 1..])
      ensures delivered + Messages(read, Lines(buffer)) == old(delivered) + Messages(read, Lines(old(buffer)))
    {
      hide IndexOf, Messages, Lines, Rest, FirstBad;
      ghost var d0, lines, n := delivered, Lines(buffer), 0;
      NoMessages(read);
      assert lines[0..] == lines && lines[..0] == [];
      var nl := IndexOf(buffer, '\n');
      while nl < |buffer|
        invariant nl == IndexOf(buffer, '\n') <= |buffer|
        invariant n <= FirstBad(read, lines) && Lines(buffer) == lines[n..]
        invariant delivered == d0 + Messages(read, lines[..n]) && Rest(buffer) == Rest(old(buffer))
        decreases |buffer|
      {
        LinesStep(buffer, nl);
        RestStep(buffer, nl);
        var line := buffer[..nl];
        buffer := buffer[nl + 1..];
        assert line == lines[n] && Lines(buffer) == lines[n + 1..];
        DeliveredSplit(read, d0, lines, n);
        match read(line) {
          case Malformed =>
            return Some(line);
          case Blank =>
            assert delivered + [] == delivered;
          case Message(m) =>
            delivered := delivered + [m];
        }
        n := n + 1;
        nl := IndexOf(buffer, '\n');
      }
      NoLine(buffer);
      assert lines[n..] == [] && lines[..n] == lines;
      assert delivered + [] == delivered;
      thrown := None;
    }
  }

  /** One line more. */
  lemma DeliveredSplit<M>(read: string -> Reading<M>, d: seq<M>, lines: seq<string>, n: nat)
    requires n < |lines|
    ensures d + Messages(read, lines[..n + 1]) == d + Messages(read, lines[..n]) + Taken(read(lines[n]))
    ensures d + Messages(read, lines[..n]) + Taken(read(lines[n])) + Messages(read, lines[n + 1..])
      == d + Messages(read, lines)
  {
    hide Messages, Taken;
    var a, line, b := lines[..n], lines[n], lines[n + 1..];
    SplitAt(lines, n);
    MessageOfOne(read, line);
    OneLine(read, line, b);
    MessagesOfConcat(read, a, [line]);
    MessagesOfConcat(read, a, [line] + b);
    FourParts(d, Messages(read, a), Taken(read(line)), Messages(read, b));
  }

  lemma SplitAt(lines: seq<string>, n: nat)
    requires n < |lines|
    ensures lines[..n + 1] == lines[..n] + [lines[n]] && lines == lines[..n] + ([lines[n]] + lines[n + 1..])
  {
  }

  lemma MessageOfOne<M>(read: string -> Reading<M>, line: string)
    ensures Messages(read, [line]) == Taken(read(line))
  {
    assert [line][1..] == [] && Taken(read(line)) + [] == Taken(read(line));
  }

  lemma FourParts<M>(d: seq<M>, x: seq<M>, y: seq<M>, z: seq<M>)
    ensures d + (x + y) == d + x + y && d + (x + (y + z)) == d + x + y + z
  {
  }

  /** More text is more in the buffer. */
  lemma ReadFurther<M>(read: string -> Reading<M>, delivered: seq<M>, text: string, buffer: string, more: string)
    requires delivered + Messages(read, Lines(buffer)) == Messages(read, Lines(text)) && Rest(buffer) == Rest(text)
    ensures delivered + Messages(read, Lines(buffer + more)) == Messages(read, Lines(text + more))
    ensures Rest(buffer + more) == Rest(text + more)
  {
    hide Messages, Lines, Rest;
    LinesInParts(text, more);
    LinesInParts(buffer, more);
    var tail := Lines(Rest(text) + more);
    MessagesOfConcat(read, Lines(text), tail);
    MessagesOfConcat(read, Lines(buffer), tail);
    assert delivered + (Messages(read, Lines(buffer)) + Messages(read, tail))
        == delivered + Messages(read, Lines(buffer)) + Messages(read, tail);
  }

  lemma OneLine<M>(read: string -> Reading<M>, line: string, lines: seq<string>)
    ensures Messages(read, [line] + lines) == Taken(read(line)) + Messages(read, lines)
    ensures AllRead(read, [line] + lines) <==> !read(line).Malformed? && AllRead(read, lines)
  {
    var all := [line] + lines;
    assert all[1..] == lines;
    assert forall i :: 0 <= i < |lines| ==> all[i + 1] == lines[i];
  }

  lemma NoMessages<M>(read: string -> Reading<M>)
    ensures Messages(read, []) == [] && AllRead(read, [])
  {
  }

  // ---- The round trip --------------------------------------------------------------------------

  function Framed<M>(show: M -> string, ms: seq<M>): string {
    if ms == [] then "" else show(ms[0]) + "\n" + Framed(show, ms[1..])
  }

  /** What JSON.stringify and JSON.parse are to each other on messages. */
  ghost predicate Inverse<M(!new)>(show: M -> string, read: string -> Reading<M>) {
    forall m :: '\n' !in show(m) && (show(m) == "" || show(m)[0] != Utf8.BOM) && read(show(m)) == Message(m)
  }

  lemma {:induction false} FramedAreRead<M(!new)>(show: M -> string, read: string -> Reading<M>, ms: seq<M>)
    requires Inverse(show, read)
    ensures Messages(read, Lines(Framed(show, ms))) == ms && Rest(Framed(show, ms)) == ""
    ensures AllRead(read, Lines(Framed(show, ms)))
  {
    hide Messages, AllRead, Lines, Rest, IndexOf;
    if ms == [] {
      NoMessages(read);
      NothingIndexed();
      NoLine("");
    } else {
      var text, tail := show(ms[0]), Framed(show, ms[1..]);
      var s := text + "\n" + tail;
      FirstNewline(text, tail);
      LinesStep(s, |text|);
      RestStep(s, |text|);
      assert s[..|text|] == text && s[|text| + 1..] == tail;
      FramedAreRead(show, read, ms[1..]);
      OneLine(read, text, Lines(tail));
      assert ms == [ms[0]] + ms[1..];
    }
  }

  lemma NothingIndexed()
    ensures IndexOf("", '\n') == 0
  {
  }

  lemma FirstNewline(text: string, tail: string)
    requires '\n' !in text
    ensures IndexOf(text + "\n" + tail, '\n') == |text|
  {
    var s := text + "\n" + tail;
    assert s[|text|] == '\n';
    assert forall k :: 0 <= k < |text| ==> s[k] == text[k];
  }

  /** A part of a stream that reads well throughout reads well up to any chunk boundary. */
  lemma {:induction false} PrefixReads<M>(read: string -> Reading<M>, s: string, more: string)
    requires AllRead(read, Lines(s + more))
    ensures AllRead(read, Lines(s)) && AllRead(read, Lines(Rest(s) + more))
  {
    LinesInParts(s, more);
    hide Lines, Rest;
    assert forall i :: 0 <= i < |Lines(s)| ==> Lines(s + more)[i] == Lines(s)[i];
    assert forall i :: 0 <= i < |Lines(Rest(s) + more)| ==> Lines(s + more)[|Lines(s)| + i] == Lines(Rest(s) + more)[i];
  }

  lemma FramedHasNoBom<M(!new)>(show: M -> string, read: string -> Reading<M>, ms: seq<M>)
    requires Inverse(show, read)
    ensures Utf8.WithoutBom(Framed(show, ms)) == Framed(show, ms)
  {
    if ms != [] {
      var m := ms[0];
      assert show(m) == "" ==> Framed(show, ms)[0] == '\n';
    }
  }

  /** A part of the stream: nothing in it is malformed. */
  lemma PartReads<M>(read: string -> Reading<M>, text: string, piece: string, whole: string)
    requires text + piece <= whole && AllRead(read, Lines(whole))
    ensures AllRead(read, Lines(Rest(text) + piece))
  {
    hide Lines, Rest, AllRead;
    var more := whole[|text + piece|..];
    assert whole == text + piece + more;
    PrefixReads(read, text + piece, more);
    PrefixReads(read, text, piece);
  }

  lemma NoneBad<M>(read: string -> Reading<M>, lines: seq<string>)
    requires AllRead(read, lines)
    ensures FirstBad(read, lines) == |lines|
  {
    hide FirstBad;
  }

  /** Framed messages are delivered one by one, however the bytes are cut into chunks. */
  method Relay<M(!new)>(show: M -> string, read: string -> Reading<M>, ms: seq<M>,
                 chunks: seq<seq<byte>>) returns (delivered: seq<M>)
    requires Inverse(show, read) && Utf8.Joined(chunks) == Utf8.Encode(Framed(show, ms))
    ensures delivered == ms
  {
    hide Lines, Rest, Messages, AllRead, Inverse, Framed, FirstBad, Utf8.StreamText, Utf8.Joined, Utf8.Encode,
      Utf8.WithoutBom;
    ghost var whole := Framed(show, ms);
    FramedAreRead(show, read, ms);
    FramedHasNoBom(show, read, ms);
    Utf8.StreamOfText(whole);
    var parser := new FrameParser(read);
    assert chunks[..0] == [];
    Utf8.NothingStreamed();
    NoLine("") by { NothingIndexed(); }
    for i := 0 to |chunks|
      invariant parser.Valid() && fresh(parser) && fresh(parser.decoder) && parser.read == read
      invariant parser.decoder.bytes == Utf8.Joined(chunks[..i])
        && parser.text == Utf8.StreamedText(parser.decoder.bytes)
      invariant Lines(parser.buffer) == [] && parser.buffer == Rest(parser.text)
    {
      assert chunks[..i + 1][..i] == chunks[..i];
      Utf8.JoinedStep(chunks, i);
      Utf8.JoinedUpTo(chunks, i + 1);
      ghost var text := parser.text;
      ghost var sofar := Utf8.Joined(chunks[..i + 1]);
      Utf8.StreamedPrefix(sofar, Utf8.Joined(chunks)[|sofar|..]);
      assert sofar + Utf8.Joined(chunks)[|sofar|..] == Utf8.Joined(chunks);
      var thrown, piece := parser.Feed(Bytes(chunks[i]));
      PartReads(read, text, piece, whole);
      NoneBad(read, Lines(Rest(text) + piece));
    }
    assert chunks[..|chunks|] == chunks;
    NoMessages(read);
    delivered := parser.delivered;
    assert delivered + [] == delivered;
  }
}
