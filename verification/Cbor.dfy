/**
 * The guest's CBOR decoder for the launch spec (packages/sandbox-vm-native/src/vm-init.c).
 * Each method of the cursor is proved against a function on the bytes that are left; None stands
 * for the source's error returns.
 */
module Cbor {
  import opened Prelude

  type bytes = seq<byte>

  const MAX_STR_LEN: nat := 4096
  const MAX_ARGV_BYTES: nat := 98304
  const MAX_ENTRIES: nat := 1024
  const MAX_ALLOWED_ENTRIES: nat := 256
  const SLASH: byte := '/' as int
  const EQUALS: byte := '=' as int

  // The major types of section 3.1 of RFC 8949.
  const UNSIGNED: nat := 0
  const BYTE_STRING: nat := 2
  const TEXT: nat := 3
  const ARRAY: nat := 4
  const MAP: nat := 5

  // ---- Heads and strings ------------------------------------------------------------------

  function BigEndian(b: bytes): nat {
    if b == [] then 0
    else
      var last: nat := b[|b| - 1];
      BigEndian(b[..|b| - 1]) * 256 + last
  }

  datatype Head = Head(major: nat, arg: nat, rest: bytes)

  /** How many bytes follow the initial byte; 28 to 31 are refused. */
  function ArgumentWidth(info: nat): Option<nat> {
    if info < 24 then Some(0)
    else match info
      case 24 => Some(1)
      case 25 => Some(2)
      case 26 => Some(4)
      case 27 => Some(8)
      case _ => None
  }

  function ReadHead(s: bytes): (r: Option<Head>)
    ensures r.Some? ==> |r.value.rest| < |s|
  {
    if s == [] then None
    else
      var first: nat := s[0];
      var width := ArgumentWidth(first % 32);
      if width.None? || 1 + width.value > |s| then None
      else Some(Head(first / 32, if width.value == 0 then first % 32
        else BigEndian(s[1..1 + width.value]), s[1 + width.value..]))
  }

  function ReadText(s: bytes): (r: Option<(bytes, bytes)>)
    ensures r.Some? ==> |r.value.1| < |s|
  {
    var h := ReadHead(s);
    if h.None? || h.value.major != TEXT || h.value.arg > MAX_STR_LEN || h.value.arg > |h.value.rest| then None
    else
      var text := h.value.rest[..h.value.arg];
      if 0 in text then None else Some((text, h.value.rest[h.value.arg..]))
  }

  function ReadTexts(s: bytes, n: nat, asEnv: bool): Option<(seq<bytes>, bytes)> {
    if n == 0 then Some(([], s))
    else
      var first := ReadText(s);
      if first.None? || (asEnv && !IsEnvEntry(first.value.0)) then None
      else
        var rest := ReadTexts(first.value.1, n - 1, asEnv);
        if rest.None? then None else Some(([first.value.0] + rest.value.0, rest.value.1))
  }

  function ReadPairs(s: bytes, n: nat): Option<(seq<(bytes, bytes)>, bytes)> {
    if n == 0 then Some(([], s))
    else
      var name := ReadText(s);
      if name.None? then None
      else
        var path := ReadText(name.value.1);
        if path.None? || !IsAbsolute(path.value.0) then None
        else
          var rest := ReadPairs(path.value.1, n - 1);
          if rest.None? then None else Some(([(name.value.0, path.value.0)] + rest.value.0, rest.value.1))
  }

  predicate IsAbsolute(p: bytes) { p != [] && p[0] == SLASH }

  predicate IsEnvEntry(e: bytes) { e != [] && e[0] != EQUALS && EQUALS in e }

  function ArgvBytes(argv: seq<bytes>): nat {
    if argv == [] then 0 else ArgvBytes(argv[..|argv| - 1]) + |argv[|argv| - 1]| + 1
  }

  // ---- Fields -------------------------------------------------------------------------------

  /** LaunchSpec, with the counts that are kept beside the arrays. */
  datatype Draft = Draft(
    executable: Option<bytes>, cwd: Option<bytes>, argv: Option<seq<bytes>>, argvCount: nat,
    env: seq<bytes>, envCount: nat, allowed: seq<(bytes, bytes)>, allowedCount: nat)

  const EMPTY: Draft := Draft(None, None, None, 0, [], 0, [], 0)

  function Ascii(s: string): (b: bytes)
    ensures |b| == |s|
  {
    seq(|s|, i requires 0 <= i < |s| => s[i] as int % 256)
  }

  /** The counts are increased, the arrays replaced. */
  function WithArgv(d: Draft, argv: seq<bytes>): Draft {
    d.(argv := Some(argv), argvCount := d.argvCount + |argv|)
  }

  function WithEnv(d: Draft, env: seq<bytes>): Draft {
    d.(env := env, envCount := d.envCount + |env|)
  }

  function WithAllowed(d: Draft, allowed: seq<(bytes, bytes)>): Draft {
    d.(allowed := allowed, allowedCount := d.allowedCount + |allowed|)
  }

  function Dropped(s: bytes, n: nat): bytes { if n <= |s| then s[n..] else [] }

  /** One value of an unknown field: containers are refused unless empty, strings stepped over unchecked. */
  function SkipItem(s: bytes): Option<bytes> {
    var h := ReadHead(s);
    if h.None? then None
    else if h.value.major == BYTE_STRING || h.value.major == TEXT then Some(Dropped(h.value.rest, h.value.arg))
    else if (h.value.major == ARRAY || h.value.major == MAP) && h.value.arg * 2 % 0x1_0000_0000_0000_0000 > 0 then None
    else Some(h.value.rest)
  }

  function ReadArray(s: bytes, asEnv: bool): Option<(seq<bytes>, bytes)> {
    var h := ReadHead(s);
    if h.None? || h.value.major != ARRAY || h.value.arg > MAX_ENTRIES then None
    else ReadTexts(h.value.rest, h.value.arg, asEnv)
  }

  function ReadMap(s: bytes): Option<(seq<(bytes, bytes)>, bytes)> {
    var h := ReadHead(s);
    if h.None? || h.value.major != MAP || h.value.arg > MAX_ALLOWED_ENTRIES then None
    else ReadPairs(h.value.rest, h.value.arg)
  }

  function ReadField(key: bytes, s: bytes, d: Draft): Option<(Draft, bytes)> {
    if key == Ascii("schemaVersion") then
      var h := ReadHead(s);
      if h.None? || h.value.major != UNSIGNED || h.value.arg != 1 then None else Some((d, h.value.rest))
    else if key == Ascii("executable") then
      var t := ReadText(s);
      if t.None? then None else Some((d.(executable := Some(t.value.0)), t.value.1))
    else if key == Ascii("argv") then
      var l := ReadArray(s, false);
      if l.None? || ArgvBytes(l.value.0) > MAX_ARGV_BYTES then None else Some((WithArgv(d, l.value.0), l.value.1))
    else if key == Ascii("cwd") then
      var t := ReadText(s);
      if t.None? then None else Some((d.(cwd := Some(t.value.0)), t.value.1))
    else if key == Ascii("env") then
      var l := ReadArray(s, true);
      if l.None? then None else Some((WithEnv(d, l.value.0), l.value.1))
    else if key == Ascii("allowedExecutables") then
      var m := ReadMap(s);
      if m.None? then None else Some((WithAllowed(d, m.value.0), m.value.1))
    else
      var rest := SkipItem(s);
      if rest.None? then None else Some((d, rest.value))
  }

  function ReadFields(s: bytes, n: nat, d: Draft): Option<Draft>
    decreases n
  {
    if n == 0 then Some(d)
    else
      var key := ReadText(s);
      if key.None? then None
      else
        var next := ReadField(key.value.0, key.value.1, d);
        if next.None? then None else ReadFields(next.value.1, n - 1, next.value.0)
  }

  predicate Complete(d: Draft) {
    d.executable.Some? && d.cwd.Some? && d.argv.Some? && d.argvCount != 0 && IsAbsolute(d.cwd.value)
  }

  /** What decode_launchspec promises. */
  function Decode(s: bytes): Option<Draft> {
    var h := ReadHead(s);
    if h.None? || h.value.major != MAP then None
    else
      var d := ReadFields(h.value.rest, h.value.arg, EMPTY);
      if d.None? || !Complete(d.value) then None else d
  }

  // ---- The cursor ------------------------------------------------------------------------------

  class Cursor {
    const data: bytes
    var p: nat

    /** What is left; the cursor may have been moved past the end. */
    function Left(): bytes
      reads this
    {
      Dropped(data, p)
    }

    constructor (data: bytes)
      ensures Left() == data && this.data == data
    {
      this.data, p := data, 0;
    }

    lemma Advanced(n: nat)
      ensures Dropped(data, p + n) == Dropped(Left(), n)
    {
    }

    method ReadByte() returns (b: Option<byte>)
      modifies this`p
      ensures b == if old(Left()) == [] then None else Some(old(Left())[0])
      ensures Left() == Dropped(old(Left()), if b.Some? then 1 else 0)
    {
      if p >= |data| { return None; }
      b := Some(data[p]);
      Advanced(1);
      p := p + 1;
    }

    /** The argument bytes after the initial byte, most significant first. */
    method ReadArgument(width: nat) returns (r: Option<nat>)
      modifies this`p
      ensures r.Some? <==> width <= |old(Left())|
      ensures r.Some? ==> r.value == BigEndian(old(Left())[..width]) && Left() == old(Left())[width..]
    {
      hide BigEndian, Dropped;
      ghost var s := Left();
      var v := 0;
      NoBytes(s);
      for k := 0 to width
        invariant k <= |s| && v == BigEndian(s[..k]) && Left() == s[k..]
      {
        DroppedOne(s, k);
        var b := ReadByte();
        if b.None? { return None; }
        OneMoreByte(s, k);
        var low: nat := b.value;
        v := v * 256 + low;
      }
      return Some(v);
    }

    /** cbor_read_head */
    method NextHead() returns (major: nat, arg: Option<nat>)
      modifies this`p
      ensures arg.Some? <==> ReadHead(old(Left())).Some?
      ensures arg.Some? ==> ReadHead(old(Left())) == Some(Head(major, arg.value, Left()))
    {
      hide BigEndian;
      ghost var s := Left();
      var ib := ReadByte();
      if ib.None? { return 0, None; }
      var first: nat := ib.value;
      major := first / 32;
      var info := first % 32;
      if info < 24 { return major, Some(info); }
      var width := ArgumentWidth(info);
      if width.None? { return major, None; }
      assert Left() == s[1..] && (width.value <= |s[1..]| ==> s[1..][..width.value] == s[1..1 + width.value]);
      arg := ReadArgument(width.value);
    }

    /** cbor_read_str */
    method NextText() returns (r: Option<bytes>)
      modifies this`p
      ensures r.Some? <==> ReadText(old(Left())).Some?
      ensures r.Some? ==> ReadText(old(Left())) == Some((r.value, Left()))
    {
      hide ReadHead;
      var major, len := NextHead();
      if len.None? || major != TEXT || len.value > MAX_STR_LEN { return None; }
      if len.value > 0 && p + len.value > |data| {
        assert len.value > |Left()|;
        return None;
      }
      var s := if len.value == 0 then [] else data[p..p + len.value];
      assert s == Left()[..len.value];
      Advanced(len.value);
      p := p + len.value;
      if 0 in s { return None; }
      return Some(s);
    }

    /** The array loops of decode_launchspec. */
    method NextTexts(n: nat, asEnv: bool) returns (r: Option<seq<bytes>>)
      modifies this`p
      ensures r.Some? <==> ReadTexts(old(Left()), n, asEnv).Some?
      ensures r.Some? ==> ReadTexts(old(Left()), n, asEnv) == Some((r.value, Left()))
    {
      hide ReadText, Dropped, IsEnvEntry;
      var items := [];
      ghost var start := Left();
      NothingBefore(ReadTexts(start, n, asEnv), None);
      for k := 0 to n
        invariant ReadTexts(start, n, asEnv) == PrependTexts(items, ReadTexts(Left(), n - k, asEnv))
      {
        ghost var here := Left();
        var t := NextText();
        if t.None? || (asEnv && !IsEnvEntry(t.value)) { return None; }
        PrependedTexts(items, t.value, ReadTexts(Left(), n - k - 1, asEnv));
        items := items + [t.value];
      }
      assert items + [] == items;
      return Some(items);
    }

    method NextPairs(n: nat) returns (r: Option<seq<(bytes, bytes)>>)
      modifies this`p
      ensures r.Some? <==> ReadPairs(old(Left()), n).Some?
      ensures r.Some? ==> ReadPairs(old(Left()), n) == Some((r.value, Left()))
    {
      hide ReadText, Dropped, IsAbsolute;
      var items := [];
      ghost var start := Left();
      NothingBefore(None, ReadPairs(start, n));
      for k := 0 to n
        invariant ReadPairs(start, n) == PrependPairs(items, ReadPairs(Left(), n - k))
      {
        var name := NextText();
        if name.None? { return None; }
        var path := NextText();
        if path.None? || !IsAbsolute(path.value) { return None; }
        PrependedPairs(items, (name.value, path.value), ReadPairs(Left(), n - k - 1));
        items := items + [(name.value, path.value)];
      }
      assert items + [] == items;
      return Some(items);
    }

    method NextArray(asEnv: bool) returns (r: Option<seq<bytes>>)
      modifies this`p
      ensures r.Some? <==> ReadArray(old(Left()), asEnv).Some?
      ensures r.Some? ==> ReadArray(old(Left()), asEnv) == Some((r.value, Left()))
    {
      hide ReadHead, ReadTexts, Dropped;
      var major, n := NextHead();
      if n.None? || major != ARRAY || n.value > MAX_ENTRIES { return None; }
      r := NextTexts(n.value, asEnv);
    }

    method NextMap() returns (r: Option<seq<(bytes, bytes)>>)
      modifies this`p
      ensures r.Some? <==> ReadMap(old(Left())).Some?
      ensures r.Some? ==> ReadMap(old(Left())) == Some((r.value, Left()))
    {
      hide ReadHead, ReadPairs, Dropped;
      var major, n := NextHead();
      if n.None? || major != MAP || n.value > MAX_ALLOWED_ENTRIES { return None; }
      r := NextPairs(n.value);
    }

    method SkipUnknown() returns (ok: bool)
      modifies this`p
      ensures ok <==> SkipItem(old(Left())).Some?
      ensures ok ==> SkipItem(old(Left())) == Some(Left())
    {
      hide ReadHead;
      var major, arg := NextHead();
      if arg.None? { return false; }
      if major == BYTE_STRING || major == TEXT {
        Advanced(arg.value);
        p := p + arg.value;
      } else if major == ARRAY || major == MAP {
        if arg.value * 2 % 0x1_0000_0000_0000_0000 > 0 { return false; }
      }
      return true;
    }

    /** The dispatch on one key. */
    method NextField(key: bytes, d: Draft) returns (r: Option<Draft>)
      modifies this`p
      ensures r.Some? <==> ReadField(key, old(Left()), d).Some?
      ensures r.Some? ==> ReadField(key, old(Left()), d) == Some((r.value, Left()))
    {
      hide ReadHead, ReadText, ReadArray, ReadMap, SkipItem, Ascii, ArgvBytes, Dropped, WithArgv, WithEnv, WithAllowed;
      if key == Ascii("schemaVersion") {
        var major, sv := NextHead();
        return if sv.None? || major != UNSIGNED || sv.value != 1 then None else Some(d);
      }
      if key == Ascii("executable") {
        var t := NextText();
        return if t.None? then None else Some(d.(executable := t));
      }
      if key == Ascii("argv") {
        var l := NextArray(false);
        if l.None? { return None; }
        var total := TotalBytes(l.value);
        return if total > MAX_ARGV_BYTES then None else Some(WithArgv(d, l.value));
      }
      if key == Ascii("cwd") {
        var t := NextText();
        return if t.None? then None else Some(d.(cwd := t));
      }
      if key == Ascii("env") {
        var l := NextArray(true);
        return if l.None? then None else Some(WithEnv(d, l.value));
      }
      if key == Ascii("allowedExecutables") {
        var m := NextMap();
        return if m.None? then None else Some(WithAllowed(d, m.value));
      }
      var ok := SkipUnknown();
      return if ok then Some(d) else None;
    }
  }

  method TotalBytes(argv: seq<bytes>) returns (total: nat)
    ensures total == ArgvBytes(argv)
  {
    total := 0;
    for k := 0 to |argv|
      invariant total == ArgvBytes(argv[..k])
    {
      assert argv[..k + 1][..k] == argv[..k];
      total := total + |argv[k]| + 1;
    }
    assert argv[..|argv|] == argv;
  }

  /** decode_launchspec */
  method DecodeLaunchSpec(data: bytes) returns (r: Option<Draft>)
    ensures r == Decode(data)
  {
    hide ReadHead, ReadText, ReadField, Dropped, Complete;
    var c := new Cursor(data);
    var major, n := c.NextHead();
    if n.None? || major != MAP { return None; }
    var d := EMPTY;
    ghost var start := c.Left();
    for i := 0 to n.value
      invariant ReadFields(start, n.value, EMPTY) == ReadFields(c.Left(), n.value - i, d)
    {
      var key := c.NextText();
      if key.None? { return None; }
      var next := c.NextField(key.value, d);
      if next.None? { return None; }
      d := next.value;
    }
    return if Complete(d) then Some(d) else None;
  }

  function PrependTexts(head: seq<bytes>, r: Option<(seq<bytes>, bytes)>): Option<(seq<bytes>, bytes)> {
    if r.None? then None else Some((head + r.value.0, r.value.1))
  }

  lemma PrependedTexts(head: seq<bytes>, item: bytes, r: Option<(seq<bytes>, bytes)>)
    ensures PrependTexts(head + [item], r) == PrependTexts(head, PrependTexts([item], r))
  {
    if r.Some? { assert head + [item] + r.value.0 == head + ([item] + r.value.0); }
  }

  function PrependPairs(head: seq<(bytes, bytes)>,
                        r: Option<(seq<(bytes, bytes)>, bytes)>): Option<(seq<(bytes, bytes)>, bytes)> {
    if r.None? then None else Some((head + r.value.0, r.value.1))
  }

  lemma PrependedPairs(head: seq<(bytes, bytes)>, item: (bytes, bytes), r: Option<(seq<(bytes, bytes)>, bytes)>)
    ensures PrependPairs(head + [item], r) == PrependPairs(head, PrependPairs([item], r))
  {
    if r.Some? { assert head + [item] + r.value.0 == head + ([item] + r.value.0); }
  }

  lemma NothingBefore(r: Option<(seq<bytes>, bytes)>, q: Option<(seq<(bytes, bytes)>, bytes)>)
    ensures PrependTexts([], r) == r && PrependPairs([], q) == q
  {
    if r.Some? { assert [] + r.value.0 == r.value.0; }
    if q.Some? { assert [] + q.value.0 == q.value.0; }
  }

  lemma NoBytes(s: bytes)
    ensures s[..0] == [] && s[0..] == s && BigEndian(s[..0]) == 0
  {
  }

  lemma DroppedOne(s: bytes, k: nat)
    requires k <= |s|
    ensures k < |s| ==> s[k..][0] == s[k] && Dropped(s[k..], 1) == s[k + 1..]
    ensures k == |s| ==> s[k..] == []
  {
  }

  lemma OneMoreByte(s: bytes, k: nat)
    requires k < |s|
    ensures var low: nat := s[k]; BigEndian(s[..k + 1]) == BigEndian(s[..k]) * 256 + low
  {
    assert s[..k + 1][..k] == s[..k];
  }
}
