/**
  The reply parsers of `readStr` and `readNum`. Each read first drains pending
  event frames with repeated `listen()`, then sends `get comp` and parses the
  display's reply:
    text:    70 <bytes> FF FF FF
    numeric: 71 b0 b1 b2 b3 FF FF FF   (little-endian 32-bit value)
  and answers a sentinel ("ERROR", 777777) when the reply is missing or malformed.

  `pending` is what is buffered when the read starts; `reply` is what arrives
  after the request is sent and before the deadline. The parser sees the bytes
  the drain left behind followed by the reply.
 */
module Replies {
  import opened Bytes
  import opened Events
  import opened Encoders

  const TEXT_MARKER: uint8 := 0x70
  const NUM_MARKER: uint8 := 0x71
  const TEXT_ERROR: seq<uint8> := [0x45, 0x52, 0x52, 0x4F, 0x52]  // "ERROR"
  const NUM_ERROR: uint32 := 777777

  /** A parsed value and the bytes left in the stream. */
  datatype Parsed<T> = Parsed(value: T, rest: seq<uint8>)

  /** How many times the byte `x` occurs in `s`. */
  function Occurrences(s: seq<uint8>, x: uint8): (n: nat)
    ensures n <= |s|
    ensures n == 0 <==> x !in s
  {
    if |s| == 0 then 0 else (if s[0] == x then 1 else 0) + Occurrences(s[1..], x)
  }

  // ---------------------------------------------------------------------------
  // Text replies

  /** Put `t` in front of the text of a successful collection. */
  function Prepend(t: seq<uint8>, r: Option<(seq<uint8>, seq<uint8>)>): Option<(seq<uint8>, seq<uint8>)>
  {
    match r
    case None => None
    case Some((u, rest)) => Some((t + u, rest))
  }

  /**
    The bytes after the 0x70 marker up to the `need`-th 0xFF, with every 0xFF
    left out, and the bytes after it; None when fewer than `need` 0xFF arrive.
    The 0xFF bytes need not be adjacent.
   */
  function CollectText(body: seq<uint8>, need: nat): (r: Option<(seq<uint8>, seq<uint8>)>)
    requires need >= 1
    ensures r.Some? ==> END !in r.value.0 && IsSuffix(r.value.1, body) && |r.value.1| < |body|
    decreases |body|
  {
    if |body| == 0 then None
    else if body[0] == END then
      (if need == 1 then Some(([], body[1..])) else CollectText(body[1..], need - 1))
    else Prepend([body[0]], CollectText(body[1..], need))
  }

  /** The text reply: "ERROR" for a short buffer, a missing marker or missing terminators. */
  function TextReply(buf: seq<uint8>): (r: Parsed<seq<uint8>>)
    ensures END !in r.value
    ensures IsSuffix(r.rest, buf)
    ensures |buf| < 4 ==> r == Parsed(TEXT_ERROR, buf)
    ensures |buf| >= 4 && TEXT_MARKER !in buf ==> r == Parsed(TEXT_ERROR, [])
  {
    if |buf| < 4 then Parsed(TEXT_ERROR, buf)
    else
      match FirstIndexOf(buf, TEXT_MARKER)
      case None => Parsed(TEXT_ERROR, [])
      case Some(i) =>
        var r := TextResult(CollectText(buf[i + 1..], 3));
        DropIsSuffix(buf, i + 1);
        SuffixTrans(r.rest, buf[i + 1..], buf);
        r
  }

  /** The answer for the outcome of the accumulation: the text, or "ERROR" with the stream emptied. */
  function TextResult(c: Option<(seq<uint8>, seq<uint8>)>): Parsed<seq<uint8>>
  {
    match c
    case None => Parsed(TEXT_ERROR, [])
    case Some((text, rest)) => Parsed(text, rest)
  }

  /** Behind bytes without 0x70, the marker is found and what follows it is collected. */
  lemma TextReplyAfterMarker(junk: seq<uint8>, body: seq<uint8>)
    requires TEXT_MARKER !in junk
    requires |junk| + 1 + |body| >= 4
    ensures TextReply(junk + [TEXT_MARKER] + body) == TextResult(CollectText(body, 3))
  {
    var buf := junk + [TEXT_MARKER] + body;
    FirstIndexAfterPrefix(junk, TEXT_MARKER, body);
    assert buf[|junk| + 1..] == body;
  }

  lemma PrependEmpty(r: Option<(seq<uint8>, seq<uint8>)>)
    ensures Prepend([], r) == r
  {
    if r.Some? {
      assert [] + r.value.0 == r.value.0;
    }
  }

  lemma PrependTwice(t: seq<uint8>, c: uint8, r: Option<(seq<uint8>, seq<uint8>)>)
    ensures Prepend(t, Prepend([c], r)) == Prepend(t + [c], r)
  {
    if r.Some? {
      assert t + ([c] + r.value.0) == (t + [c]) + r.value.0;
    }
  }

  /**
    The accumulation loop of `readStr` after the 0x70 marker: count 0xFF bytes,
    append every other byte, stop at the third 0xFF or when the stream runs dry.
   */
  method AccumulateText(body: seq<uint8>) returns (found: bool, text: seq<uint8>, rest: seq<uint8>)
    ensures found ==> CollectText(body, 3) == Some((text, rest))
    ensures !found ==> CollectText(body, 3) == None && rest == []
  {
    text := [];
    found := false;
    var ends := 0;
    var i := 0;
    assert body[0..] == body;
    PrependEmpty(CollectText(body, 3));
    while !found && i < |body|
      invariant 0 <= i <= |body|
      invariant !found ==> 0 <= ends < 3
      invariant !found ==> CollectText(body, 3) == Prepend(text, CollectText(body[i..], 3 - ends))
      invariant found ==> CollectText(body, 3) == Some((text, body[i..]))
      decreases |body| - i
    {
      var c := body[i];
      CollectOne(text, body, i, ends);
      if c == END {
        ends := ends + 1;
        found := ends == 3;
      } else {
        text := text + [c];
      }
      i := i + 1;
    }
    rest := if found then body[i..] else [];
  }

  /** One step of the accumulation loop, stated on what is left to collect. */
  lemma CollectOne(text: seq<uint8>, body: seq<uint8>, i: nat, ends: nat)
    requires ends < 3 && i < |body|
    ensures body[i] == END && ends == 2
            ==> Prepend(text, CollectText(body[i..], 3 - ends)) == Some((text, body[i + 1..]))
    ensures body[i] == END && ends < 2
            ==> Prepend(text, CollectText(body[i..], 3 - ends)) == Prepend(text, CollectText(body[i + 1..], 3 - (ends + 1)))
    ensures body[i] != END
            ==> Prepend(text, CollectText(body[i..], 3 - ends)) == Prepend(text + [body[i]], CollectText(body[i + 1..], 3 - ends))
  {
    assert body[i..][1..] == body[i + 1..];
    if body[i] == END {
      assert text + [] == text;
    } else {
      PrependTwice(text, body[i], CollectText(body[i + 1..], 3 - ends));
    }
  }

  /**
    `readStr(comp)`: drain pending events, send `get comp`, parse the text reply.
    A drain that times out does not abort the read.
   */
  method ReadStr(st: State, pending: seq<uint8>, comp: seq<uint8>, reply: seq<uint8>)
    returns (st': State, request: seq<uint8>, text: seq<uint8>, rest: seq<uint8>)
    ensures st' == Drain(st, pending).state
    ensures request == GetRequest(comp)
    ensures Parsed(text, rest) == TextReply(Drain(st, pending).rest + reply)
    ensures END !in text
  {
    var drained := Drain(st, pending);
    st' := drained.state;
    request := GetRequest(comp);
    var buf := drained.rest + reply;
    if |buf| < 4 {
      text, rest := TEXT_ERROR, buf;
    } else {
      match FirstIndexOf(buf, TEXT_MARKER)
      case None =>
        text, rest := TEXT_ERROR, [];
      case Some(i) =>
        var found;
        found, text, rest := AccumulateText(buf[i + 1..]);
        if !found {
          text := TEXT_ERROR;
        }
    }
  }

  // ---------------------------------------------------------------------------
  // Numeric replies

  /**
    `acc <<= 8; acc |= b` on a `uint32_t`: the shift drops the top byte and clears
    the low one, so or-ing in a byte adds it.
   */
  function ShiftIn(acc: uint32, b: uint8): uint32
  {
    (acc * 0x100) % 0x1_0000_0000 + b
  }

  /** `_numberValue` rebuilt from `_numericBuffer[3]` down to `_numericBuffer[0]`. */
  function Assemble(b: seq<uint8>): uint32
    requires |b| == 4
  {
    ShiftIn(ShiftIn(ShiftIn(b[3], b[2]), b[1]), b[0])
  }

  function LittleEndianBytes(v: uint32): (b: seq<uint8>)
    ensures |b| == 4
  {
    var q1 := v / 0x100;
    var q2 := q1 / 0x100;
    [v % 0x100, q1 % 0x100, q2 % 0x100, q2 / 0x100]
  }

  /** Below 2^24 the shift loses nothing: or-ing in a byte is `acc * 256 + b`. */
  lemma ShiftInSmall(acc: uint32, b: uint8)
    requires acc < 0x100_0000
    ensures ShiftIn(acc, b) == acc * 0x100 + b
  {
    assert 0 <= acc * 0x100 < 0x1_0000_0000;
  }

  /** The assembled value is b0 + 2^8 b1 + 2^16 b2 + 2^24 b3: nothing is lost to the shifts. */
  lemma AssembleIsSum(b: seq<uint8>)
    requires |b| == 4
    ensures Assemble(b) == b[0] as int + 0x100 * (b[1] as int + 0x100 * (b[2] as int + 0x100 * b[3] as int))
  {
    var v3: int := b[3];
    ShiftInSmall(v3, b[2]);
    var v2 := v3 * 0x100 + b[2];
    ShiftInSmall(v2, b[1]);
    var v1 := v2 * 0x100 + b[1];
    ShiftInSmall(v1, b[0]);
  }

  lemma ByteStep(x: nat, c: uint8)
    ensures (x * 0x100 + c) / 0x100 == x
    ensures (x * 0x100 + c) % 0x100 == c
  {
  }

  /** Every 32-bit value survives the trip through its four little-endian bytes. */
  lemma AssembleLittleEndian(v: uint32)
    ensures Assemble(LittleEndianBytes(v)) == v
  {
    var b := LittleEndianBytes(v);
    AssembleIsSum(b);
    var q1 := v / 0x100;
    var q2 := q1 / 0x100;
    assert v == q1 * 0x100 + v % 0x100;
    assert q1 == q2 * 0x100 + q1 % 0x100;
    assert q2 == (q2 / 0x100) * 0x100 + q2 % 0x100;
  }

  /** Every byte of the buffer can be read back from the assembled value. */
  lemma LittleEndianOfAssemble(b: seq<uint8>)
    requires |b| == 4
    ensures LittleEndianBytes(Assemble(b)) == b
  {
    AssembleIsSum(b);
    var x2: nat := b[3];
    var x1: nat := x2 * 0x100 + b[2];
    var x0: nat := x1 * 0x100 + b[1];
    ByteStep(x0, b[0]);
    ByteStep(x1, b[1]);
    ByteStep(x2, b[2]);
  }

  /** The fields `readNum` reads after the 0x71 marker. */
  datatype NumFields = NumFields(ok: bool, bytes: seq<uint8>, rest: seq<uint8>)

  /**
    What the `k`-th `read()` after the marker returns: the byte at position `k`,
    or -1 once the stream has run dry.
   */
  function ReadAt(after: seq<uint8>, k: nat): int
  {
    if k < |after| then after[k] else -1
  }

  /** The stream after `k` reads; reads from an empty stream consume nothing. */
  function After(after: seq<uint8>, k: nat): (rest: seq<uint8>)
    ensures IsSuffix(rest, after)
  {
    if k <= |after| then after[k..] else []
  }

  /**
    What `readNum` does after the 0x71 marker, without checking that the bytes
    arrived: four reads stored into the `uint8_t` cells of `_numericBuffer`, then
    three reads that must each pass the end test; the first that fails aborts.
   */
  function NumBody(after: seq<uint8>): (r: NumFields)
    ensures |r.bytes| == 4
    ensures IsSuffix(r.rest, after)
    ensures |after| >= 7 ==> r.bytes == after[..4] && (r.ok <==> after[4..7] == TERMINATOR)
    ensures |after| >= 7 && r.ok ==> r.rest == after[7..]
  {
    var bytes := [ToUint8(ReadAt(after, 0)), ToUint8(ReadAt(after, 1)),
                  ToUint8(ReadAt(after, 2)), ToUint8(ReadAt(after, 3))];
    assert |after| >= 7 ==> bytes == after[..4];
    assert |after| >= 7 ==> (after[4..7] == TERMINATOR <==> after[4] == END && after[5] == END && after[6] == END) by {
      if |after| >= 7 {
        var t := after[4..7];
        assert t[0] == after[4] && t[1] == after[5] && t[2] == after[6];
      }
    }
    if !IsEndChar(ReadAt(after, 4)) then NumFields(false, bytes, After(after, 5))
    else if !IsEndChar(ReadAt(after, 5)) then NumFields(false, bytes, After(after, 6))
    else if !IsEndChar(ReadAt(after, 6)) then NumFields(false, bytes, After(after, 7))
    else NumFields(true, bytes, After(after, 7))
  }

  /** The value `readNum` answers: the assembled bytes, or the sentinel after a bad terminator. */
  function NumValue(f: NumFields): uint32
    requires |f.bytes| == 4
  {
    if f.ok then Assemble(f.bytes) else NUM_ERROR
  }

  /**
    `readNum`'s reply parser as written: wait for 8 bytes, search for 0x71 and
    parse what follows it with `NumBody`.
   */
  function NumReplyAsWritten(buf: seq<uint8>): (r: Parsed<uint32>)
    ensures IsSuffix(r.rest, buf)
    ensures |buf| < 8 ==> r == Parsed(NUM_ERROR, buf)
    ensures |buf| >= 8 && NUM_MARKER !in buf ==> r == Parsed(NUM_ERROR, [])
  {
    if |buf| < 8 then Parsed(NUM_ERROR, buf)
    else
      match FirstIndexOf(buf, NUM_MARKER)
      case None => Parsed(NUM_ERROR, [])
      case Some(i) =>
        var f := NumBody(buf[i + 1..]);
        DropIsSuffix(buf, i + 1);
        SuffixTrans(f.rest, buf[i + 1..], buf);
        Parsed(NumValue(f), f.rest)
  }

  /** A complete numeric reply starts at position `j` of `buf`. */
  predicate CompleteReplyAt(buf: seq<uint8>, j: nat)
  {
    j + 8 <= |buf| && buf[j] == NUM_MARKER && buf[j + 5..j + 8] == TERMINATOR
  }

  /**
    `readNum`'s reply parser with the reads past the end ruled out: when fewer
    than seven bytes follow the marker the reply is incomplete and the answer is
    the sentinel. A value other than the sentinel always comes from a complete
    reply at the first marker.
   */
  function NumReply(buf: seq<uint8>): (r: Parsed<uint32>)
    ensures IsSuffix(r.rest, buf)
    ensures |buf| < 8 ==> r == Parsed(NUM_ERROR, buf)
    ensures NUM_MARKER !in buf ==> r.value == NUM_ERROR
    ensures r.value != NUM_ERROR ==>
              && FirstIndexOf(buf, NUM_MARKER).Some?
              && var j := FirstIndexOf(buf, NUM_MARKER).value;
              && CompleteReplyAt(buf, j)
              && r.value == Assemble(buf[j + 1..j + 5])
              && r.rest == buf[j + 8..]
  {
    if |buf| < 8 then Parsed(NUM_ERROR, buf)
    else
      match FirstIndexOf(buf, NUM_MARKER)
      case None => Parsed(NUM_ERROR, [])
      case Some(j) =>
        DropIsSuffix(buf, j + 1);
        var after := buf[j + 1..];
        if |after| < 7 then Parsed(NUM_ERROR, after)
        else
          var f := NumBody(after);
          SuffixTrans(f.rest, after, buf);
          AfterMarker(buf, j);
          Parsed(NumValue(f), f.rest)
  }

  lemma AfterMarker(buf: seq<uint8>, j: nat)
    requires j + 8 <= |buf|
    ensures buf[j + 1..][4..7] == buf[j + 5..j + 8]
    ensures buf[j + 1..][..4] == buf[j + 1..j + 5]
    ensures buf[j + 1..][7..] == buf[j + 8..]
  {
  }

  /** The two parsers differ only when fewer than seven bytes follow the first marker. */
  lemma NumReplyAgrees(buf: seq<uint8>)
    ensures NumReply(buf) != NumReplyAsWritten(buf) ==>
              && |buf| >= 8
              && FirstIndexOf(buf, NUM_MARKER).Some?
              && |buf| - FirstIndexOf(buf, NUM_MARKER).value < 8
              && NumReply(buf) == Parsed(NUM_ERROR, buf[FirstIndexOf(buf, NUM_MARKER).value + 1..])
  {
  }

  datatype NumRead = NumRead(state: State, request: seq<uint8>, value: uint32, rest: seq<uint8>)

  /**
    `readNum(comp)`: drain pending events, send `get comp`, parse the numeric
    reply. A drain that times out does not abort the read.
   */
  function ReadNum(st: State, pending: seq<uint8>, comp: seq<uint8>, reply: seq<uint8>): (r: NumRead)
    ensures r.request == GetRequest(comp)
    ensures r.state == Drain(st, pending).state
    ensures r.value != NUM_ERROR ==> exists j :: CompleteReplyAt(Drain(st, pending).rest + reply, j)
  {
    var drained := Drain(st, pending);
    var parsed := NumReply(drained.rest + reply);
    NumRead(drained.state, GetRequest(comp), parsed.value, parsed.rest)
  }

  // ---------------------------------------------------------------------------
  // Properties of the text parser

  /** Bytes other than 0xFF before the rest are simply collected. */
  lemma {:induction false} CollectPlain(s: seq<uint8>, rest: seq<uint8>, need: nat)
    requires need >= 1
    requires END !in s
    ensures CollectText(s + rest, need) == Prepend(s, CollectText(rest, need))
    decreases |s|
  {
    if |s| == 0 {
      assert s + rest == rest;
      match CollectText(rest, need) {
        case None =>
        case Some((u, r)) => assert [] + u == u;
      }
    } else {
      assert (s + rest)[1..] == s[1..] + rest;
      CollectPlain(s[1..], rest, need);
      PrependTwice([], s[0], CollectText(s[1..] + rest, need));
      match CollectText(rest, need) {
        case None =>
        case Some((u, r)) => assert [s[0]] + (s[1..] + u) == s + u;
      }
    }
  }

  /** Fewer than `need` 0xFF bytes is exactly when the collection fails. */
  lemma {:induction false} CollectTextFailsIff(body: seq<uint8>, need: nat)
    requires need >= 1
    ensures CollectText(body, need).None? <==> Occurrences(body, END) < need
    decreases |body|
  {
    if |body| > 0 {
      if body[0] == END && need == 1 {
      } else if body[0] == END {
        CollectTextFailsIff(body[1..], need - 1);
      } else {
        CollectTextFailsIff(body[1..], need);
      }
    }
  }

  lemma CollectAtTerminator(tail: seq<uint8>)
    ensures CollectText(TERMINATOR + tail, 3) == Some(([], tail))
  {
    var t := [END, END, END] + tail;
    assert TERMINATOR + tail == t;
    assert t[0] == END && t[1..] == [END, END] + tail;
    assert ([END, END] + tail)[1..] == [END] + tail;
    assert ([END] + tail)[1..] == tail;
    assert CollectText([END] + tail, 1) == Some(([], tail));
    assert CollectText([END, END] + tail, 2) == CollectText([END] + tail, 1);
    assert CollectText(t, 3) == CollectText([END, END] + tail, 2);
  }

  /** `70 s FF FF FF` after bytes without 0x70 yields s, for any s without 0xFF. */
  lemma TextReplyRoundTrip(junk: seq<uint8>, s: seq<uint8>, tail: seq<uint8>)
    requires TEXT_MARKER !in junk
    requires END !in s
    ensures TextReply(junk + [TEXT_MARKER] + s + TERMINATOR + tail) == Parsed(s, tail)
  {
    var after := s + (TERMINATOR + tail);
    assert junk + [TEXT_MARKER] + s + TERMINATOR + tail == junk + [TEXT_MARKER] + after;
    TextReplyAfterMarker(junk, after);
    CollectPlain(s, TERMINATOR + tail, 3);
    CollectAtTerminator(tail);
    assert s + [] == s;
  }

  /** An empty text box answers `70 FF FF FF`, which reads as the empty text. */
  lemma EmptyTextReply()
    ensures TextReply([TEXT_MARKER] + TERMINATOR) == Parsed([], [])
  {
    assert [TEXT_MARKER] + TERMINATOR == [] + [TEXT_MARKER] + [] + TERMINATOR + [];
    TextReplyRoundTrip([], [], []);
  }

  /** The three 0xFF bytes need not be adjacent: every other byte joins the text. */
  lemma TextReplySpreadTerminators(a: seq<uint8>, b: seq<uint8>, c: seq<uint8>, tail: seq<uint8>)
    requires END !in a && END !in b && END !in c
    ensures TextReply([TEXT_MARKER] + a + [END] + b + [END] + c + [END] + tail) == Parsed(a + b + c, tail)
  {
    var body := a + ([END] + (b + ([END] + (c + ([END] + tail)))));
    CollectSpread(a, b, c, tail);
    assert [TEXT_MARKER] + a + [END] + b + [END] + c + [END] + tail == [] + [TEXT_MARKER] + body;
    TextReplyAfterMarker([], body);
  }

  lemma CollectSpread(a: seq<uint8>, b: seq<uint8>, c: seq<uint8>, tail: seq<uint8>)
    requires END !in a && END !in b && END !in c
    ensures CollectText(a + ([END] + (b + ([END] + (c + ([END] + tail))))), 3) == Some((a + b + c, tail))
  {
    var third := c + ([END] + tail);
    var second := b + ([END] + third);
    CollectThroughEnd(c, tail, 1);
    CollectThroughEnd(b, third, 2);
    CollectThroughEnd(a, second, 3);
    assert a + (b + c) == a + b + c;
  }

  /** Bytes other than 0xFF up to the next 0xFF are collected, and that 0xFF is counted. */
  lemma CollectThroughEnd(s: seq<uint8>, rest: seq<uint8>, need: nat)
    requires need >= 1
    requires END !in s
    ensures CollectText(s + ([END] + rest), need)
         == if need == 1 then Some((s, rest)) else Prepend(s, CollectText(rest, need - 1))
  {
    CollectPlain(s, [END] + rest, need);
    assert ([END] + rest)[1..] == rest;
    assert s + [] == s;
  }

  /** Fewer than three 0xFF after the marker give "ERROR", with the stream emptied. */
  lemma TextReplyMissingTerminators(junk: seq<uint8>, body: seq<uint8>)
    requires TEXT_MARKER !in junk
    requires |junk| + 1 + |body| >= 4
    requires Occurrences(body, END) < 3
    ensures TextReply(junk + [TEXT_MARKER] + body) == Parsed(TEXT_ERROR, [])
  {
    CollectTextFailsIff(body, 3);
    TextReplyAfterMarker(junk, body);
  }

  /**
    A drain that ends by its timeout (one stray byte left) does not abort the
    text read: the reply after the stray byte is still parsed.
   */
  lemma TextReadAfterDrainTimeout(st: State, stray: uint8, s: seq<uint8>)
    requires stray != TEXT_MARKER
    requires END !in s
    ensures Drain(st, [stray]).timedOut
    ensures TextReply(Drain(st, [stray]).rest + ([TEXT_MARKER] + s + TERMINATOR)) == Parsed(s, [])
  {
    assert [stray] + ([TEXT_MARKER] + s + TERMINATOR) == [stray] + [TEXT_MARKER] + s + TERMINATOR + [];
    TextReplyRoundTrip([stray], s, []);
  }

  // ---------------------------------------------------------------------------
  // Properties of the numeric parser

  /** The reply of a 32-bit value v. */
  function NumReplyBytes(v: uint32): (r: seq<uint8>)
    ensures |r| == 8
  {
    [NUM_MARKER] + LittleEndianBytes(v) + TERMINATOR
  }

  /** Behind bytes without 0x71, both parsers find the marker and read the fields after it. */
  lemma NumReplyAfterMarker(junk: seq<uint8>, after: seq<uint8>)
    requires NUM_MARKER !in junk
    requires |after| >= 7
    ensures NumReplyAsWritten(junk + [NUM_MARKER] + after) == Parsed(NumValue(NumBody(after)), NumBody(after).rest)
    ensures NumReply(junk + [NUM_MARKER] + after) == Parsed(NumValue(NumBody(after)), NumBody(after).rest)
  {
    var buf := junk + [NUM_MARKER] + after;
    FirstIndexAfterPrefix(junk, NUM_MARKER, after);
    assert buf[|junk| + 1..] == after;
  }

  /** `71 b0 b1 b2 b3 FF FF FF` after bytes without 0x71 yields the value, for every value. */
  lemma NumReplyRoundTrip(junk: seq<uint8>, v: uint32, tail: seq<uint8>)
    requires NUM_MARKER !in junk
    ensures NumReplyAsWritten(junk + NumReplyBytes(v) + tail) == Parsed(v, tail)
    ensures NumReply(junk + NumReplyBytes(v) + tail) == Parsed(v, tail)
  {
    var bytes := LittleEndianBytes(v);
    var after := bytes + TERMINATOR + tail;
    assert junk + NumReplyBytes(v) + tail == junk + [NUM_MARKER] + after;
    NumReplyAfterMarker(junk, after);
    assert after[..4] == bytes;
    assert after[4..7] == TERMINATOR;
    assert after[7..] == tail;
    AssembleLittleEndian(v);
  }

  /** A terminator byte other than 0xFF gives the sentinel, never a partly built value. */
  lemma NumReplyBadTerminator(junk: seq<uint8>, bytes: seq<uint8>, ends: seq<uint8>, tail: seq<uint8>)
    requires NUM_MARKER !in junk
    requires |bytes| == 4 && |ends| == 3
    requires ends != TERMINATOR
    ensures NumReplyAsWritten(junk + [NUM_MARKER] + bytes + ends + tail).value == NUM_ERROR
    ensures NumReply(junk + [NUM_MARKER] + bytes + ends + tail).value == NUM_ERROR
  {
    var after := bytes + ends + tail;
    assert junk + [NUM_MARKER] + bytes + ends + tail == junk + [NUM_MARKER] + after;
    NumReplyAfterMarker(junk, after);
    assert after[4..7] == ends;
  }

  /** Once a stray byte ends the drain by its timeout, the read still returns the value. */
  lemma ReadNumAfterDrainTimeout(st: State, stray: uint8, comp: seq<uint8>, v: uint32)
    requires stray != NUM_MARKER
    ensures Drain(st, [stray]).timedOut
    ensures ReadNum(st, [stray], comp, NumReplyBytes(v)).value == v
  {
    assert [stray] + NumReplyBytes(v) == [stray] + NumReplyBytes(v) + [];
    NumReplyRoundTrip([stray], v, []);
  }

  /** With nothing pending, `readNum` returns exactly the value the display sent. */
  lemma ReadNumRoundTrip(st: State, comp: seq<uint8>, v: uint32)
    ensures ReadNum(st, [], comp, NumReplyBytes(v)).value == v
  {
    assert [] + NumReplyBytes(v) == [] + NumReplyBytes(v) + [];
    NumReplyRoundTrip([], v, []);
  }

  /**
    As written, a marker that arrives late is followed by reads past the end of
    the stream: seven zero bytes and 0x71 pass the 8-byte wait, the value bytes
    read as 0xFF and the missing terminators pass the end test.
   */
  lemma NumReplyReadsPastEnd()
    ensures NumReplyAsWritten([0, 0, 0, 0, 0, 0, 0, NUM_MARKER]) == Parsed(0xFFFF_FFFF, [])
    ensures NumReply([0, 0, 0, 0, 0, 0, 0, NUM_MARKER]) == Parsed(NUM_ERROR, [])
  {
    var buf: seq<uint8> := [0, 0, 0, 0, 0, 0, 0, NUM_MARKER];
    assert buf == [0, 0, 0, 0, 0, 0, 0] + [NUM_MARKER] + [];
    FirstIndexAfterPrefix([0, 0, 0, 0, 0, 0, 0], NUM_MARKER, []);
    assert buf[8..] == [];
    assert NumBody([]) == NumFields(true, [END, END, END, END], []);
    AssembleIsSum([END, END, END, END]);
  }
}
