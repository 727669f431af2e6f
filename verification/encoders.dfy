/**
  The outbound ASCII commands of nextion_ez: `writeNum`, `writeStr`, the `get`
  request of the read operations, `sendCmd`'s command line and `addWave`. Each
  is a byte string ending in FF FF FF; each has a decoder that recovers what was
  encoded.
 */
module Encoders {
  import opened Bytes
  import opened Decimal

  const EQUALS: uint8 := 0x3D  // '='
  const QUOTE: uint8 := 0x22   // '"'
  const SPACE: uint8 := 0x20   // ' '
  const GET: seq<uint8> := [0x67, 0x65, 0x74, 0x20]  // "get "
  const ADD: seq<uint8> := [0x61, 0x64, 0x64]        // "add"

  predicate Terminated(msg: seq<uint8>)
  {
    |msg| >= 3 && msg[|msg| - 3..] == TERMINATOR
  }

  /** The command text in front of the terminator. */
  function Body(msg: seq<uint8>): seq<uint8>
    requires Terminated(msg)
  {
    msg[..|msg| - 3]
  }

  /** `writeNum(comp, val)`: `comp=val` with `val` in decimal. */
  function WriteNum(comp: seq<uint8>, val: uint32): (r: seq<uint8>)
    ensures Terminated(r) && Body(r) == comp + [EQUALS] + Digits(val)
  {
    comp + [EQUALS] + Digits(val) + TERMINATOR
  }

  /** `writeStr(comp, txt)`: `comp="txt"`, the text inserted as it is, quotes included. */
  function WriteStr(comp: seq<uint8>, txt: seq<uint8>): (r: seq<uint8>)
    ensures Terminated(r) && Body(r) == comp + [EQUALS, QUOTE] + txt + [QUOTE]
  {
    comp + [EQUALS, QUOTE] + txt + [QUOTE] + TERMINATOR
  }

  /** The request `get comp` that `readStr` and `readNum` send. */
  function GetRequest(comp: seq<uint8>): (r: seq<uint8>)
    ensures Terminated(r) && Body(r) == GET + comp
  {
    GET + comp + TERMINATOR
  }

  /** `sendCmd(cmd)` with the arguments taken from the FIFO: `cmd a1,a2,...`. */
  function Command(cmd: seq<uint8>, args: seq<uint32>): (r: seq<uint8>)
    ensures Terminated(r)
    ensures |args| == 0 ==> Body(r) == cmd
    ensures |args| > 0 ==> Body(r) == cmd + [SPACE] + Join(args)
  {
    cmd + (if |args| == 0 then [] else [SPACE] + Join(args)) + TERMINATOR
  }

  /** `addWave(id, channel, val)`: `add id,channel,val`. */
  function AddWave(id: uint8, channel: uint8, val: uint8): (r: seq<uint8>)
    ensures Terminated(r)
  {
    ADD + [SPACE] + Digits(id) + [COMMA] + Digits(channel) + [COMMA] + Digits(val) + TERMINATOR
  }

  // ---------------------------------------------------------------------------
  // Decoders

  function DecodeWriteNum(msg: seq<uint8>): Option<(seq<uint8>, nat)>
  {
    if !Terminated(msg) then None
    else
      var body := Body(msg);
      match LastIndexOf(body, EQUALS)
      case None => None
      case Some(i) =>
        var digits := body[i + 1..];
        if 1 <= |digits| && AllDigits(digits) then Some((body[..i], ParseDigits(digits))) else None
  }

  function DecodeWriteStr(msg: seq<uint8>): Option<(seq<uint8>, seq<uint8>)>
  {
    if !Terminated(msg) then None
    else
      var body := Body(msg);
      match FirstIndexOf(body, EQUALS)
      case None => None
      case Some(i) =>
        if i + 3 <= |body| && body[i + 1] == QUOTE && body[|body| - 1] == QUOTE
        then Some((body[..i], body[i + 2..|body| - 1]))
        else None
  }

  function DecodeGetRequest(msg: seq<uint8>): Option<seq<uint8>>
  {
    if Terminated(msg) && |Body(msg)| >= |GET| && Body(msg)[..|GET|] == GET
    then Some(Body(msg)[|GET|..])
    else None
  }

  function DecodeCommand(msg: seq<uint8>): Option<(seq<uint8>, seq<nat>)>
  {
    if !Terminated(msg) then None
    else
      var body := Body(msg);
      match FirstIndexOf(body, SPACE)
      case None => Some((body, []))
      case Some(i) =>
        match ParseList(body[i + 1..])
        case None => None
        case Some(args) => Some((body[..i], args))
  }

  // ---------------------------------------------------------------------------
  // Round trips

  /** Any component name and any value come back from a `writeNum` message. */
  lemma WriteNumRoundTrip(comp: seq<uint8>, val: uint32)
    ensures DecodeWriteNum(WriteNum(comp, val)) == Some((comp, val))
  {
    var body := Body(WriteNum(comp, val));
    DigitsAvoid(Digits(val), EQUALS);
    LastIndexBeforeSuffix(comp, EQUALS, Digits(val));
    assert body[..|comp|] == comp;
    assert body[|comp| + 1..] == Digits(val);
    ParseDigitsOfDigits(val);
  }

  /**
    The text of a `writeStr` message comes back unchanged, even when it holds
    quote characters: nothing is escaped.
   */
  lemma WriteStrRoundTrip(comp: seq<uint8>, txt: seq<uint8>)
    requires EQUALS !in comp
    ensures DecodeWriteStr(WriteStr(comp, txt)) == Some((comp, txt))
  {
    var body := Body(WriteStr(comp, txt));
    assert body == comp + [EQUALS] + ([QUOTE] + txt + [QUOTE]);
    FirstIndexAfterPrefix(comp, EQUALS, [QUOTE] + txt + [QUOTE]);
    assert body[..|comp|] == comp;
    assert body[|comp| + 2..|body| - 1] == txt;
  }

  lemma GetRequestRoundTrip(comp: seq<uint8>)
    ensures DecodeGetRequest(GetRequest(comp)) == Some(comp)
  {
    var body := Body(GetRequest(comp));
    assert body[..|GET|] == GET;
    assert body[|GET|..] == comp;
  }

  /** A command line gives back its name and every argument, in order. */
  lemma CommandRoundTrip(cmd: seq<uint8>, args: seq<uint32>)
    requires SPACE !in cmd
    ensures DecodeCommand(Command(cmd, args)) == Some((cmd, args))
  {
    var body := Body(Command(cmd, args));
    if |args| > 0 {
      var list := Join(args);
      assert body == cmd + [SPACE] + list;
      FirstIndexAfterPrefix(cmd, SPACE, list);
      assert body[..|cmd|] == cmd;
      assert body[|cmd| + 1..] == list;
      ParseListOfJoin(args);
    }
  }

  /** `addWave` sends the command `add` with its three arguments. */
  lemma AddWaveIsCommand(id: uint8, channel: uint8, val: uint8)
    ensures AddWave(id, channel, val) == Command(ADD, [id, channel, val])
    ensures DecodeCommand(AddWave(id, channel, val)) == Some((ADD, [id, channel, val]))
  {
    var args: seq<uint32> := [id, channel, val];
    JoinThree(id, channel, val);
    var list := Digits(id) + [COMMA] + Digits(channel) + [COMMA] + Digits(val);
    assert AddWave(id, channel, val) == ADD + ([SPACE] + list) + TERMINATOR;
    CommandRoundTrip(ADD, args);
  }

  /** The first usage example of the header: `n0.val=765`. */
  lemma WriteNumExample()
    ensures WriteNum([0x6E, 0x30, 0x2E, 0x76, 0x61, 0x6C], 765)
         == [0x6E, 0x30, 0x2E, 0x76, 0x61, 0x6C, 0x3D, 0x37, 0x36, 0x35, 0xFF, 0xFF, 0xFF]
  {
    assert Digits(765) == Digits(76) + [0x35];
    assert Digits(76) == Digits(7) + [0x36];
  }

  /** The second usage example of the header: `t0.txt="Hello World"`. */
  lemma WriteStrExample()
    ensures WriteStr([0x74, 0x30, 0x2E, 0x74, 0x78, 0x74],
                     [0x48, 0x65, 0x6C, 0x6C, 0x6F, 0x20, 0x57, 0x6F, 0x72, 0x6C, 0x64])
         == [0x74, 0x30, 0x2E, 0x74, 0x78, 0x74, 0x3D, 0x22,
             0x48, 0x65, 0x6C, 0x6C, 0x6F, 0x20, 0x57, 0x6F, 0x72, 0x6C, 0x64,
             0x22, 0xFF, 0xFF, 0xFF]
  {
  }
}
