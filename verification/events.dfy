/**
  The inbound event dispatcher of nextion_ez: `listen()` with `readCommand()`,
  the pending-command accessors, the page-id getters and setters, and `readByte()`.

  Timing is abstracted: the input is the finite sequence of bytes that arrive
  before the relevant deadline, so "wait until n bytes are available" becomes a
  length test and the timeout branch is taken when the buffer is shorter.
 */
module Events {
  import opened Bytes

  const HASH: uint8 := 0x23        // '#', start of an event frame
  const GROUP_PAGE: uint8 := 0x50  // 'P'
  const GROUP_TRIGGER: uint8 := 0x54  // 'T'

  /**
    The fields of the driver object that outlive one call. `subCmd` is used by the
    source without being declared in its header; it holds what `read()` returned.
   */
  datatype State = State(
    currentPage: int,
    lastPage: int,
    cmdAvail: bool,
    cmdGroup: uint8,
    cmdLength: uint8,
    subCmd: int)

  /** The command group byte, decoded once. */
  datatype Group = Page | Trigger | Custom(tag: uint8)

  function DecodeGroup(g: uint8): (r: Group)
    ensures r == Page <==> g == GROUP_PAGE
    ensures r == Trigger <==> g == GROUP_TRIGGER
    ensures r.Custom? ==> r.tag == g
  {
    if g == GROUP_PAGE then Page
    else if g == GROUP_TRIGGER then Trigger
    else Custom(g)
  }

  /**
    `begin()` as far as events are concerned: the pending flag is cleared and
    whatever is buffered is read and thrown away. The page ids, the group, the
    length and the trigger id keep their values.
   */
  function Begin(st: State, buf: seq<uint8>): (r: (State, seq<uint8>))
    ensures !r.0.cmdAvail && !CmdAvail(r.0).0
    ensures r.0.(cmdAvail := st.cmdAvail) == st
    ensures r.1 == []
  {
    (st.(cmdAvail := false), [])
  }

  /**
    The only ways one `listen()` call may change the state: not at all, a page
    change (the old current page becomes the last page), a trigger (pending flag,
    group 'T' and trigger id), or a custom command (pending flag, its group and
    its declared length).
   */
  predicate OneEvent(st: State, st': State)
  {
    || st' == st
    || st' == st.(lastPage := st.currentPage, currentPage := st'.currentPage)
    || st' == st.(cmdAvail := true, cmdGroup := GROUP_TRIGGER, subCmd := st'.subCmd)
    || (st' == st.(cmdAvail := true, cmdGroup := st'.cmdGroup, cmdLength := st'.cmdLength)
        && st'.cmdGroup != GROUP_PAGE && st'.cmdGroup != GROUP_TRIGGER)
  }

  /** `readCommand()`: act on the group byte with the bytes left after it. */
  function ReadCommand(st: State, group: uint8, len: uint8, buf: seq<uint8>): (r: (State, seq<uint8>))
    ensures OneEvent(st, r.0)
    ensures IsSuffix(r.1, buf)
    ensures r.0.cmdLength != st.cmdLength ==> DecodeGroup(group).Custom? && r.0.cmdLength == len
    ensures r.0.cmdGroup != st.cmdGroup ==> !DecodeGroup(group).Page? && r.0.cmdGroup == group
  {
    match DecodeGroup(group)
    case Page =>
      var (id, rest) := Read(buf);
      (st.(lastPage := st.currentPage, currentPage := id), rest)
    case Trigger =>
      var (id, rest) := Read(buf);
      (st.(cmdAvail := true, cmdGroup := group, subCmd := id), rest)
    case Custom(tag) =>
      (st.(cmdAvail := true, cmdGroup := tag, cmdLength := len), buf)
  }

  /**
    `listen()`: with at least three bytes buffered, search for '#', read the
    declared length, wait for that many bytes, read the group byte and dispatch.
    Returns the new state and the bytes left in the stream.
   */
  function Listen(st: State, buf: seq<uint8>): (r: (State, seq<uint8>))
    ensures |buf| <= 2 ==> r == (st, buf)
    ensures |buf| > 2 ==> |r.1| < |buf|
    ensures IsSuffix(r.1, buf)
    ensures |buf| > 2 && HASH !in buf ==> r == (st, [])
    ensures OneEvent(st, r.0)
  {
    if |buf| <= 2 then (st, buf)
    else
      match FirstIndexOf(buf, HASH)
      case None => (st, [])
      case Some(i) =>
        var (lenByte, afterLen) := Read(buf[i + 1..]);
        var len := ToUint8(lenByte);
        if |afterLen| < len then (st, afterLen)
        else
          var (group, afterGroup) := Read(afterLen);
          assert IsSuffix(afterGroup, buf) by {
            assert buf[i + 1..][|buf[i + 1..]| - |afterGroup|..] == afterGroup;
          }
          ReadCommand(st, ToUint8(group), len, afterGroup)
  }

  /** `cmdAvail()`: report the pending flag and clear it. */
  function CmdAvail(st: State): (r: (bool, State))
    ensures r.0 == st.cmdAvail
    ensures !r.1.cmdAvail
    ensures r.1.(cmdAvail := st.cmdAvail) == st
  {
    (st.cmdAvail, st.(cmdAvail := false))
  }

  /** `getCmd()`: the group byte of the most recent trigger or custom command. */
  function GetCmd(st: State): int
  {
    st.cmdGroup
  }

  /** `getSubCmd()`: the id byte of the most recent trigger. */
  function GetSubCmd(st: State): int
  {
    st.subCmd
  }

  /** `getCmdLen()`: the declared length of the most recent custom command. */
  function GetCmdLen(st: State): int
  {
    st.cmdLength
  }

  function GetCurrentPage(st: State): int
  {
    st.currentPage
  }

  function GetLastPage(st: State): int
  {
    st.lastPage
  }

  function SetCurrentPage(st: State, page: int): State
  {
    st.(currentPage := page)
  }

  function SetLastPage(st: State, page: int): State
  {
    st.(lastPage := page)
  }

  /** Each page-id setter changes its own field only, and each getter reads back what was set. */
  lemma PageAccessors(st: State, page: int)
    ensures GetCurrentPage(SetCurrentPage(st, page)) == page
    ensures SetCurrentPage(st, page).(currentPage := st.currentPage) == st
    ensures GetLastPage(SetLastPage(st, page)) == page
    ensures SetLastPage(st, page).(lastPage := st.lastPage) == st
    ensures SetCurrentPage(st, GetCurrentPage(st)) == st && SetLastPage(st, GetLastPage(st)) == st
  {
  }

  /** `readByte()`: hand the caller the next raw byte, or -1 on an empty stream. */
  function ReadByte(buf: seq<uint8>): (r: (int, seq<uint8>))
    ensures |buf| > 0 ==> r.0 == buf[0] && r.1 == buf[1..]
    ensures |buf| == 0 ==> r.0 == -1 && r.1 == []
  {
    Read(buf)
  }

  /**
    Repeated `listen()` until the stream is empty, as the read operations do
    before sending their request. `listen()` makes no progress on one or two
    bytes, so those are left behind and the drain ends by its timeout.
   */
  datatype Drained = Drained(state: State, rest: seq<uint8>, timedOut: bool)

  function Drain(st: State, buf: seq<uint8>): (r: Drained)
    ensures |r.rest| <= 2
    ensures r.timedOut <==> r.rest != []
    ensures IsSuffix(r.rest, buf)
    ensures |buf| <= 2 ==> r == Drained(st, buf, buf != [])
    decreases |buf|
  {
    if |buf| == 0 then Drained(st, [], false)
    else if |buf| <= 2 then Drained(st, buf, true)
    else
      var (st', rest) := Listen(st, buf);
      var r := Drain(st', rest);
      assert IsSuffix(r.rest, buf) by {
        assert buf[|buf| - |rest|..][|rest| - |r.rest|..] == buf[|buf| - |r.rest|..];
      }
      r
  }

  // ---------------------------------------------------------------------------
  // Properties of single frames

  /** `23 len 50 xx`: the old current page becomes the last page, xx the current one. */
  lemma ListenPageFrame(st: State, junk: seq<uint8>, len: uint8, id: uint8, tail: seq<uint8>)
    requires HASH !in junk
    requires len <= 2 + |tail|
    ensures Listen(st, junk + [HASH, len, GROUP_PAGE, id] + tail)
         == (st.(lastPage := st.currentPage, currentPage := id), tail)
  {
    var buf := junk + [HASH, len, GROUP_PAGE, id] + tail;
    assert buf == junk + [HASH] + ([len, GROUP_PAGE, id] + tail);
    FirstIndexAfterPrefix(junk, HASH, [len, GROUP_PAGE, id] + tail);
    assert buf[|junk| + 1..] == [len, GROUP_PAGE, id] + tail;
  }

  /** `23 len 54 xx`: a pending trigger with group 'T' and sub-command xx. */
  lemma ListenTriggerFrame(st: State, junk: seq<uint8>, len: uint8, id: uint8, tail: seq<uint8>)
    requires HASH !in junk
    requires len <= 2 + |tail|
    ensures Listen(st, junk + [HASH, len, GROUP_TRIGGER, id] + tail)
         == (st.(cmdAvail := true, cmdGroup := GROUP_TRIGGER, subCmd := id), tail)
  {
    var buf := junk + [HASH, len, GROUP_TRIGGER, id] + tail;
    assert buf == junk + [HASH] + ([len, GROUP_TRIGGER, id] + tail);
    FirstIndexAfterPrefix(junk, HASH, [len, GROUP_TRIGGER, id] + tail);
    assert buf[|junk| + 1..] == [len, GROUP_TRIGGER, id] + tail;
  }

  /**
    `23 len g ...` with any other group g: a pending custom command with group g
    and length len; only marker, length and group are consumed.
   */
  lemma ListenCustomFrame(st: State, junk: seq<uint8>, len: uint8, g: uint8, payload: seq<uint8>)
    requires HASH !in junk
    requires g != GROUP_PAGE && g != GROUP_TRIGGER
    requires len <= 1 + |payload|
    ensures Listen(st, junk + [HASH, len, g] + payload)
         == (st.(cmdAvail := true, cmdGroup := g, cmdLength := len), payload)
  {
    var buf := junk + [HASH, len, g] + payload;
    assert buf == junk + [HASH] + ([len, g] + payload);
    FirstIndexAfterPrefix(junk, HASH, [len, g] + payload);
    assert buf[|junk| + 1..] == [len, g] + payload;
  }

  /**
    The documented custom command `23 03 4C 01 01`: group 0x4C, length 3, and
    the two id bytes are left for `readByte`.
   */
  lemma CustomFrameExample(st: State)
    ensures var (st', rest) := Listen(st, [HASH, 3, 0x4C, 1, 1]);
            && st' == st.(cmdAvail := true, cmdGroup := 0x4C, cmdLength := 3)
            && rest == [1, 1]
            && ReadByte(rest) == (1, [1])
            && ReadByte(ReadByte(rest).1) == (1, [])
  {
    assert [HASH, 3, 0x4C, 1, 1] == [] + [HASH, 3, 0x4C] + [1, 1];
    ListenCustomFrame(st, [], 3, 0x4C, [1, 1]);
  }

  /**
    A frame whose declared length is not yet buffered produces no event; the
    marker and the length byte are lost.
   */
  lemma ListenIncompleteFrame(st: State, junk: seq<uint8>, len: uint8, after: seq<uint8>)
    requires HASH !in junk
    requires |after| < len
    requires |junk| + |after| >= 1
    ensures Listen(st, junk + [HASH, len] + after) == (st, after)
  {
    var buf := junk + [HASH, len] + after;
    assert buf == junk + [HASH] + ([len] + after);
    FirstIndexAfterPrefix(junk, HASH, [len] + after);
    assert buf[|junk| + 1..] == [len] + after;
  }

  /**
    A frame declaring length 0 skips the wait but still reads a group byte; on an
    empty stream that read gives -1, stored as the custom group 0xFF.
   */
  lemma ListenZeroLengthAtEnd(st: State, junk: seq<uint8>)
    requires HASH !in junk
    requires |junk| >= 1
    ensures Listen(st, junk + [HASH, 0]) == (st.(cmdAvail := true, cmdGroup := 0xFF, cmdLength := 0), [])
  {
    FirstIndexAfterPrefix(junk, HASH, [0]);
    assert (junk + [HASH, 0])[|junk| + 1..] == [0];
  }

  /** The frame `23 02 54 id` a button sends for trigger `id`. */
  function TriggerFrame(id: uint8): seq<uint8>
  {
    [HASH, 2, GROUP_TRIGGER, id]
  }

  lemma ListenTrigger(st: State, id: uint8, tail: seq<uint8>)
    ensures Listen(st, TriggerFrame(id) + tail)
         == (st.(cmdAvail := true, cmdGroup := GROUP_TRIGGER, subCmd := id), tail)
  {
    assert TriggerFrame(id) + tail == [] + [HASH, 2, GROUP_TRIGGER, id] + tail;
    ListenTriggerFrame(st, [], 2, id, tail);
  }

  /**
    The pending command is a single slot: of two triggers drained before a poll
    only the second is seen, and the poll then clears the flag.
   */
  lemma TwoTriggersBeforePoll(st: State, id1: uint8, id2: uint8)
    ensures var d := Drain(st, TriggerFrame(id1) + TriggerFrame(id2));
            && d == Drained(st.(cmdAvail := true, cmdGroup := GROUP_TRIGGER, subCmd := id2), [], false)
            && CmdAvail(d.state).0
            && GetSubCmd(CmdAvail(d.state).1) == id2
            && !CmdAvail(CmdAvail(d.state).1).0
  {
    var st1 := st.(cmdAvail := true, cmdGroup := GROUP_TRIGGER, subCmd := id1);
    ListenTrigger(st, id1, TriggerFrame(id2));
    DrainStep(st, TriggerFrame(id1) + TriggerFrame(id2));
    ListenTrigger(st1, id2, []);
    assert TriggerFrame(id2) + [] == TriggerFrame(id2);
    DrainStep(st1, TriggerFrame(id2));
  }

  // ---------------------------------------------------------------------------
  // Sequences of page frames

  /** The frames `23 02 50 id` the display sends for each page id, in order. */
  function PageFrames(ids: seq<uint8>): (r: seq<uint8>)
    ensures |r| == 4 * |ids|
  {
    if |ids| == 0 then [] else [HASH, 2, GROUP_PAGE, ids[0]] + PageFrames(ids[1..])
  }

  /**
    Draining any sequence of page frames consumes it entirely, leaves the last id
    current and the one before it as last page: the page pair is kept up to date
    by the page frame alone.
   */
  lemma DrainStep(st: State, buf: seq<uint8>)
    requires |buf| > 2
    ensures Drain(st, buf) == Drain(Listen(st, buf).0, Listen(st, buf).1)
  {
  }

  lemma {:induction false} DrainPageFrames(st: State, ids: seq<uint8>)
    requires |ids| >= 1
    ensures var r := Drain(st, PageFrames(ids));
            && r.rest == [] && !r.timedOut
            && r.state.currentPage == ids[|ids| - 1]
            && r.state.lastPage == (if |ids| == 1 then st.currentPage else ids[|ids| - 2])
            && r.state.(currentPage := st.currentPage, lastPage := st.lastPage) == st
    decreases |ids|
  {
    var st1 := st.(lastPage := st.currentPage, currentPage := ids[0]);
    var rest := PageFrames(ids[1..]);
    assert PageFrames(ids) == [] + [HASH, 2, GROUP_PAGE, ids[0]] + rest;
    ListenPageFrame(st, [], 2, ids[0], rest);
    DrainStep(st, PageFrames(ids));
    if |ids| > 1 {
      DrainPageFrames(st1, ids[1..]);
      assert ids[1..][|ids[1..]| - 1] == ids[|ids| - 1];
      if |ids| > 2 {
        assert ids[1..][|ids[1..]| - 2] == ids[|ids| - 2];
      }
    } else {
      assert rest == [];
    }
  }
}
