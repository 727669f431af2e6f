/**
  The argument FIFO of nextion_ez: `pushCmdArg` stores a 32-bit argument in
  `_cmdFifo[16]` and `sendCmd` prints the command followed by every pending
  argument. The cursors are `uint8_t`.

  As written, the wrap test `if (c++ > 15) c = 0` compares the old value, so a
  cursor steps 0, 1, ..., 15, 16, 0: index 16 is outside the array. The
  `...AsWritten` members model that code, with None standing for an access to
  `_cmdFifo[16]`. `Push` and `SendCommand` use the evidently intended
  `if (++c > 15) c = 0`, a ring of 16 slots.
 */
module ArgFifo {
  import opened Bytes
  import opened Decimal
  import opened Encoders

  const SLOTS: nat := 16

  datatype Fifo = Fifo(slots: seq<uint32>, head: uint8, tail: uint8)

  predicate Wf(f: Fifo)
  {
    |f.slots| == SLOTS
  }


  /** The argument count `sendCmd` computes, stored in a `uint8_t`. */
  function Count(f: Fifo): uint8
  {
    if f.head < f.tail then (f.head + 16 - f.tail) % 0x100 else f.head - f.tail
  }

  // ---------------------------------------------------------------------------
  // As written

  /**
    `if (c++ > 15) c = 0`: the test sees the value before the increment, so the
    cursor runs through the seventeen positions 0..16, one more than the array.
   */
  function StepAsWritten(c: uint8): (r: uint8)
    ensures c <= 16 ==> r == (c + 1) % 17
  {
    if c > 15 then 0 else c + 1
  }

  /** `pushCmdArg(a)` as written; None when the write lands outside `_cmdFifo`. */
  function PushAsWritten(f: Fifo, a: uint32): (r: Option<Fifo>)
    requires Wf(f)
    ensures r.None? <==> f.head >= 16
    ensures r.Some? ==> Wf(r.value) && r.value.tail == f.tail
  {
    if f.head >= 16 then None
    else Some(f.(slots := f.slots[f.head := a], head := StepAsWritten(f.head)))
  }

  function PushAllAsWritten(f: Fifo, args: seq<uint32>): (r: Option<Fifo>)
    requires Wf(f)
    ensures r.Some? ==> Wf(r.value)
    decreases |args|
  {
    if |args| == 0 then Some(f)
    else
      match PushAsWritten(f, args[0])
      case None => None
      case Some(g) => PushAllAsWritten(g, args[1..])
  }

  /** The loop of `sendCmd` as written: `n` reads from cursor `t`; None on `_cmdFifo[16]`. */
  function CollectAsWritten(slots: seq<uint32>, t: uint8, n: nat): Option<(seq<uint32>, uint8)>
    requires |slots| == SLOTS
    decreases n
  {
    if n == 0 then Some(([], t))
    else if t >= 16 then None
    else
      match CollectAsWritten(slots, StepAsWritten(t), n - 1)
      case None => None
      case Some((args, t')) => Some(([slots[t]] + args, t'))
  }

  /** `sendCmd(cmd)` as written: the message and the FIFO with its new tail. */
  function SendAsWritten(f: Fifo, cmd: seq<uint8>): Option<(seq<uint8>, Fifo)>
    requires Wf(f)
  {
    match CollectAsWritten(f.slots, f.tail, Count(f))
    case None => None
    case Some((args, t)) => Some((Command(cmd, args), f.(tail := t)))
  }

  lemma {:induction false} CollectInRange(slots: seq<uint32>, t: uint8, n: nat)
    requires |slots| == SLOTS
    requires t + n <= 16
    ensures CollectAsWritten(slots, t, n) == Some((slots[t..t + n], t + n))
    decreases n
  {
    if n > 0 {
      assert StepAsWritten(t) == t + 1;
      CollectInRange(slots, t + 1, n - 1);
      assert CollectAsWritten(slots, t + 1, n - 1) == Some((slots[t + 1..t + n], t + n));
      assert slots[t..t + n] == [slots[t]] + slots[t + 1..t + n];
      assert CollectAsWritten(slots, t, n) == Some(([slots[t]] + slots[t + 1..t + n], t + n));
    } else {
      assert slots[t..t] == [];
    }
  }

  lemma {:induction false} CollectPastSlots(slots: seq<uint32>, t: uint8, n: nat)
    requires |slots| == SLOTS
    requires t <= 16 && n > 16 - t
    ensures CollectAsWritten(slots, t, n).None?
    decreases n
  {
    if t < 16 {
      CollectPastSlots(slots, t + 1, n - 1);
    }
  }

  /**
    With head >= tail, `sendCmd` prints the arguments in push order and leaves
    tail == head.
   */
  lemma SendAsWrittenInOrder(f: Fifo, cmd: seq<uint8>)
    requires Wf(f)
    requires f.tail <= f.head <= 16
    ensures SendAsWritten(f, cmd) == Some((Command(cmd, f.slots[f.tail..f.head]), f.(tail := f.head)))
  {
    CollectInRange(f.slots, f.tail, f.head - f.tail);
  }

  /**
    With head < tail the count head + 16 - tail is one short of the 17-step
    cursor cycle: the loop either reads `_cmdFifo[16]` (head > 0) or stops with
    tail at 16, one argument short of head (head == 0).
   */
  lemma SendAsWrittenWrapped(f: Fifo, cmd: seq<uint8>)
    requires Wf(f)
    requires f.head < f.tail <= 16
    ensures SendAsWritten(f, cmd).None? <==> f.head > 0
    ensures f.head == 0 ==> SendAsWritten(f, cmd) == Some((Command(cmd, f.slots[f.tail..]), f.(tail := 16)))
  {
    if f.head > 0 {
      CollectPastSlots(f.slots, f.tail, Count(f));
    } else {
      assert Count(f) == 16 - f.tail;
      CollectInRange(f.slots, f.tail, 16 - f.tail);
      assert f.slots[f.tail..16] == f.slots[f.tail..];
    }
  }

  lemma {:induction false} PushAllAsWrittenFills(f: Fifo, args: seq<uint32>)
    requires Wf(f)
    requires f.head + |args| <= 16
    ensures PushAllAsWritten(f, args).Some?
    ensures var g := PushAllAsWritten(f, args).value;
            && g.head == f.head + |args| && g.tail == f.tail
            && g.slots[f.head..g.head] == args
            && g.slots[..f.head] == f.slots[..f.head]
    decreases |args|
  {
    if |args| > 0 {
      var g := f.(slots := f.slots[f.head := args[0]], head := f.head + 1);
      assert PushAsWritten(f, args[0]) == Some(g);
      assert PushAllAsWritten(f, args) == PushAllAsWritten(g, args[1..]);
      PushAllAsWrittenFills(g, args[1..]);
      var h := PushAllAsWritten(g, args[1..]).value;
      assert h.slots[..g.head][f.head] == g.slots[..g.head][f.head];
      assert h.slots[f.head..h.head] == [h.slots[f.head]] + h.slots[g.head..h.head];
      assert h.slots[..f.head] == h.slots[..g.head][..f.head];
      assert g.slots[..f.head] == f.slots[..f.head];
      assert args == [args[0]] + args[1..];
    }
  }

  /**
    Sixteen pushes from an empty FIFO leave the head cursor at 16; the next push
    writes `_cmdFifo[16]`, whether or not a `sendCmd` came in between.
   */
  lemma SeventeenthPushOutOfRange(f: Fifo, args: seq<uint32>, a: uint32, cmd: seq<uint8>)
    requires Wf(f) && f.head == 0 && f.tail == 0
    requires |args| == 16
    ensures PushAllAsWritten(f, args).Some?
    ensures var g := PushAllAsWritten(f, args).value;
            && g.head == 16
            && PushAsWritten(g, a).None?
            && SendAsWritten(g, cmd) == Some((Command(cmd, args), g.(tail := 16)))
            && PushAsWritten(g.(tail := 16), a).None?
  {
    PushAllAsWrittenFills(f, args);
    var g := PushAllAsWritten(f, args).value;
    SendAsWrittenInOrder(g, cmd);
    assert g.slots[0..16] == args;
  }

  // ---------------------------------------------------------------------------
  // Corrected: a ring of sixteen slots

  predicate Valid(f: Fifo)
  {
    Wf(f) && f.head < 16 && f.tail < 16
  }

  /** `if (++c > 15) c = 0`. */
  function Step(c: uint8): (r: uint8)
    ensures c < 16 ==> r == (c + 1) % 16
  {
    if c + 1 > 15 then 0 else c + 1
  }

  function Push(f: Fifo, a: uint32): (r: Fifo)
    requires Valid(f)
    ensures Valid(r)
  {
    f.(slots := f.slots[f.head := a], head := Step(f.head))
  }

  function PushAll(f: Fifo, args: seq<uint32>): (r: Fifo)
    requires Valid(f)
    ensures Valid(r)
    decreases |args|
  {
    if |args| == 0 then f else PushAll(Push(f, args[0]), args[1..])
  }

  /** The arguments waiting to be sent, oldest first. */
  function Pending(f: Fifo): (r: seq<uint32>)
    requires Valid(f)
    ensures |r| == Count(f) < 16
  {
    if f.head >= f.tail then f.slots[f.tail..f.head] else f.slots[f.tail..] + f.slots[..f.head]
  }

  /** `begin()` resets both cursors: nothing is pending, whatever the slots still hold. */
  function Begin(f: Fifo): (r: Fifo)
    requires Wf(f)
    ensures Valid(r) && Pending(r) == [] && r.slots == f.slots
  {
    f.(head := 0, tail := 0)
  }

  lemma PendingAt(f: Fifo, x: nat)
    requires Valid(f)
    requires x < |Pending(f)|
    ensures Pending(f)[x] == f.slots[(f.tail + x) % 16]
  {
  }

  /** Below capacity, a push appends its argument to the pending ones. */
  lemma PushAppends(f: Fifo, a: uint32)
    requires Valid(f)
    requires |Pending(f)| < 15
    ensures Pending(Push(f, a)) == Pending(f) + [a]
  {
    var g := Push(f, a);
    if f.head >= f.tail {
      if f.head < 15 {
        assert g.slots[f.tail..f.head + 1] == f.slots[f.tail..f.head] + [a];
      } else {
        assert g.slots[f.tail..] == f.slots[f.tail..f.head] + [a];
        assert g.slots[..0] == [];
      }
    } else {
      assert g.slots[f.tail..] == f.slots[f.tail..];
      assert g.slots[..f.head + 1] == f.slots[..f.head] + [a];
    }
  }

  /** A sixteenth pending argument makes head meet tail: every pending argument is lost. */
  lemma PushWhenFullLosesAll(f: Fifo, a: uint32)
    requires Valid(f)
    requires |Pending(f)| == 15
    ensures Pending(Push(f, a)) == []
  {
  }

  lemma {:induction false} PushAllAppends(f: Fifo, args: seq<uint32>)
    requires Valid(f)
    requires |Pending(f)| + |args| <= 15
    ensures Pending(PushAll(f, args)) == Pending(f) + args
    decreases |args|
  {
    if |args| > 0 {
      PushAppends(f, args[0]);
      PushAllAppends(Push(f, args[0]), args[1..]);
      assert Pending(f) + [args[0]] + args[1..] == Pending(f) + args;
    }
  }

  /**
    The ring of sixteen slots holds at most fifteen arguments: sixteen pushes
    from an empty FIFO leave nothing pending, where the code as written sends
    all sixteen (see `SeventeenthPushOutOfRange`).
   */
  lemma SixteenPushesLeaveNothing(f: Fifo, args: seq<uint32>)
    requires Valid(f) && f.head == f.tail
    requires |args| == 16
    ensures Pending(PushAll(f, args)) == []
  {
    var front := args[..15];
    assert Pending(f) == [];
    PushAllAppends(f, front);
    PushAllSplit(f, front, args[15]);
    assert front + [args[15]] == args;
    PushWhenFullLosesAll(PushAll(f, front), args[15]);
  }

  lemma {:induction false} PushAllSplit(f: Fifo, front: seq<uint32>, a: uint32)
    requires Valid(f)
    ensures PushAll(f, front + [a]) == Push(PushAll(f, front), a)
    decreases |front|
  {
    if |front| == 0 {
      assert [] + [a] == [a];
      assert [a][1..] == [];
    } else {
      assert (front + [a])[1..] == front[1..] + [a];
      PushAllSplit(Push(f, front[0]), front[1..], a);
    }
  }

  /**
    `sendCmd(cmd)` with the ring cursor: print the command, then a space and the
    pending arguments separated by commas, then the terminator; the FIFO is left
    empty.
   */
  method SendCommand(f: Fifo, cmd: seq<uint8>) returns (msg: seq<uint8>, f': Fifo)
    requires Valid(f)
    ensures msg == Command(cmd, Pending(f))
    ensures Valid(f') && f' == f.(tail := f.head) && Pending(f') == []
  {
    var count := Count(f);
    msg := cmd;
    var t := f.tail;
    if count > 0 {
      var list;
      list, t := PrintArguments(f);
      msg := msg + [SPACE] + list;
    } else {
      CountWraps(f);
    }
    msg := msg + TERMINATOR;
    f' := f.(tail := t);
  }

  /**
    The argument loop of `sendCmd`: a comma before every argument but the first,
    each printed in decimal, the tail cursor stepped past each one.
   */
  method PrintArguments(f: Fifo) returns (list: seq<uint8>, t: uint8)
    requires Valid(f) && Count(f) > 0
    ensures list == Join(Pending(f))
    ensures t == f.head
  {
    var count := Count(f);
    t := f.tail;
    list := [];
    var x: nat := 0;
    while x < count
      invariant x <= count
      invariant t < 16 && t == (f.tail + x) % 16
      invariant list == Join(Pending(f)[..x])
    {
      SendStep(f, x, t);
      if x > 0 {
        list := list + [COMMA] + Digits(f.slots[t]);
      } else {
        list := Digits(f.slots[t]);
      }
      StepMod(f.tail + x);
      t := Step(t);
      x := x + 1;
    }
    assert Pending(f)[..count] == Pending(f);
    CountWraps(f);
  }

  lemma StepMod(a: nat)
    ensures Step(a % 16) == (a + 1) % 16
  {
  }

  /** Stepping the tail `Count` times brings it to the head. */
  lemma CountWraps(f: Fifo)
    requires Valid(f)
    ensures (f.tail + Count(f)) % 16 == f.head
  {
    if f.head < f.tail {
      assert 0 <= f.head + 16 - f.tail < 0x100;
      assert Count(f) == f.head + 16 - f.tail;
      assert f.tail + Count(f) == f.head + 16;
    }
  }

  /** The list printed so far grows by the argument under the tail cursor. */
  lemma SendStep(f: Fifo, x: nat, t: uint8)
    requires Valid(f)
    requires x < |Pending(f)|
    requires t == (f.tail + x) % 16
    ensures x == 0 ==> Join(Pending(f)[..x + 1]) == Digits(f.slots[t])
    ensures x > 0 ==> Join(Pending(f)[..x + 1]) == Join(Pending(f)[..x]) + [COMMA] + Digits(f.slots[t])
  {
    PendingAt(f, x);
    JoinStep(Pending(f), x);
  }

  lemma JoinStep(args: seq<uint32>, x: nat)
    requires x < |args|
    ensures x == 0 ==> Join(args[..x + 1]) == Join(args[..x]) + Digits(args[x])
    ensures x > 0 ==> Join(args[..x + 1]) == Join(args[..x]) + [COMMA] + Digits(args[x])
  {
    assert args[..x + 1] == args[..x] + [args[x]];
    if x > 0 {
      JoinSnoc(args[..x], args[x]);
    } else {
      assert Join(args[..0]) == [];
    }
  }

  /** Arguments pushed onto an empty FIFO are sent in push order by the next command. */
  lemma PushThenSend(f: Fifo, args: seq<uint32>, cmd: seq<uint8>)
    requires Valid(f) && f.head == f.tail
    requires |args| <= 15
    ensures Pending(PushAll(f, args)) == args
    ensures SPACE !in cmd ==> DecodeCommand(Command(cmd, Pending(PushAll(f, args)))) == Some((cmd, args))
  {
    PushAllAppends(f, args);
    assert Pending(f) == [];
    assert [] + args == args;
    if SPACE !in cmd {
      CommandRoundTrip(cmd, args);
    }
  }
}
