# nextion_ez in Dafny

A model of the `nextion_ez` driver class of EasyNextionLibrary. An Arduino sketch
uses it to talk to a Nextion HMI display over a serial link. The model covers:

- the outbound ASCII commands `writeNum`, `writeStr`, `addWave` and `sendCmd`,
  each terminated by `FF FF FF`;
- the argument FIFO that `pushCmdArg` fills and `sendCmd` empties;
- the inbound event protocol `# len group id`, handled by `listen()` and
  `readCommand()`, with the pending-command accessors (`cmdAvail`, `getCmd`,
  `getSubCmd`, `getCmdLen`) and the page-id getters and setters;
- the blocking reads `readStr` and `readNum`. Each drains pending events, sends
  `get comp`, and parses a `70 … FF FF FF` or `71 b0 b1 b2 b3 FF FF FF` reply.
  A reply that is missing or malformed gives the sentinel `"ERROR"` or `777777`.

Modules follow the driver's concerns:

- `Bytes`: byte widths, `read()` returning -1 on an empty stream, searches.
- `Decimal`: `Print::print` of unsigned values, comma lists, and their parsers.
- `Encoders`: the outbound commands, with decoders and round-trip lemmas.
- `Events`: `listen`, `readCommand`, the accessors and the drain loop.
- `Replies`: the `readStr` and `readNum` reply parsers.
- `ArgFifo`: `pushCmdArg` and `sendCmd`.

The serial stream is a finite byte sequence: the bytes that arrive before the
deadline in question. A "wait until n bytes are available or the timer expires"
loop becomes a length test. A `read()` on an empty stream returns -1, and
storing it in a `uint8_t` keeps 255.

## Model

| member | source | states |
|---|---|---|
| Bytes.FirstIndexOf | src/nextion_ez.cpp:228-238 | The marker search stops at the first occurrence of the marker; it finds none exactly when the marker is absent. |
| Events.DecodeGroup | src/nextion_ez.cpp:444-491 | 'P' and 'T' are the only built-in groups; every other byte is a custom group that keeps its own value. |
| Events.Begin | src/nextion_ez.cpp:25-41 | `begin` clears the pending flag, so the next `cmdAvail` reports false. Page ids, group, length and trigger id are unchanged, and buffered input is discarded. |
| Events.ReadCommand | src/nextion_ez.cpp:441-491 | Dispatch produces exactly one of: a page change (old current page becomes last page), a trigger (flag, group 'T', sub-command), or a custom command (flag, its group, its length). Only a custom command changes the length, a page frame never changes the group, and only bytes from the front of the stream are consumed. |
| Events.Listen | src/nextion_ez.cpp:407-439 | With at most two bytes buffered nothing happens. Otherwise at least one byte is consumed, always from the front. Without a '#' every buffered byte is consumed and the state is unchanged. At most one event is recorded. |
| Events.CmdAvail | src/nextion_ez.cpp:59-63 | Returns the pending flag and clears it; nothing else changes. |
| Events.PageAccessors | src/nextion_ez.cpp:43-57 | Each page getter reads back what its setter stored. Each setter changes only its own field, and setting a field to its current value changes nothing. |
| Events.ReadByte | src/nextion_ez.cpp:390-396 | Returns the next raw byte and consumes it, or -1 with nothing consumed when the stream is empty. |
| Events.Drain | src/nextion_ez.cpp:192-201 | The pre-read drain leaves at most two bytes, always a suffix of the input. It ends by its timeout exactly when bytes remain. |
| Events.ListenPageFrame | src/nextion_ez.cpp:453-455 | `23 len 50 id` behind bytes without '#' makes id the current page and the old current page the last page. It consumes exactly through id. |
| Events.ListenTriggerFrame | src/nextion_ez.cpp:481-484 | `23 len 54 id` sets the pending flag, group 'T' and sub-command id, and consumes exactly through id. |
| Events.ListenCustomFrame | src/nextion_ez.cpp:486-491 | Any other group g sets the pending flag, group g and the declared length. The payload stays in the stream for user code. |
| Events.CustomFrameExample | src/nextion_ez.cpp:498-500 | The documented `23 03 4C 01 01` records group 0x4C and length 3, and leaves `01 01` for two `readByte` calls. |
| Events.ListenIncompleteFrame | src/nextion_ez.cpp:425-430 | A frame whose declared length has not arrived records no event, and its '#' and length byte are lost. |
| Events.ListenZeroLengthAtEnd | src/nextion_ez.cpp:420-434 | A frame declaring length 0 at the end of the stream reads a group byte of -1 and records a custom command with group 0xFF. |
| Events.TwoTriggersBeforePoll | src/nextion_ez.cpp:481-484 | The pending command is a single slot. Of two triggers drained before a poll only the second is reported, and the poll clears the flag. |
| Events.DrainPageFrames | src/nextion_ez.cpp:192-201 | Draining any run of page frames consumes all of it. The last id becomes the current page, the one before it (or the old current page) the last page, and nothing else changes. |
| Decimal.Digits | src/nextion_ez.cpp:90 | A printed value is a non-empty run of decimal digits with no leading zero. |
| Decimal.ParseDigitsOfDigits | src/nextion_ez.cpp:90 | Reading the printed digits back gives the value. |
| Decimal.ParseListOfJoin | src/nextion_ez.cpp:139-145 | An argument list printed with commas between neighbours parses back to the same arguments, in order. |
| Encoders.WriteNumRoundTrip | src/nextion_ez.cpp:84-92 | For every component name and every 32-bit value, the message decodes back to both. |
| Encoders.WriteStrRoundTrip | src/nextion_ez.cpp:175-184 | The text comes back unchanged, including any quotes, for every component name without '='. |
| Encoders.GetRequestRoundTrip | src/nextion_ez.cpp:302-304 | The component name is recovered from the request. |
| Encoders.CommandRoundTrip | src/nextion_ez.cpp:136-147 | A command line decodes back to the command name and every argument in order. |
| Encoders.AddWaveIsCommand | src/nextion_ez.cpp:158-166 | `addWave(id, ch, v)` sends exactly the command `add` with arguments id, ch, v, and they decode back. |
| Encoders.WriteNumExample | src/nextion_ez.h:49-50 | `writeNum("n0.val", 765)` sends `n0.val=765` FF FF FF. |
| Encoders.WriteStrExample | src/nextion_ez.h:56-57 | `writeStr("t0.txt", "Hello World")` sends `t0.txt="Hello World"` FF FF FF. |
| Replies.CollectText | src/nextion_ez.cpp:245-264 | The collected text never contains 0xFF. What follows the third 0xFF is a proper suffix of the body. |
| Replies.CollectTextFailsIff | src/nextion_ez.cpp:245-264 | Accumulation fails exactly when fewer than three 0xFF bytes follow the marker. |
| Replies.TextReply | src/nextion_ez.cpp:215-265 | A buffer shorter than 4 bytes gives "ERROR" and nothing is consumed. No 0x70 gives "ERROR" and the stream is emptied. The text never contains 0xFF. |
| Replies.AccumulateText | src/nextion_ez.cpp:240-265 | The byte loop agrees with CollectText: it finds three 0xFF exactly when CollectText succeeds, with the same text and remainder. |
| Replies.ReadStr | src/nextion_ez.cpp:186-269 | `readStr` leaves the state the drain produced and sends `get comp`. It parses the drain's leftover followed by the reply. |
| Replies.TextReplyRoundTrip | src/nextion_ez.cpp:224-265 | `70 s FF FF FF` behind bytes without 0x70 gives back s, for every s without 0xFF, and leaves the rest of the stream. |
| Replies.EmptyTextReply | src/nextion_ez.cpp:216-217 | An empty text box's answer `70 FF FF FF` reads as the empty text. |
| Replies.TextReplySpreadTerminators | src/nextion_ez.cpp:245-256 | The three 0xFF bytes need not be adjacent; the bytes between them join the text. |
| Replies.TextReplyMissingTerminators | src/nextion_ez.cpp:259-263 | Fewer than three 0xFF after the marker give "ERROR" with the stream emptied. |
| Replies.TextReadAfterDrainTimeout | src/nextion_ez.cpp:192-201 | A drain that times out on a stray byte does not abort the read; the reply after it is still parsed. |
| Replies.AssembleIsSum | src/nextion_ez.cpp:369-377 | The shift-and-or assembly equals b0 + 2^8 b1 + 2^16 b2 + 2^24 b3; no bit is lost. |
| Replies.AssembleLittleEndian | src/nextion_ez.cpp:306-308 | Every 32-bit value is rebuilt from its four little-endian bytes. |
| Replies.LittleEndianOfAssemble | src/nextion_ez.cpp:369-377 | Every byte of the numeric buffer can be recovered from the assembled value. |
| Replies.NumBody | src/nextion_ez.cpp:337-365 | With seven bytes after the marker, the value bytes are the first four. Success holds exactly when the next three are FF FF FF, and then the stream continues after them. |
| Replies.NumReplyAsWritten | src/nextion_ez.cpp:310-380 | As written: a buffer shorter than 8 gives 777777 with nothing consumed; no 0x71 gives 777777 with the stream emptied; only bytes from the front are consumed. |
| Replies.NumReply | src/nextion_ez.cpp:310-380 | Corrected parser: any value other than 777777 comes from a complete reply `71 b0..b3 FF FF FF` at the first 0x71. It is the assembled bytes, and the stream continues after that reply. |
| Replies.NumReplyAgrees | src/nextion_ez.cpp:319-365 | The corrected parser differs from the code only when fewer than seven bytes follow the first 0x71; it then answers 777777. |
| Replies.ReadNum | src/nextion_ez.cpp:279-383 | `readNum` leaves the drain's state and sends `get comp`. A value other than 777777 implies a complete reply in what it parsed. |
| Replies.NumReplyRoundTrip | src/nextion_ez.cpp:319-380 | `71` + the four little-endian bytes of v + `FF FF FF`, behind bytes without 0x71, gives v under both parsers and leaves the rest of the stream. |
| Replies.NumReplyBadTerminator | src/nextion_ez.cpp:355-358 | A terminator other than FF FF FF gives 777777, never a partly built value. |
| Replies.ReadNumAfterDrainTimeout | src/nextion_ez.cpp:287-296 | A drain that times out on a stray byte does not abort `readNum`; the value is still returned. |
| Replies.ReadNumRoundTrip | src/nextion_ez.cpp:279-383 | With nothing pending, `readNum` returns exactly the value the display sent. |
| Replies.NumReplyReadsPastEnd | src/nextion_ez.cpp:337-365 | As written, `00 ×7, 71` yields 0xFFFFFFFF from reads past the end; the corrected parser answers 777777. |
| ArgFifo.PushAsWritten | src/nextion_ez.cpp:112-115 | As written, a push writes outside `_cmdFifo[16]` exactly when the head cursor is 16. Otherwise it keeps the tail. |
| ArgFifo.PushAllAsWrittenFills | src/nextion_ez.cpp:112-115 | Pushes that stay within 16 slots store the arguments consecutively from the head, and earlier slots are kept. |
| ArgFifo.SendAsWrittenInOrder | src/nextion_ez.cpp:130-147 | With head ≥ tail, `sendCmd` as written prints the slots tail..head in push order and moves tail to head. |
| ArgFifo.SendAsWrittenWrapped | src/nextion_ez.cpp:130-147 | With head < tail, `sendCmd` as written reads `_cmdFifo[16]` exactly when head > 0. With head = 0 it stops at tail 16, short of the head. |
| ArgFifo.SeventeenthPushOutOfRange | src/nextion_ez.cpp:112-115 | After sixteen pushes from empty, the seventeenth writes `_cmdFifo[16]`, with or without a `sendCmd` in between. |
| ArgFifo.Begin | src/nextion_ez.cpp:30-31 | `begin` resets both cursors: nothing is pending, and the slots are unchanged. |
| ArgFifo.Pending | src/nextion_ez.cpp:130-134 | Corrected ring: the pending arguments number exactly the count `sendCmd` computes, always fewer than 16. |
| ArgFifo.CountWraps | src/nextion_ez.cpp:130-134 | Corrected ring: stepping the tail cursor `count` times around the ring reaches the head. |
| ArgFifo.PushAppends | src/nextion_ez.cpp:112-115 | Corrected ring: a push below capacity appends its argument to the pending ones. |
| ArgFifo.PushWhenFullLosesAll | src/nextion_ez.cpp:112-115 | Corrected ring: a push onto 15 pending arguments makes head meet tail, so every pending argument is lost. |
| ArgFifo.PushAllAppends | src/nextion_ez.cpp:112-115 | Corrected ring: a run of pushes below capacity appends the arguments in order. |
| ArgFifo.PrintArguments | src/nextion_ez.cpp:138-146 | Corrected ring: the argument loop prints exactly the comma-joined pending arguments and leaves the tail at the head. |
| ArgFifo.SendCommand | src/nextion_ez.cpp:124-148 | Corrected ring: `sendCmd` sends the command with every pending argument in push order and leaves the FIFO empty. |
| ArgFifo.SixteenPushesLeaveNothing | src/nextion_ez.cpp:112-115 | Corrected ring: sixteen pushes from an empty FIFO leave nothing pending, so the ring holds at most fifteen arguments where the code as written sends sixteen. |
| ArgFifo.PushThenSend | src/nextion_ez.cpp:112-148 | Corrected ring: arguments pushed onto an empty FIFO are what the next command carries, and its line decodes back to them. |

## Left out

- Serial set-up: the baud rate, `delay(100)` and the 400 ms limit of `begin`'s flush are not modelled. `Events.Begin` empties the whole buffer.
- Timing: every `millis()` deadline is a length test on the bytes that arrived in time. No wait, and no extra byte arriving during a wait, is modelled.
- The drain's 1000 ms limit (src/nextion_ez.cpp:195, 290) is modelled as "stops when `listen` can no longer progress". This is exact: `listen` restarts the shared timer at src/nextion_ez.cpp:410 and 422 whenever it acts on more than two bytes, so the limit can only expire while one or two bytes sit unread.
- The drain timeout: its comment (src/nextion_ez.cpp:195-197, 290-292) says the read returns the sentinel. The code only leaves the loop and overwrites `_readString` or `_numberValue` later, so the read goes on. The model follows the code.
- `writeByte` is a raw `Serial.write` with no logic beyond I/O.
- The constructor only stores the serial port.
- The trigger callbacks and the weak `easyNexReadCustomCommand` hook, described only in comments, are user code outside the class.
- Arduino `String` internals are not modelled; strings are byte sequences. `char` signedness is covered by `Bytes.IsEndChar`, which holds for 0xFF and for -1 either way.
- The scratch registers `_start_char`, `_tmr1`, `_cmdFound`, `_cmd1`, `_len`, `_component`, `_numVal`, `_strVal` and `_comp` are not state. Each call writes them before reading them.
- `_readString`, `_numericBuffer` and `_numberValue` keep their values between calls, but every path of the next read overwrites them before use. So `ReadStr` and `ReadNum` return their result directly.
- `_subCmd` and `getSubCmd` are used in src/nextion_ez.cpp:69-71 and 483 but not declared in src/nextion_ez.h. The model gives the state an `int` field for them.
- The getters `GetCmd`, `GetSubCmd`, `GetCmdLen`, `GetCurrentPage`, `GetLastPage` and the setters have no contract of their own. `Events.PageAccessors`, `Events.CmdAvail` and the frame lemmas state what they return.
- Replies.ReadNum: uses the corrected numeric parser `NumReply`. The code as written is `NumReplyAsWritten`, and `NumReplyAgrees` states where they differ.
- ArgFifo.SendCommand: models the corrected ring cursor. The as-written FIFO is the `...AsWritten` members.
- ArgFifo.Pending: states the corrected ring, where at most fifteen arguments are pending. As written the cursors run through 17 positions, so the count reaches 16 (`ArgFifo.SeventeenthPushOutOfRange`).
- ArgFifo.CountWraps: holds for the corrected 16-position ring, not for the as-written 17-position cursor cycle (`ArgFifo.SendAsWrittenWrapped`).
- ArgFifo.PushAppends: holds for the corrected ring only. As written a push at cursor 16 writes outside the array (`ArgFifo.PushAsWritten`).
- ArgFifo.PushWhenFullLosesAll: is corrected-ring behaviour. As written, a push at head 15 and tail 0 moves head to 16 and keeps all sixteen arguments.
- ArgFifo.PushAllAppends: holds for the corrected ring only. As written, seven pushes onto an empty FIFO whose cursors are at 10 write `_cmdFifo[16]`.
- ArgFifo.PrintArguments: is the corrected argument loop. The as-written loop is `ArgFifo.CollectAsWritten`, covered by `ArgFifo.SendAsWrittenInOrder` and `ArgFifo.SendAsWrittenWrapped`.
- ArgFifo.PushThenSend: holds for the corrected ring only, for the same reason as `ArgFifo.PushAllAppends`.
- ArgFifo.SixteenPushesLeaveNothing: states a cost of the correction. The corrected ring holds fifteen arguments, one fewer than the sixteen the code as written can send from a fresh FIFO.
- Replies.NumReply: is the corrected parser. The code at src/nextion_ez.cpp:310-380 is `Replies.NumReplyAsWritten`, and `Replies.NumReplyAgrees` states the only inputs on which the two differ.
- Encoders.AddWave: its own contract only says the message is terminated. `Encoders.AddWaveIsCommand` states its full content.

## Findings

| source | as written | input that shows it | evidently intended | confidence | as-written member | corrected member |
|---|---|---|---|---|---|---|
| src/nextion_ez.cpp:112-115 | `if (_cmdFifoHead++ > 15)` tests the old value, so the head cursor reaches 16 and the next push writes `_cmdFifo[16]`, one past the array. `sendCmd`'s tail cursor (line 144) does the same. | Sixteen `pushCmdArg` calls from empty, then a seventeenth (with or without a `sendCmd` between). | `if (++c > 15) c = 0`: a ring of 16 slots, where pushes append and `sendCmd` prints every pending argument in order. This correction holds at most fifteen pending arguments, since head meeting tail means empty. Sixteen pushes from a fresh FIFO, which the code as written sends in full, now leave nothing pending (`ArgFifo.SixteenPushesLeaveNothing`). | not executed | ArgFifo.SeventeenthPushOutOfRange | ArgFifo.PushAllAppends |
| src/nextion_ez.cpp:139-147 | With head < tail the count `head + 16 - tail` spans a 16-step ring, but the cursor cycle has 17 steps. The loop reads `_cmdFifo[16]` (head > 0) or leaves tail at 16 (head = 0). | tail = 10, head = 2: the loop's seventh read is `_cmdFifo[16]`. | Print all `count` pending arguments in push order and leave tail = head. | not executed | ArgFifo.SendAsWrittenWrapped | ArgFifo.SendCommand |
| src/nextion_ez.cpp:319-365 | After the 8-byte wait, the 0x71 marker may be found late. The four value reads and three terminator reads are then unguarded: missing bytes read as -1, stored as 0xFF in `_numericBuffer`, and they pass the end test. | Stream `00 00 00 00 00 00 00 71`: `readNum` returns 0xFFFFFFFF instead of 777777. | Answer 777777 unless a complete reply follows the marker. | not executed | Replies.NumReplyReadsPastEnd | Replies.NumReply |
