# EISC-controlled display: receive framer and signal dispatcher

This project models the two pieces of logic in `Controlsystem.cs`, a
Crestron 3-Series control program. The program lets another processor drive
a display over an Ethernet intersystem link (EISC) and an RS-232 COM port.

- **The COM receive worker** (`RxMethod`) is modelled in
  `rx_framer.dfy`, module `ComPortReceive`. It takes text chunks off the
  receive queue and appends each one to a buffer. If the buffer then holds a
  line feed, it moves the prefix up to and including the first line feed out
  of the buffer as one line. A null item ends the worker. The worker is a
  class, `RxWorker`, whose fields are the source's `RxData`, `Pos` and
  `MatchString`. `Receive` is one iteration of the loop. `RxMethod` drives
  it over a finite queue and is proved against the specification function
  `Feed`.
- **The command table** is modelled in `display_commands.dfy`, module
  `DisplayCommands`. It covers the four literal 9-byte commands and the
  helpers `setDisplayPower` and `setDisplayInput`. The helpers are functions
  that return the ordered effects they cause:
  - `Send(bytes)`: bytes written to the COM port;
  - `Sleep(ms)`: the blocking settle pause;
  - `Status(join, text)`: a write to an EISC string join.
- **The EISC signal handler** (`myEISC_SigChange`) is modelled in
  `eisc_signals.dfy`, module `EiscSignals`. It is a function from the
  change event to its effects. It is related to the join map documented at
  the head of the file (join 10 power, 11 HDMI1, 12 HDMI2).

`wrappers.dfy` holds the `Option` type the modules share.

Behaviour of the code that the model keeps as written:

- **One line per chunk.** The framer takes at most one line per dequeued
  chunk, because `Controlsystem.cs:223` is an `if`, not a loop. A line feed
  that arrives after the first one in the same chunk stays buffered until
  the next chunk arrives. A framer that releases every complete line would
  be the usual design. `OneChunkTwoLines`, `TwoChunksTwoLines` and
  `LinesStayBuffered` show where the code differs from that: its output
  depends on where the chunk boundaries fall. Chunks that each carry k
  complete lines leave k-1 of them behind, so the backlog of complete lines
  grows without bound (`BacklogGrows`). `Drain` is the pass that takes every
  line out; it is listed under "## Findings". The worker model itself
  (`RxWorker`, `RxMethod`, `Feed`) stays with the code as written.
- **Value, not edge.** The handler reacts to the value carried by each
  bool change. It does not compare the value with the previous one. A
  change event to true on join 11 always sends the HDMI1 command.
- **Two-second pause.** The comment at `Controlsystem.cs:266` speaks of
  one second, but the code sleeps 2000 ms. The model uses 2000.
- **Parse point.** At the "parse data here" point, `MatchString` holds
  the line. `RxMethod` collects those lines in order. When no line feed was
  found, `MatchString` keeps the whole appended buffer, as in the code.

## Model

| member | source | states |
|---|---|---|
| ComPortReceive.IndexOf | Controlsystem.cs:222 | the result is -1 exactly when the character is absent; otherwise it is the index of its first occurrence |
| ComPortReceive.Extract | Controlsystem.cs:218-228 | the line taken, followed by the new buffer, is the old buffer followed by the chunk; a line is taken exactly when the appended buffer holds a line feed; a line taken ends in a line feed and holds no other |
| ComPortReceive.ExtractTakesFirstLine | Controlsystem.cs:222-227 | the line taken is the only complete line that starts the appended buffer, so it ends at the first line feed |
| ComPortReceive.BufferedLineComesFirst | Controlsystem.cs:218-228 | a line already in the buffer comes out on the next chunk, whatever that chunk holds; the chunk is appended to what remains |
| ComPortReceive.LineHasOneDelimiter | Controlsystem.cs:222-227 | a complete line holds exactly one line feed |
| ComPortReceive.ExtractRemovesOneDelimiter | Controlsystem.cs:223-228 | one pass removes exactly one line feed from the buffer when it takes a line, and none otherwise |
| ComPortReceive.LinesStayBuffered | Controlsystem.cs:218-229 | with two or more line feeds in the appended buffer, one line is taken and another complete line stays buffered |
| ComPortReceive.Feed | Controlsystem.cs:208-231 | the loop over data chunks takes out at most one line per chunk |
| ComPortReceive.FeedYieldsLines | Controlsystem.cs:222-227 | every line the loop takes out ends in a line feed and holds no other |
| ComPortReceive.FeedConserves | Controlsystem.cs:218-228 | the lines taken out, concatenated and followed by the remaining buffer, are the initial buffer followed by every chunk: nothing is lost, duplicated or reordered |
| ComPortReceive.Processed | Controlsystem.cs:213-216 | the worker handles the data items before the first null, in queue order, and stops at that null |
| ComPortReceive.StopsAtNull | Controlsystem.cs:213-216 | the worker stops before the end of its queue exactly when the queue holds a null |
| ComPortReceive.NothingAfterNull | Controlsystem.cs:213-216 | items queued after a null are never processed |
| ComPortReceive.Deliveries | Controlsystem.cs:240-243 | the serial-data handler queues one data item per received chunk and never a null |
| ComPortReceive.SentinelAfterChunks | Controlsystem.cs:213-218 | N chunks and then a null: exactly those N chunks are processed, in order |
| ComPortReceive.OneChunkTwoLines | Controlsystem.cs:223-231 | from an empty buffer, a chunk holding a complete line and then more yields only that line; the rest, even a second complete line, stays buffered |
| ComPortReceive.TwoChunksTwoLines | Controlsystem.cs:218-228 | the same two lines sent as two chunks both come out, and the buffer ends empty |
| ComPortReceive.PiecesWithoutLine | Controlsystem.cs:218-223 | from any buffer, any number of chunks that together with it hold no line feed take nothing out and only grow the buffer by their concatenation |
| ComPortReceive.LineInPieces | Controlsystem.cs:218-228 | a line split over three chunks comes out whole when its line feed arrives, and the buffer ends empty |
| ComPortReceive.BacklogGrows | Controlsystem.cs:218-228 | when every chunk carries two or more line feeds, each chunk releases exactly one line and the line feeds left in the buffer grow by at least one per chunk |
| ComPortReceive.Drain | Controlsystem.cs:218-231 | the intended pass takes every complete line out: what stays buffered holds no line feed |
| ComPortReceive.DrainConserves | Controlsystem.cs:218-228 | the lines Drain takes out, followed by what stays, are exactly the appended buffer |
| ComPortReceive.DrainYieldsLines | Controlsystem.cs:222-227 | every line Drain takes out ends in a line feed and holds no other |
| ComPortReceive.DrainTwoLines | Controlsystem.cs:223-231 | the chunk of OneChunkTwoLines, drained, yields both lines and leaves the buffer empty |
| ComPortReceive.RxWorker.constructor | Controlsystem.cs:202-205 | the worker starts with an empty buffer, Pos = -1 and an empty MatchString |
| ComPortReceive.RxWorker.Receive | Controlsystem.cs:213-228 | a null stops the worker and leaves its state unchanged; a chunk leaves the buffer, Pos and MatchString as one framing pass of the old buffer and the chunk determines them |
| ComPortReceive.RxMethod | Controlsystem.cs:200-238 | the worker stops exactly when the queue holds a null; it processes the chunks before that null; the lines reaching the parse point and the final buffer are those of Feed over those chunks |
| DisplayCommands.Bytes | Controlsystem.cs:264-298 | every command is 9 printable ASCII bytes for display ID 00, ending in a carriage return |
| DisplayCommands.Decode | Controlsystem.cs:264-298 | only a 9-byte sequence ending in a carriage return reads as a command |
| DisplayCommands.DecodeBytes | Controlsystem.cs:264-298 | every entry of the table reads back as its own command, and only the entries of the table read as commands |
| DisplayCommands.BytesInjective | Controlsystem.cs:264-298 | two commands have the same bytes only if they are the same command |
| DisplayCommands.SetDisplayPower | Controlsystem.cs:257-279 | no status write; the first effect is a send |
| DisplayCommands.PowerSends | Controlsystem.cs:259-277 | power on sends the power-on bytes twice and power off sends the power-off bytes once; any two sends have a 2000 ms pause between them; there is a pause exactly when powering on |
| DisplayCommands.SetDisplayInput | Controlsystem.cs:284-301 | at most one effect, with no status write; any send is an input-select command of the table |
| DisplayCommands.InputNameSelects | Controlsystem.cs:286-298 | "HDMI1" and "HDMI2" each send their own input's select command, once |
| DisplayCommands.UnknownInputIgnored | Controlsystem.cs:284-300 | the helper does nothing exactly when the name is neither input's name |
| EiscSignals.SigChange | Controlsystem.cs:129-174 | when anything happens, the first effect is a status write to string join 10 and no later effect is a status write; only bool changes on joins 10 to 12 cause effects |
| EiscSignals.SigChangeFollowsJoinMap | Controlsystem.cs:132-164 | effects occur exactly for the requests of the documented join map; each request is announced with its own message, then its command is sent (power-on twice, the others once) with a settle pause between sends |
| EiscSignals.ExactTraces | Controlsystem.cs:136-164 | the four traces byte for byte, including the exact status texts and the leading space of the two input messages |
| EiscSignals.IgnoredChanges | Controlsystem.cs:132-173 | nothing happens exactly for non-bool changes, for other joins, and for a low on join 11 or 12 |
| EiscSignals.SendsAreCommands | Controlsystem.cs:129-174 | everything the handler sends is a command of the table |

## Left out

- COM port and EISC registration, the COM port settings and event-handler subscription (`Controlsystem.cs:57-123`): these are host SDK calls with no logic.
- The worker thread, the blocking `CrestronQueue` and the producer side's concurrency (`Controlsystem.cs:46-47`, `122`, `240-243`): the queue is a finite sequence of items. If it runs out without a null, the worker is still blocked in `Dequeue` and has not stopped.
- The real-time meaning of `Thread.Sleep(2000)`: it is kept only as a `Sleep(2000)` effect in the trace.
- Console and error-log output (`CrestronConsole.PrintLine`, `ErrorLog.Error`) and the `catch` at `Controlsystem.cs:233-236`: nothing in the modelled loop body can throw. In the program, `RxData.Append` throws once the StringBuilder reaches its maximum capacity or memory runs out, and the catch then drops that chunk. `FeedConserves` therefore holds only below that bound.
- Deliveries: its "never a null" rests on `args.SerialData` (`Controlsystem.cs:242`) never being null; the model's `string` type makes that an assumption.
- Nothing in the program ever queues the null: the `Stopping` case at `Controlsystem.cs:353-355` is empty, so in practice the worker never ends. The model still states what a null would do.
- The online/offline greeting (`Controlsystem.cs:176-192`) and the system, program-status and Ethernet event handlers: these are host plumbing.
- The "parse data here" stub (`Controlsystem.cs:230`): there is no parser. The model records the line that reaches that point.
- Serial data is text in the source, and the modelled framer works on `string`. Commands are modelled as byte values. All command bytes are below 0x80, so each character of the C# command string is one byte on the wire.
- The identity comparison `args.Sig == myEISC.BooleanOutput[n]` is modelled as a comparison of join numbers.

## Findings

| source | as written | input that shows it | evidently intended | confidence | as-written member | corrected member |
|---|---|---|---|---|---|---|
| Controlsystem.cs:223 | `if (Pos >= 0)` takes only the first line of the appended buffer per dequeued chunk | from an empty buffer, one chunk holding two complete lines `l1 + l2`: only `l1` comes out and `l2` stays buffered; chunks that each carry two lines leave one more line behind per chunk | every complete line in the buffer is taken out, leaving only an unterminated tail | medium, not executed | ComPortReceive.BacklogGrows | ComPortReceive.Drain |
