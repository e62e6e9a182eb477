# Fronius serial bridge: a Dafny model

This project models `fronius.c`, a daemon that polls Fronius solar inverters
over an RS-232/RS-422 link and forwards their measurements to one socket
per inverter. The model covers the deterministic core of the daemon:

- the three outbound frame encoders (`sendCommand`, `sendCommand2`,
  `sendCommandN`);
- the per-byte frame accumulator `processComm`;
- `processPacket`, which validates a received buffer, decodes measurements
  and dispatches replies;
- the value decoder (`tentothe`, the exponent substitution and the
  under/overflow zeroing);
- the `sanitycheck` filter;
- the sequencer in `main`, which covers the idle alternation, the GetVals
  sweep, the inverter round robin and the timeout;
- the command queue that `processSocket` fills and `main` drains;
- the `easInit`/`easComplete` error-activation machine.

Each part is written twice:

- **as values.** The state is a `BridgeState`, and every operation is a
  function from the old state and its input to the new state and an
  outcome. This is in `bridge.dfy`, `queue.dfy`, `accumulator.dfy`,
  `sanity.dfy`, `decoding.dfy` and `frames.dfy`.
- **as the C program does it.** The globals are the fields of the classes
  `Engine.Fronius`, `Queue.CommandQueue` and
  `Accumulator.SerialAccumulator`. `inverter[]`, `responseVal[][]`,
  `count[][]`, `queue.type[]` and `serialbuf[]` are arrays written in
  place, and every method is proved to produce exactly the state its
  function gives.

The properties are proved about the functions. They cover:

- outbound frames passing the inbound check;
- the header test only logging;
- the sweep of nine replies;
- the alternation and the round robin;
- discovery and its glitch;
- the error-activation machine;
- the queue's order and its full-queue behaviour;
- the filter's counts.

Modules:

| file | module | contents |
|---|---|---|
| wire.dfy | Wire | bytes, the checksum, frame well-formedness |
| frames.dfy | Frames | the three outbound encoders |
| accumulator.dfy | Accumulator | `processComm` as a step function and as a class |
| decoding.dfy | Decoding | `tentothe`, the exponent table, value decoding |
| sanity.dfy | Sanity | `sanitycheck` |
| queue.dfy | Queue | the circular command queue |
| bridge.dfy | Bridge | the bridge state and `processPacket`, `main`'s sequencer and `processSocket` as functions |
| engine.dfy | Engine | the same over the globals, as methods of `Fronius` |
| properties.dfy | Properties | properties relating several operations |
| findings.dfy | Findings | the short-packet report test, as written and as intended |

Where the code and its prose description disagree, the model follows the
code:

- **A byte other than 0x80 at positions 0-2.** `processComm` drops it. It
  is not re-examined as the first byte of a new frame (fronius.c:666-678).
- **A push onto a full queue.** It does not leave the queue as it was.
  `top` is not restored, so `top == bottom` and the nine queued commands
  are lost (fronius.c:1124-1131).

One place departs from the code: the short-packet report flag in
`Bridge.Packet` uses the intended test of the finding below, not the
test as written (see "## Left out").

## Model

| member | source | states |
|---|---|---|
| Wire.LowByte | fronius.c:546-547 | `checksum & 0xFF`: the byte congruent to its argument modulo 256 |
| Wire.SumConcat | fronius.c:789-790 | the checksum sum over two adjacent ranges is the sum of the sums |
| Wire.SingleByteCorruptionDetected | fronius.c:703-708 | changing any one byte from the length byte through the checksum makes the frame fail the checksum test |
| Wire.DataByteChangesSum | fronius.c:789-790 | changing one summed byte shifts the sum by exactly the change |
| Wire.LowByteShift | fronius.c:791 | a nonzero change smaller than 256 in magnitude changes the low byte |
| Frames.CommandFrame | fronius.c:533-550 | the frame is 80 80 80 00 dev num cmd and a checksum, and it is well formed |
| Frames.CommandFrame2 | fronius.c:556-576 | the frame is 80 80 80 02 dev num cmd p1 p2 and a checksum, and it is well formed |
| Frames.CommandNFrame | fronius.c:582-605 | the frame has `howmany` as its length byte and the first `howmany` params; it is well formed whenever `howmany` fits in a byte |
| Frames.BuildCommandN | fronius.c:590-602 | the checksum loop over the parameters yields exactly `CommandNFrame` |
| Accumulator.Step | fronius.c:610-719 | from a valid state the next state is valid: at most MAXINVERTERS + 7 bytes are buffered, there is never an overflow, a completed frame is well formed with a length ≤ 12, and every event but Continue empties the buffer |
| Accumulator.Feed | fronius.c:610-719 | feeding a stream emits one event per byte and keeps the accumulator valid |
| Accumulator.FrameAccepted | fronius.c:664-717 | a well-formed frame with a length ≤ 12 fed to an empty accumulator is reported complete at its last byte and at no earlier byte, and the buffer is empty again |
| Accumulator.FramePrefix | fronius.c:664-701 | every proper prefix of such a frame is buffered with only Continue events |
| Accumulator.StepBuffers | fronius.c:664-701 | a byte that breaks no positional rule and does not end the frame is appended |
| Accumulator.SyncMismatchDropped | fronius.c:666-678 | a byte other than 0x80 at positions 0-2 empties the buffer and is not kept |
| Accumulator.LengthAboveMaxRejected | fronius.c:688-695 | a length byte above MAXINVERTERS empties the buffer and is recorded as responseLength |
| Accumulator.ContinueAppendsOne | fronius.c:664-701 | a Continue event means the index advanced by exactly one |
| Accumulator.LastByteEndsFrame | fronius.c:703-717 | the byte that reaches LEN + 8 empties the buffer in both outcomes, and the frame is handed on exactly when its checksum is right |
| Accumulator.SerialAccumulator.constructor | fronius.c:203-204 | the index starts at 0 |
| Accumulator.SerialAccumulator.Ingest | fronius.c:610-719 | one call over `serialbuf`/`serbufindex` produces exactly `Step`'s state and event |
| Accumulator.SerialAccumulator.BufferByte | fronius.c:664-701 | the store at `serbufindex` and the positional checks follow `Buffer` |
| Accumulator.SerialAccumulator.EndOfFrameCheck | fronius.c:703-717 | the end-of-frame checksum follows `EndOfFrame` |
| Accumulator.SumRange | fronius.c:705-707 | the summing loop returns the sum of `buf[from..to]` |
| Decoding.TenToThe | fronius.c:721-729 | `tentothe` is 0 outside [-3, 10] and is never negative |
| Decoding.TenToTheIsPow10 | fronius.c:722-728 | inside [-3, 9] `tentothe(n)` is exactly 10^n |
| Decoding.TenToTheTenIsTenToTheSeven | fronius.c:723 | the table's n = 10 entry is 10^7, not 10^10 |
| Decoding.Magnitude | fronius.c:740 | `msg[8] + msg[7] * 256` is in 0..65535, and its high and low bytes are msg[7] and msg[8] |
| Decoding.SignedByte | fronius.c:741 | the signed reading of the exponent byte is in -128..127, and its low byte is the byte |
| Decoding.EffectiveExponent | fronius.c:799-800 | for indices 0x10..0x18 an exponent of 11 becomes the slot's entry in `exponent[]`; any other exponent is the signed byte |
| Decoding.DecodeValue | fronius.c:803-817 | the value is never negative, and it is 0 when the exponent is below -3 or above 10 |
| Decoding.DecodeValueScales | fronius.c:803-817 | for exponents -3..9 the value is magnitude × 10^exp |
| Decoding.OverflowGuardIsRedundant | fronius.c:810-816 | above exponent 10 `val * tentothe(exp)` is already 0, so the overflow zeroing changes nothing |
| Decoding.ReplyValue | fronius.c:740-817 | the decoded value of a reply is never negative |
| Decoding.SentinelIsBaseline | fronius.c:799-800 | an exponent byte of 11 decodes as if the slot's baseline exponent had been sent |
| Sanity.SanityCheck | fronius.c:1303-1401 | the result is the new value or `prev`; the count is reset to 0 or incremented; a count in 0..3 stays in 0..3 |
| Sanity.OverrideAfterTwo | fronius.c:1309-1315 | after more than two rejections the value is taken and the count is reset |
| Sanity.BoundedSlot | fronius.c:1316-1400 | for power, AC current, AC voltage, frequency, DC current and DC voltage, a value above the slot's limit (10000, 100, 550, 100, 100, 600) returns `prev` with the count incremented; a value within the limit is taken, with the count reset exactly when it is not an AC-voltage transient |
| Sanity.EnergySlot | fronius.c:1325-1335 | an energy value is rejected exactly when `prev > 0` and it exceeds `prev + 10000`; with `prev ≤ 0` it is always taken |
| Sanity.UnknownIndex | fronius.c:1393-1399 | an index without a rule returns `prev` and increments the count |
| Sanity.AcvTransientAcceptedAndCounted | fronius.c:1354-1367 | an AC voltage crossing 200 V in either direction while the DC voltage is positive is taken, yet still counted |
| Sanity.ResetMeansAccepted | fronius.c:1303-1401 | whenever the count is reset, the new value was taken |
| Sanity.SteadyReadingAccepted | fronius.c:1316-1400 | a reading equal to `prev` is taken with the count reset when it is within its slot's limit, and for the energy slots always |
| Sanity.RejectedThreeTimesThenTaken | fronius.c:1309-1400 | the same out-of-range reading is refused three times and taken on the fourth, with the count back at 0 |
| Queue.CommandCode | fronius.c:114-115 | the enum values are 0, 1, 2, 4, 5 and 6, and 0 is INVALID alone |
| Queue.Advance | fronius.c:1124-1125 | increment, then wrap at QUEUESIZE: (i + 1) mod 10 |
| Queue.Length | fronius.c:352 | the number of queued entries is below 10, and it is 0 exactly when `top == bottom` |
| Queue.Push | fronius.c:1121-1166 | the push keeps both indices in range and never moves `bottom` |
| Queue.Pop | fronius.c:352-358 | the pop keeps the indices in range and leaves `top` and the stored types alone |
| Queue.PushAppends | fronius.c:1124-1157 | a known command pushed onto fewer than nine entries is appended at the back |
| Queue.PushOnFullQueueEmptiesIt | fronius.c:1124-1131 | a push onto nine entries reports the queue as full and leaves `top == bottom`: the queue then reads empty |
| Queue.PushFullOnlyWhenNineQueued | fronius.c:1124-1131 | "Queue full" happens exactly when nine entries are queued, so at most nine are ever held |
| Queue.PushUnknownUndone | fronius.c:1160-1166 | an unknown command leaves the queue unchanged when `top` was below 9 |
| Queue.PushUnknownAfterWrapQueuesSlotZero | fronius.c:1124-1166 | when `top` was 9, the undo clamps at 0 instead of wrapping back, so the stale slot 0 becomes a queued entry |
| Queue.PopTakesOldest | fronius.c:352-358 | the pop returns the oldest entry and leaves the rest in order (FIFO) |
| Queue.CommandQueue.constructor | fronius.c:283 | the queue starts empty |
| Queue.CommandQueue.IsEmpty | fronius.c:352 | `top != bottom` is the test for a queued command |
| Queue.CommandQueue.Enqueue | fronius.c:1121-1166 | the in-place index update and array write produce exactly `Push` |
| Queue.CommandQueue.Dequeue | fronius.c:352-358 | the in-place update produces exactly `Pop` |
| Bridge.SystemTypeOf | fronius.c:891-901 | reply byte 0, 2 or 3 gives unset, IFC Easy or RS422; 1, or 4 and above, gives datalogger |
| Bridge.BitsBelow | fronius.c:162 | the set of bit positions 0..n-1 (-1 as a bitmask is all 32 bits) |
| Bridge.Initial | fronius.c:283-338 | the start state is consistent, `inverter[] = {1}`, and `errorParam1` is the day of the month when more than one inverter is configured and 2 otherwise |
| Bridge.At | fronius.c:417 | a byte of the received buffer, with 0 past what was received |
| Bridge.Validate | fronius.c:751-795 | a buffer is short exactly when fewer than LEN + 8 bytes arrived; an accepted buffer's header flag tells whether all three sync bytes were 0x80 |
| Bridge.Packet | fronius.c:734-1060 | processPacket on one buffer keeps the state consistent |
| Bridge.Completed | fronius.c:907-911 | only `sequenceComplete` is set |
| Bridge.RoundRobin | fronius.c:875-877 | the next inverter is `current + 1`, or 0 once that reaches `numInverters`, including after rediscovery has lowered `numInverters` below `current` |
| Bridge.Corrected | fronius.c:930-936 | address 0 is read as 1, and any other address is kept |
| Bridge.FirstAbort | fronius.c:928-950 | the loop stops at the first address that is the glitch value 34 or above `servers` |
| Bridge.WrittenCount | fronius.c:928-950 | the loop writes up to and including the aborting address, or every address |
| Bridge.WriteAddresses | fronius.c:930-936 | `inverter[i]` becomes the corrected address for the first n slots, and the other slots are unchanged |
| Bridge.StatusBits | fronius.c:949 | the bitmask holds exactly the corrected addresses below 32 |
| Bridge.Addresses | fronius.c:928-930 | the reply's LEN address bytes, from msg[7] |
| Bridge.ErrorSendingAcks | fronius.c:1018-1024 | inverter k acknowledged exactly when byte 7 + k is 0xFF, for k in 1..LEN-1 |
| Bridge.IdleStep | fronius.c:360-367 | the current sequence becomes `nextSequence`; the next one is GetVals exactly when the current one is GetActiveInverters and `numInverters > 0`, and GetActiveInverters otherwise |
| Bridge.ErrorSendingList | fronius.c:394-401 | `invs[0] = 0x55` and `invs[i] = i` for i in 1..servers |
| Bridge.CommandFor | fronius.c:378-410 | the "not coded" branch is taken only for INVALID |
| Bridge.TimedOut | fronius.c:421-424 | a select timeout sets `commandComplete` and `sequenceComplete` and nothing else |
| Bridge.QueuedType | fronius.c:1133-1157 | a type is queued exactly for the four command messages, and never INVALID |
| Bridge.ApplyErrorArgs | fronius.c:1143-1152 | reading ActivateError's arguments changes only `errorParam1` and `errorParam2` |
| Bridge.ServerMessage | fronius.c:1095-1169 | processSocket keeps the state consistent and returns 0 (stop) exactly for "exit" |
| Engine.ValidatePacket | fronius.c:751-795 | the header and checksum loops compute exactly `Validate` |
| Engine.ErrorSendingParams | fronius.c:394-401 | the `invs[]` loop fills `ErrorSendingList`, and its final `i` is servers + 1 |
| Engine.Fronius.constructor | fronius.c:283-338 | the globals start in `Initial` |
| Engine.Fronius.ProcessPacket | fronius.c:734-1060 | processPacket over the globals produces exactly `Packet`'s new state and outcome |
| Engine.Fronius.HandleDataReply | fronius.c:821-879 | the measurement branch produces exactly `DataReply` |
| Engine.Fronius.AdvanceSweep | fronius.c:847-877 | the index advance, sweep completion and round robin follow `SweepReply` |
| Engine.Fronius.StoreSlot | fronius.c:841-842 | writing the filtered value and count in place produces exactly `StoreValue` |
| Engine.Fronius.HandleVersion | fronius.c:882-902 | the GETVERSION branch produces exactly `VersionReply` |
| Engine.Fronius.HandleActiveInverters | fronius.c:912-961 | the GETACTIVEINVERTERS branch produces exactly `ActiveInvertersReply` |
| Engine.Fronius.ScanAddresses | fronius.c:928-950 | the address loop writes `inverter[]` as `WriteAddresses` does and stops at `FirstAbort` with the status bits gathered so far |
| Engine.Fronius.HandleErrorForwarding | fronius.c:962-997 | the SETERRORFORWARDING branch produces exactly `ErrorForwardingReply` |
| Engine.Fronius.HandleErrorSending | fronius.c:998-1038 | the SETERRORSENDING branch produces exactly `ErrorSendingReply` |
| Engine.Fronius.PrepareNextCommand | fronius.c:347-413 | main's "prepare next command" block produces exactly `PrepareNext` |
| Engine.Fronius.StartNextSequence | fronius.c:350-376 | the dequeue or the idle alternation, and the GetVals range, follow `NextSequence` |
| Engine.Fronius.SendCurrent | fronius.c:378-410 | the frame sent for the current sequence is `CommandFor` |
| Engine.Fronius.SelectTimedOut | fronius.c:421-424 | the timeout produces exactly `TimedOut` |
| Engine.Fronius.HandleServerCommand | fronius.c:1095-1169 | processSocket over the globals produces exactly `ServerMessage` |
| Properties.WellFormedAccepted | fronius.c:751-795 | a well-formed frame passes processPacket's validation with a good header |
| Properties.SentFramesPassInboundCheck | fronius.c:378-410 | every frame main sends is well formed and passes the inbound validation |
| Properties.AcceptedIffFrameChecksumOk | fronius.c:751-795 | a long enough buffer is accepted exactly when its first LEN + 8 bytes have a correct checksum; trailing bytes are ignored |
| Properties.CorruptedFrameDropped | fronius.c:788-794 | changing a data byte or the checksum of a well-formed frame gets it dropped with the state unchanged |
| Properties.RejectedPacketChangesNothing | fronius.c:751-794 | a short buffer or one with a bad checksum changes no state but the short-packet counter |
| Properties.HeaderOnlyLogged | fronius.c:761-786 | changing a sync byte changes nothing about what processPacket does: the header test only logs |
| Properties.ShortPacketCounted | fronius.c:751-758 | a short buffer only increments the short-packet counter; its report flag is the intended hundredth test, which the code as written never passes |
| Properties.VersionReplySetsSystemType | fronius.c:882-902 | a GETVERSION reply completes the sequence, acknowledges, and sets the system type from byte 7 only when LEN is 4; nothing else changes |
| Properties.MeasurementStored | fronius.c:821-848 | a reply for index 0x10..0x18 stores the filtered value and count in the replying inverter's slot, with the DC voltage taken from `currentInverter`'s row; no other slot changes; the index advances by one |
| Properties.UnpolledIndexStoresNothing | fronius.c:839-848 | a reply for an index in 0x19..0x2A stores nothing but still advances the index |
| Properties.Packets | fronius.c:445-449 | a run of buffers processed in order keeps the state consistent and gives one outcome each |
| Properties.SweepOfNineReplies | fronius.c:847-877 | from index 0x10 with limit 0x18, the first eight replies are stored without completing; the ninth completes the sequence, reports the row and moves to the next inverter by the round robin |
| Properties.RoundRobinIsSuccessorModulo | fronius.c:875-877 | inside the active range the round robin is (current + 1) mod numInverters |
| Properties.RoundRobinVisitsInOrder | fronius.c:875-877 | starting at inverter 0, the k-th completed sweep is for inverter k mod numInverters |
| Properties.IdleRun | fronius.c:360-367 | k idle steps choose k sequences |
| Properties.IdleAlternates | fronius.c:360-367 | with active inverters, idle sequences alternate between GetActiveInverters and GetVals |
| Properties.NoInvertersKeepsAsking | fronius.c:360-367 | without active inverters every idle sequence after the first is GetActiveInverters |
| Properties.StartupOrder | fronius.c:333-424 | when GetVersion and ActivateError both end by timeout (no system type known), start-up sends GetVersion, then ActivateError as SETERRORFORWARDING with (errorParam1, 0x55), then GetActiveInverters |
| Properties.StartupAfterVersionReply | fronius.c:393-407 | when GetVersion is answered, ActivateError follows: as SETERRORSENDING with 0x55 and 1..servers after a broadcast reply naming RS422, otherwise as SETERRORFORWARDING with (errorParam1, 0x55) |
| Properties.CommandCompleteStaysSet | fronius.c:347-424 | once set, `commandComplete` is never cleared on the live path |
| Properties.QueuedCommandRunsFirst | fronius.c:350-367 | a queued command is taken before the idle alternation, oldest first, and leaves `nextSequence` unchanged |
| Properties.GetValsStartsSweep | fronius.c:360-391 | a GetVals sequence starts at 0x10 with limit 0x18, sends index 0x10 to the current inverter, and is followed by GetActiveInverters |
| Properties.DiscoveryTakesAddresses | fronius.c:912-961 | a reply of 1..12 addresses with no abort makes them (0 read as 1) the active inverters, and the bitmask is their set |
| Properties.DiscoveryAbortKeepsLength | fronius.c:919-946 | an aborting address leaves `numInverters` at LEN, keeps the offending address in its slot, and leaves `prevInverterStatus` unchanged |
| Properties.FirstAbortIs | fronius.c:928-950 | the loop stops at the first aborting address |
| Properties.GlitchSlotOutOfRange | fronius.c:919-946 | when discovery stops on the glitch value at the current inverter's slot, the next measurement reply finds address 34 out of range |
| Properties.ErrorActivationCompleteIsFinal | fronius.c:962-1038 | easComplete is never left |
| Properties.ErrorForwardingEndsActivation | fronius.c:962-997 | an ErrorForwarding reply completes activation whether or not the device confirmed with 0x55, and the outcome reports both facts |
| Properties.ErrorSendingEndsActivation | fronius.c:998-1038 | an ErrorSending reply completes activation exactly when it has at most MAXINVERTERS + 1 and at most servers + 1 answers |
| Properties.ErrorSendingFrameListsInverters | fronius.c:393-401 | with RS422 the activation frame is well formed and has servers + 1 parameters: 0x55 and 1..servers |
| Properties.ServerCommandQueued | fronius.c:1121-1157 | with room in the queue a command is appended, and ActivateError also takes its parameters |
| Properties.UnrecognisedMessageLeavesQueue | fronius.c:1158-1166 | an unknown message sets sequenceComplete and, with `top` below 9, its undone push leaves the queue unchanged |
| Properties.UnrecognisedMessageAfterWrapQueuesSlotZero | fronius.c:1158-1166 | with `top` at 9 the undo clamps at 0, so slot 0's stale type becomes the newest queued command |
| Properties.ServerCommandOnFullQueue | fronius.c:1122-1131 | on nine queued entries the command is dropped, the queue reads empty, and ActivateError's parameters are not read |
| Properties.ImmediateMessagesChangeNothing | fronius.c:1095-1119 | exit, Ok, truncate, debug and help change no modelled state; only exit stops the loop |
| Properties.CountsStayBounded | fronius.c:1303-1401 | every count cell stays within 0..3 |
| Findings.ReportsUpTo | fronius.c:752-758 | at most one report per short packet |
| Findings.AsWrittenNeverReports | fronius.c:752-758 | as written, no short-packet count ever produces the report |
| Findings.HundredthShortPacketNotReported | fronius.c:752-758 | the 100th short packet is not reported as written, and is reported under the intended test |
| Findings.IntendedReportsEveryHundredth | fronius.c:752-758 | the intended test reports exactly ⌊n/100⌋ of the first n short packets |

## Left out

- **Serial and socket I/O.** The model leaves out `sendSerial` and its
  retries, `openSerial`, `flock`, `getbuf`'s select/read loop,
  `processSocket`'s socket read, `sockSend` and `logmsg`. Received bytes
  and parsed control commands are inputs, and sent frames are outputs.
- **Log lines and their rate counters.** `commserr` and `have_warned` are
  left out because they only decide what is logged. The short-packet
  counter is kept because it is the subject of the finding.
- **The select loop and the clock.** The model leaves out `sleep`, the
  `time(NULL)`-based reply timeout (fronius.c:462-470) and `localtime`.
  The day of the month is a parameter of `Initial`, and a select timeout
  is the operation `TimedOut`.
- **Floating point.** Measurements are `real`. IEEE single-precision
  rounding and the `%.0f`-style formatting of report lines are not
  modelled, so a report is the row of nine values it would format. Which
  format is used (old style or data dictionary) is not modelled either.
- **Control-message parsing.** `strcasecmp`, `strncasecmp` and `sscanf`
  in `processSocket` are not modelled. Messages arrive already parsed as
  `ServerCommand`, and `ErrorArgs` stands for sscanf's result count and
  values.
- **Immediate control messages.** The effects of `truncate` and
  `debug 0|1|2` are not modelled: they act only on the log file and the
  debug level.
- **Lookup tables and command-line handling.** The string tables
  (`deviceType`, `protocolError`, `statusText`) are not modelled, nor are
  `getopt`, `usage`, `-Z` decoding, fake mode, `blinkLED` and `dumpbuf`.
  The GETDEVICETYPE reply and the protocol-error reply are modelled only
  as the completion of the sequence.
- **processComm's result.** `processComm` is not called by `main`. Its
  model reports a complete frame as an event and does not itself run
  processPacket. Its first statement, `commandComplete = 0`, belongs to
  that dead path. On the live path `commandComplete` is never cleared
  (`Properties.CommandCompleteStaysSet`).
- **The size of the input buffer.** `getbuf` may read 50 bytes into the
  34-byte `data.buf`. The model takes the received bytes as a sequence of
  any length.
- **The servers setting.** `servers` is restricted to 1..12 wherever a
  frame is built or an inverter slot is indexed. With servers == 12, the
  C loop at fronius.c:394-401 writes `invs[12]`, one past the array. The
  model's list holds all 13 bytes, so that overflow is not modelled.
- **Out-of-range inverter addresses.** An address outside 1..12 in
  `inverter[currentInverter]` makes the C code index outside
  `responseVal` after logging (fronius.c:829-836), which is undefined
  behaviour. In the model the reply ends with `AddressOutOfRange` and
  changes nothing more.
- Bridge.Packet: on a short buffer the `ShortPacket` flag is the intended
  test `shortpacket % 100 == 0` of the finding, not the code's
  `!shortpacket % 100`, which is never true; a short buffer while the
  counter is 99 gives a flag the code would not log
  (`Properties.ShortPacketCounted` states both). Also, `commandIndex` is
  an unbounded integer, so C `int` overflow of the index is not modelled.
- Engine.Fronius.ProcessPacket: returns the same intended short-packet
  flag as `Bridge.Packet`.

## Findings

| source | as written | input that shows it | evidently intended | confidence | as-written member | corrected member |
|---|---|---|---|---|---|---|
| fronius.c:752-758 | `if (!shortpacket % 100)` parses as `(!shortpacket) % 100`. The counter has just been incremented, so `!shortpacket` is 0 and the report is never logged. | the 100th short packet: `shortpacket == 100`, `(!100) % 100 == 0`, no report | a report at every hundredth short packet, `shortpacket % 100 == 0` | not executed | Findings.AsWrittenNeverReports | Findings.IntendedReportsEveryHundredth |
