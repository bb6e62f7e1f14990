# Ether Dream sessions in Dafny

A model of an Ether Dream laser DAC session: a host that queues commands, sends them all at once and
then takes in one response each, and an emulated DAC that cuts the byte stream into commands, runs its
light-engine and playback state machines over a bounded point queue, and drains that queue against a
clock while commands keep arriving.

The central results:

- The streaming example never has a command refused, under every interleaving of emissions with its
  submissions, and what the DAC shows and then still holds is exactly an initial part of the host's point
  source (`FlowControl.StreamPoints`). Each turn fills the DAC: at its answer it holds one point less than
  it can, but for those shown since the answer before (`FlowControl.RoundFills`). The start-up is accepted
  exactly for capacities of at least two.
- The same holds of the select loop at the granularity of its await points: a command list that the DAC
  would accept when nothing else happens is never refused in any interleaving, stops and late output
  included (`Interleaving.LoopNeverRefuses`, `Interleaving.StreamsThroughLoop`); and every batch has its
  prepare, points and begin behind it, up to the one stop whose response is being written
  (`Interleaving.EveryLoopBatchIsLit`).
- A submission's bytes, cut up by the emulator over any leftovers in its scratch buffer, run the command
  list that was queued, and the host's result and mirrored status are the ones the verdicts demand
  (`Session.SessionCorrect`, `Session.MirrorAgreement`). It ends in success exactly when every command was
  acknowledged, and every other ending is told from the answers (`Session.SessionEndings`).
- A playing DAC with points and a usable rate can always show them without the client's help, whatever its
  tasks are doing (`SelectLoop.LightComesIff`). The loop never unwraps a missing emission time; light after playback has ended comes at most
  once per departure, and exactly while the response to the stop is still being written; after an
  emergency stop at most one batch leaves, and one can leave exactly when an emission was waiting, with
  a point queued and a usable rate (`SelectLoop.LightFollowsEmergencyStopIff`); every run of the loop
  without such late light is a run of the atomic model (module `SelectLoop`).
- Over every atomic run: accepted points are conserved in order, every batch shown has a prepare, points
  and a begin behind it, and an emergency stop latches for good (module `Traces`).
- Emission does not depend on how often it is polled, and it keeps to the point rate without drift while
  the host keeps sending (`Timing.PollScheduleIndependence`, `SteadyPlay.KeepsInStep`).
- The program's floating-point rate interval is the exact one at every rate (`Doubles.IntervalAsComputed`).
- Where the code departs from its documentation, the departures listed below each have a theorem that says
  exactly when the two agree.

## Modules

| module | what it models |
|---|---|
| `Wrappers`, `LittleEndian` | results and options; machine integers and their byte layouts |
| `Protocol`, `ProtocolIO` | the wire types and layouts; the writers and readers that produce and consume them |
| `Dac` | the typed status and its conversions; the host's and the emulator's DAC description |
| `Tcp`, `Framing` | one end of a TCP connection; how the emulator cuts the stream into commands |
| `Engine`, `Emulator` | command processing and emission, as functions on a state value and in place |
| `Timing` | the catch-up loop against the clock |
| `Doubles` | the rate interval as computed in 64-bit floating point |
| `Traces` | whole runs with commands and emissions as atomic steps |
| `SteadyPlay` | the playback rate over runs that mix emissions with commands |
| `Reference` | the documented rules, and exactly where the emulator departs from them |
| `SelectLoop` | the select loop at its await points, and its refinement of atomic runs |
| `Client` | the command queue, submission and responses on the host |
| `Session` | one submission over the wire |
| `FlowControl` | the streaming example |
| `Interleaving` | what holds of the select loop in every interleaving, for any client and for the streaming one |

## How the program's behaviour is represented

- Time is in whole nanoseconds. An emission is given the instant its future was first polled and the
  instant at which it read the clock after its timer. Nothing is assumed about those instants except
  where a lemma says so.
- A stream of incoming bytes is the sequence of all bytes that will ever arrive; running out of it is the
  end of the stream. How much of it has arrived matters only to the emulator's second peek, which is given
  that number.
- Panics and the endless catch-up loop are outcomes, not preconditions: a point rate of zero makes the
  emission panic, one above 10^9 gives an interval of zero, and either ends the run. A command longer
  than the scratch buffer panics, as does the builder assertion. A host whose emulator hangs waits for
  ever, which is an outcome too.
- A TCP write takes all its bytes, some of them, or fails, as a list fixed beforehand says. Neither end
  looks at how much was taken. `Client.SentWholeIff` says when the bytes arrive whole; `Session` and
  `FlowControl` take them to.
- `point_count` wraps at 2^32 as in a release build; a debug build panics there instead.
- Slicing, casts and subtractions on unsigned numbers are checked where the program's are.

## Where the code and its documentation disagree

The model follows the code. For each of these departures a theorem says exactly when code and
documentation agree.

- `ClearEmergencyStop` is documented to be acknowledged in emergency stop; the emulator acknowledges it
  exactly when the light engine is `Ready`, and never changes anything
  (`Traces.ClearIsAcknowledgedIffReady`, `Reference.ClearAcknowledgedIffNothingToClear`). A `PointRate` is
  documented to be answered NAK - Full when the rate buffer is full; the emulator never is. Apart from these
  two and from unrecognised bytes every answer is the documented one (`Reference.AnswersAsDocumentedIff`).
- Every command is documented to receive a response. A timer that fires while one is being written drops
  it; all are delivered exactly when that does not happen (`Interleaving.AllDeliveredIff`).
- The builder calls for emergency stop and for clearing it queue an ordinary stop. What is sent is what
  the calls are named after exactly when neither is among them, and no call ever sends either command
  (`Client.SentAsNamedIff`); so no use of the builder brings the emulator into emergency stop
  (`Interleaving.BuilderNeverReachesEmergencyStop`).
- The comment on the emergency stop says that it stops points at once; one more batch can leave, exactly
  when an emission is waiting, a point is queued and the rate is usable
  (`SelectLoop.LightFollowsEmergencyStopIff`, with a run from a fresh connection in
  `SelectLoop.LightAfterEmergencyStop`).
- An unrecognised byte is documented to be acknowledged and to act as an emergency stop; the emulator
  refuses it, which has the documented effect exactly when it is already in emergency stop
  (`Reference.AnswersAsDocumentedIff`, `Reference.UnknownByteStopsIff`). It leaves the byte in the stream,
  so that it is refused again for ever and nothing behind it is ever read
  (`Session.UnknownByteBlocksStream`). That includes the alternative emergency-stop byte 0xff.
- A point rate change is documented to wait in a buffer for a point that asks for it; the emulator applies
  it at once. Over every run it is at the documented rate exactly when the rate given last has become the
  current one (`Reference.RateAsDocumentedIff`); while the DAC plays and the buffer has room, exactly when no
  rate waits or the last one waiting equals the current one (`Reference.RateWhilePlayingIff`).
- Point rate and point count are documented to be zero in `Idle`, and the count in `Playing` to be the number
  of points shown; a stop resets neither, and the count wraps. Over the runs of a fresh connection they are
  as documented exactly when a playing DAC has shown fewer than 2^32 points, and an idle one a multiple of
  2^32 and was last given rate zero (`Reference.CountersAsDocumentedIff`).
- The light-engine flags are documented to record an emergency stop; the emulator changes no flag over any
  run (`Reference.FixedOverRun`), so that they do exactly when there was none
  (`Reference.EmergencyStopFlaggedIff`). The playback flags are documented to say whether an emergency stop
  ended the last stream; they do exactly when none arrived during a stream
  (`Reference.PlaybackFlagsAsDocumentedIff`).
- The documentation of the SD-card source flags gives `PLAYING` bit 0 and `REPEAT` bit 1; the code has no
  bit and bit 0. They agree on `PLAYING` exactly when bit 0 is set, on `REPEAT` exactly when both bits are
  equal (`Reference.SourceFlagsAsDocumentedIff`).

## Model

| member | source | states |
|---|---|---|
| Protocol.StatusRoundTrip | ether-dream/src/protocol.rs:239-253 | a written status reads back as itself, whatever follows it |
| Protocol.StatusReprint | ether-dream/src/protocol.rs:293-319 | any 20 bytes read as a status write back as the same bytes |
| Protocol.PointRoundTrip | ether-dream/src/protocol.rs:269-282 | a written point, signed coordinates included, reads back as itself |
| Protocol.PointReprint | ether-dream/src/protocol.rs:348-371 | any 18 bytes read as a point write back as the same bytes |
| Protocol.ResponseRoundTrip | ether-dream/src/protocol.rs:284-291 | a written response reads back as itself |
| Protocol.ResponseReprint | ether-dream/src/protocol.rs:374-386 | any 22 bytes read as a response write back as the same bytes |
| Protocol.PointsRoundTrip | ether-dream/src/protocol.rs:591-605 | a point list reads back from its bytes, whatever follows |
| Protocol.PointsReprint | ether-dream/src/protocol.rs:591-605 | any bytes read as a point list write back as the same bytes |
| Protocol.ParseOfPrint | ether-dream/src/dac/mod.rs:468-481 | every command the writer accepts is parsed back from its bytes, consuming exactly those |
| Protocol.PrintOfParse | ether-dream/src/dac/mod.rs:446-466 | a parsed command prints as exactly the bytes consumed, 0xff becoming 0x00 |
| Protocol.DecodersAgree | ether-dream/src/protocol.rs:769-852 | each command type's own reader succeeds exactly when the runtime reader yields a command of that type, with the same command, size and, at its start byte, error |
| Protocol.StartByteDecidesKind | ether-dream/src/dac/mod.rs:446-466 | a byte is unknown to the runtime reader exactly when no type's reader takes it, and no two types take the same one |
| Protocol.CodesAreDocumented | ether-dream/src/protocol.rs:226-236 | the answer codes are `a`, `F`, `I` and `!` |
| Protocol.StartByteIsDocumented | ether-dream/src/protocol.rs:631-665 | the start bytes are `p`, `b`, `t`, `d`, `s`, 0x00, `c` and `?` |
| Protocol.StatusLayout | ether-dream/src/protocol.rs:239-253 | each field of a status lies at its offset in the 20 bytes, low byte first |
| Protocol.PointLayout | ether-dream/src/protocol.rs:269-282 | each field of a point lies at its offset in the 18 bytes, coordinates in two's complement |
| Protocol.ResponseLayout | ether-dream/src/protocol.rs:284-291 | response code, echoed command, then the status |
| Protocol.PointsLayout | ether-dream/src/protocol.rs:727-729 | point i of a list lies at offset 18 i |
| Protocol.CommandLayout | ether-dream/src/protocol.rs:701-732 | start byte, then the fields at their offsets; for `Data` the count and then the points |
| ProtocolIO.Writer.WriteStatus | ether-dream/src/protocol.rs:239-253 | writing field by field appends the 20-byte layout |
| ProtocolIO.Writer.WritePoint | ether-dream/src/protocol.rs:269-282 | writing field by field appends the 18-byte layout |
| ProtocolIO.Writer.WriteResponse | ether-dream/src/protocol.rs:284-291 | appends the 22-byte layout |
| ProtocolIO.Writer.WritePoints | ether-dream/src/protocol.rs:727-729 | the loop appends every point's bytes in order |
| ProtocolIO.Writer.WriteData | ether-dream/src/protocol.rs:719-732 | refuses more than 65535 points without writing; otherwise the loop appends header and all points |
| ProtocolIO.Writer.WriteCommand | ether-dream/src/dac/mod.rs:468-481 | appends the command's bytes, or nothing if refused |
| ProtocolIO.Reader.ReadStatus | ether-dream/src/protocol.rs:293-319 | consumes exactly 20 bytes, or fails exactly when there are fewer |
| ProtocolIO.Reader.ReadPoint | ether-dream/src/protocol.rs:348-371 | consumes exactly 18 bytes, or fails exactly when there are fewer |
| ProtocolIO.Reader.ReadResponse | ether-dream/src/protocol.rs:374-386 | consumes exactly 22 bytes, or fails exactly when there are fewer |
| ProtocolIO.Reader.ReadPoints | ether-dream/src/protocol.rs:591-605 | the countdown loop reads all announced points in order, or fails exactly when bytes are missing |
| ProtocolIO.Reader.ReadBeginFields | ether-dream/src/protocol.rs:546-554 | low water mark and rate from exactly six bytes |
| ProtocolIO.Reader.ReadPointRateFields | ether-dream/src/protocol.rs:562-565 | the rate from exactly four bytes |
| ProtocolIO.Reader.ReadDataFields | ether-dream/src/protocol.rs:613-621 | count and points, or failure exactly when bytes are missing |
| ProtocolIO.Reader.ReadUnit | ether-dream/src/protocol.rs:769-778 | the reader of a one-byte command: its start byte or an error, as the type's parse says |
| ProtocolIO.Reader.ReadBegin | ether-dream/src/protocol.rs:780-788 | start-byte check, then the fields, as the type's parse says |
| ProtocolIO.Reader.ReadPointRate | ether-dream/src/protocol.rs:790-798 | start-byte check, then the rate, as the type's parse says |
| ProtocolIO.Reader.ReadData | ether-dream/src/protocol.rs:800-808 | start-byte check, then count and points, as the type's parse says |
| ProtocolIO.Reader.ReadEmergencyStop | ether-dream/src/protocol.rs:821-830 | takes both start bytes of the emergency stop and no other |
| ProtocolIO.Reader.ReadCommand | ether-dream/src/dac/mod.rs:446-466 | result, error and bytes left are those of the parse of the input |
| Dac.FromProtocolOfToProtocol | ether-dream/src/dac/mod.rs:249-315 | a status survives conversion to the wire form and back |
| Dac.ToProtocolOfFromProtocol | ether-dream/src/dac/mod.rs:249-315 | readable exactly for known state bytes; converting back only clears undeclared flags, idempotently |
| Dac.SameStatusIffSameCanonical | ether-dream/src/dac/mod.rs:257-258 | two wire statuses mean the same exactly when they differ in undeclared flags and unused source flags only |
| Dac.DacState.UpdateStatus | ether-dream/src/dac/mod.rs:276-290 | succeeds exactly when the conversion does, with the same state or error; on failure the exact part already overwritten |
| Dac.UpdateAfterToProtocol | ether-dream/src/dac/mod.rs:276-315 | a mirror updated from any status equals it, whatever it held before |
| Dac.StatusOnTheWire | ether-dream/src/dac/mod.rs:293-315 | the wire form carries every field under its own name and the states by their documented numbers |
| Dac.UnreadableUpdate | ether-dream/src/dac/mod.rs:276-290 | an unreadable status is taken over up to the first unknown state and no further |
| Emulator.EmulatedDac.constructor | dac-emulator/src/stream.rs:34-40 | a new emulator has nothing queued and nothing due |
| Emulator.EmulatedDac.ProcessCommand | dac-emulator/src/stream.rs:321-455 | the new state and the response are those of the specification functions, for every command and bounded state |
| Emulator.EmulatedDac.ProcessInterpretedCommand | dac-emulator/src/stream.rs:297-318 | unknown bytes are answered NAK - Invalid with the byte echoed, state unchanged |
| Emulator.EmulatedDac.CatchUp | dac-emulator/src/stream.rs:246-267 | the catch-up loop pops one point per slot passed, where the slot count is a closed formula |
| Emulator.EmulatedDac.EmitPoints | dac-emulator/src/stream.rs:236-269 | nothing outside `Playing`; otherwise the emission time is fixed once and the loop runs to the given instant |
| Engine.CommandKeepsInv | dac-emulator/src/stream.rs:297-455 | every command keeps: queue within capacity and equal to the reported fullness, non-idle implies ready, prepared implies no count and no emission time |
| Engine.EmitKeepsInv | dac-emulator/src/stream.rs:236-269 | every emission keeps the same |
| Engine.DataTakesLongestPrefix | dac-emulator/src/stream.rs:381-398 | a data command takes the longest prefix that fits; ACK exactly for the whole payload, NAK - Full exactly for less |
| Reference.AnswersAsDocumentedIff | ether-dream/src/protocol.rs:447-539 | in reachable states every answer is the documented one, except exactly those to unknown bytes, to `ClearEmergencyStop` in `Ready` and in emergency stop, and to `PointRate` outside `Idle` when the documented rate buffer is full |
| Reference.UnknownByteStopsIff | ether-dream/src/protocol.rs:505-510 | an unknown byte has the documented effect of an emergency stop exactly when the DAC is already stopped |
| Reference.RateAsDocumentedIff | ether-dream/src/protocol.rs:474-484 | over every run the rate is the documented one exactly when the rate given last, be it waiting or passed over for lack of room, equals the documented current one |
| Reference.RateWhilePlayingIff | ether-dream/src/protocol.rs:152-158 | from a playing DAC with no rate waiting and room for those to come, until the next stop: exactly when no rate waits or the last one waiting is the current one |
| Reference.CountersAsDocumentedIff | ether-dream/src/protocol.rs:107-116 | after any run of a fresh connection rate and count are as documented exactly when a playing DAC has shown fewer than 2^32 points and an idle one a multiple of 2^32 and was last given rate zero |
| Reference.FixedOverRun | dac-emulator/src/stream.rs:236-455 | no run changes a flag, the data source or the protocol version, and the light engine only by an emergency stop |
| Reference.EmergencyStopFlaggedIff | ether-dream/src/protocol.rs:67-79 | the documented emergency-stop flag is right after a run of a fresh connection exactly when the run had no emergency stop |
| Reference.PlaybackFlagsAsDocumentedIff | ether-dream/src/protocol.rs:80-89 | after any run of a fresh connection the documented playback flag for emergency stop is right exactly when none arrived during a stream, and the one for underflow always is |
| Reference.ClearAcknowledgedIffNothingToClear | dac-emulator/src/stream.rs:429-440 | over the runs of a fresh connection clearing is acknowledged exactly until an emergency stop is received |
| Reference.SourceFlagsAsDocumentedIff | ether-dream/src/dac/mod.rs:164-170 | the decoded SD-card flags say what the documented bits say, exactly when bit 0 is set (`PLAYING`) and when bits 0 and 1 are equal (`REPEAT`) |
| Reference.EffectFieldByField | dac-emulator/src/stream.rs:326-448 | for each part of the state, exactly the accepted commands that change it and to what |
| Timing.IntervalIsFloor | dac-emulator/src/stream.rs:458-463 | the interval is the period rounded down to nanoseconds; missing exactly for rate zero, zero exactly above 10^9 |
| Timing.RoundedInterval | dac-emulator/src/stream.rs:458-463 | with any relative error of 2^-53 in the two floating-point results the interval is that one, or one nanosecond less at rates that divide 10^9 |
| Doubles.IntervalAsComputed | dac-emulator/src/stream.rs:458-463 | with every operation rounded to a nearest double, ties either way, the program computes exactly that interval, at every rate |
| Timing.SlotsAreCeiling | dac-emulator/src/stream.rs:252-257 | the slot count is the elapsed time over the interval, rounded up |
| Timing.SlotsUnique | dac-emulator/src/stream.rs:252-257 | no other count leaves the loop where it ends |
| Timing.CatchUpEndsIff | dac-emulator/src/stream.rs:252-257 | the loop ends exactly when nothing is due or the interval is positive |
| Timing.FireOutcome | dac-emulator/src/stream.rs:248-265 | panics and hangs exactly at unusable rates; else shows min(queue, slots) points, `Underflowed` exactly when no slot was due or nothing queued |
| Timing.RateBound | dac-emulator/src/stream.rs:248-257 | the slot count over an elapsed time stays within the rate from below and within the interval's rounding from above |
| Timing.SlotsCompose | dac-emulator/src/stream.rs:252-254 | stopping at an intermediate instant passes the same slots |
| Timing.PollScheduleIndependence | dac-emulator/src/stream.rs:236-269 | any nondecreasing series of emissions equals one at the last instant, in output, queue, next slot and counters |
| SteadyPlay.KeepsInStep | dac-emulator/src/stream.rs:236-269 | over any run mixing emissions with commands that neither stop nor change the rate: the next slot is the first one plus the slots of the whole time, and the points shown are at most those slots, exactly those if and only if no emission found the queue short |
| SteadyPlay.NoDrift | dac-emulator/src/stream.rs:236-269 | over any such run with the queue never short, the number shown keeps to the rate from first slot to last instant |
| Traces.Run | dac-emulator/src/stream.rs:236-455 | every state reachable by commands and emissions satisfies the invariant |
| Traces.Conservation | dac-emulator/src/stream.rs:252-259 | points accepted since the last prepare are, in order, those shown then those queued; the count is the number shown |
| Traces.EveryBatchIsLit | dac-emulator/src/stream.rs:326-448 | behind every batch: accepted prepare, then points taken into the empty queue, then begin, and no accepted stop since |
| Traces.NoLightWithoutPermission | dac-emulator/src/stream.rs:236-268 | the same from any idle state, with no history assumed |
| Traces.PlaybackMoves | dac-emulator/src/stream.rs:328-426 | playback moves only idle to prepared to playing and back to idle, each exactly by its accepted command |
| Traces.EmergencyStopLatches | dac-emulator/src/stream.rs:419-440 | after an emergency stop no run shows or changes anything, and every command but emergency stop and ping is refused |
| Traces.EmergencyStopEntersLatch | dac-emulator/src/stream.rs:420-426 | an emergency stop is always accepted and enters that state |
| Traces.ClearIsAcknowledgedIffReady | dac-emulator/src/stream.rs:429-440 | clearing is acknowledged exactly in `Ready`, and changes nothing |
| SelectLoop.ActKeepsInv | dac-emulator/src/stream.rs:115-123 | each action at an await point keeps: a waiting emission has its time, and playback is on unless a stop awaits its response |
| SelectLoop.Exec | dac-emulator/src/stream.rs:115-123 | every interleaving keeps that invariant |
| SelectLoop.UnwrapNeverFails | dac-emulator/src/stream.rs:246-249 | the unwrap of the emission time never fails |
| SelectLoop.FiresLateIffStopUnanswered | dac-emulator/src/stream.rs:115-123 | a timer fires with playback off exactly while an accepted stop or emergency stop awaits its response |
| SelectLoop.LateOutputBounded | dac-emulator/src/stream.rs:236-294 | late emissions never outnumber departures from `Playing`, from any point of a run |
| SelectLoop.LightAfterEmergencyStop | dac-emulator/src/stream.rs:419-426 | a run from a fresh connection in which a batch leaves after the emergency stop was accepted |
| SelectLoop.AtMostOneBatchAfterEmergencyStop | dac-emulator/src/stream.rs:419-426 | in every interleaving after an accepted emergency stop at most one emission follows, and none unless one was waiting while the response was being written |
| SelectLoop.EmissionFollowsEmergencyStopIff | dac-emulator/src/stream.rs:419-426 | after an accepted emergency stop some interleaving emits exactly when an emission is waiting and the response unfinished |
| SelectLoop.LightFollowsEmergencyStopIff | dac-emulator/src/stream.rs:419-426 | some interleaving shows points exactly when moreover a point is queued and the rate is usable |
| SelectLoop.AnswerOne | dac-emulator/src/stream.rs:115-123 | whatever the emission is doing, the loop takes the next command, answers it and starts a new turn |
| SelectLoop.PolledOffStaysSilent | dac-emulator/src/stream.rs:236-269 | an emission first polled while playback is off gives no output before the next response is finished, whatever is taken meanwhile |
| SelectLoop.PolledShows | dac-emulator/src/stream.rs:236-265 | in any turn whose emission was not polled with playback off, a poll and a timer past the due time show points, response pending or not |
| SelectLoop.FinishedShows | dac-emulator/src/stream.rs:115-123 | from a turn still answering, finishing the response, a poll and a timer show points |
| SelectLoop.LightComesIff | dac-emulator/src/stream.rs:115-123 | without a further command the loop can show points exactly when it plays points at a usable rate, or a late emission of some is pending |
| SelectLoop.LoopConserves | dac-emulator/src/stream.rs:252-259 | conservation and order over every run of the loop, late output and dropped responses included |
| SelectLoop.LoopRefinesAtomicRun | dac-emulator/src/stream.rs:108-123 | a run of the loop without late emission is the atomic run of the same commands and emissions, responses and outputs alike |
| Framing.PeekSize | dac-emulator/src/stream.rs:142-219 | the size asked for is a function of the peeked bytes over the stale ones |
| Framing.ReadFromTcpStream | dac-emulator/src/stream.rs:138-226 | the read through the reused scratch buffer delivers, consumes and fails as the specification function says; on a closed stream or a panic nothing is consumed |
| Framing.ReadsBack | dac-emulator/src/stream.rs:155-219 | a command's bytes are read back as it, whatever the scratch buffer held, exactly when the buffer is long enough |
| Framing.StaleBytesIrrelevantIff | dac-emulator/src/stream.rs:176-190 | stale bytes never affect a data command exactly when the header peek found all three bytes |
| Framing.ReadersAgree | dac-emulator/src/stream.rs:155-223 | the emulator, through the readers of the command types, delivers exactly what the runtime reader does, save 0xff and commands beyond the scratch buffer; no type's reader rejects the byte it was picked for |
| Framing.FailuresIff | dac-emulator/src/stream.rs:142-223 | a read fails as closed exactly on an empty stream, out of bounds exactly when more is asked for than the scratch buffer holds, and with a whole header at the end of the stream exactly when that comes first |
| Framing.CutCommand | dac-emulator/src/stream.rs:155-219 | a command that fits, cut short anywhere behind its header, is an unexpected end of the stream |
| Framing.UnknownByteIsNeverConsumed | dac-emulator/src/stream.rs:222-225 | an unknown byte is reported by every further read and stays in the stream |
| Framing.ScratchSufficesIff | dac-emulator/src/stream.rs:80-88 | the allocated buffer holds every fitting command and every response exactly for capacities of at least two |
| Framing.FramingRoundTrip | dac-emulator/src/stream.rs:138-226 | the bytes of any fitting command list are cut back into that list with nothing left over |
| Client.EnqueueTiles | ether-dream/src/dac/stream.rs:187-288 | a builder call adds its command and keeps the ranges tiling the point buffer |
| Client.BuilderTiling | ether-dream/src/dac/stream.rs:187-288 | any calls queue, in order, the commands the calls are sent as; they fail exactly on a payload of 65535 points or more |
| Client.QueuedStartByte | ether-dream/src/dac/stream.rs:305-347 | every kind of queued command is sent under its own start byte |
| Client.SentAsNamedIff | ether-dream/src/dac/stream.rs:263-280 | what is sent is what the calls are named after exactly when none is about the emergency stop; neither emergency-stop command is ever sent |
| Client.QueueSendsWholeBuffer | ether-dream/src/dac/stream.rs:318-328 | the payloads of a tiled queue are the whole point buffer, once and in order |
| Client.HostStream.QueueCommands | ether-dream/src/dac/stream.rs:107-111 | a new queue starts empty |
| Client.HostStream.AddCall | ether-dream/src/dac/stream.rs:187-288 | a builder call is the queue operation, panicking exactly when that fails |
| Client.HostStream.SendCommand | ether-dream/src/dac/stream.rs:526-538 | one write of the command's bytes, which may be cut or fail |
| Client.HostStream.RecvResponse | ether-dream/src/dac/stream.rs:541-555 | outcome, mirror and unread bytes as specified; the mirror moves only after the checks |
| Client.ChecksIff | ether-dream/src/dac/stream.rs:360-391 | the checks pass exactly for the right echo with none of the codes `F`, `I`, `!`; each code has its error, a wrong echo its own |
| Client.RecvOneIff | ether-dream/src/dac/stream.rs:541-555 | success, error, mirror and bytes left of one response, told from its bytes |
| Client.HostStream.SendQueued | ether-dream/src/dac/stream.rs:297-350 | the first loop writes every queued command in order, up to the first write that fails, and notes the bytes to be echoed |
| Client.HostStream.TakeResponses | ether-dream/src/dac/stream.rs:352-357 | the second loop takes in one response per noted byte until one fails |
| Client.HostStream.Submit | ether-dream/src/dac/stream.rs:294-358 | writes the queued commands; if a write fails, an I/O error with mirror and unread bytes untouched, else takes in responses until the first failure |
| Client.SentWholeIff | ether-dream/src/dac/stream.rs:526-538 | what reaches the wire is the bytes of the whole command list exactly when every write was whole |
| Client.SendingStopsAtFailure | ether-dream/src/dac/stream.rs:305-347 | nothing is sent after a write that fails |
| Session.ServedStream.constructor | dac-emulator/src/stream.rs:78-93 | a new connection has an empty queue and a scratch buffer for the largest command |
| Session.ServedStream.ReadCommandAndRespond | dac-emulator/src/stream.rs:274-294 | reads one command, processes it and writes its response once; a write may be cut, and fails only after the state has changed |
| Session.ServeAllRefinesRun | dac-emulator/src/stream.rs:274-294 | serving the bytes of a command list is the run of that list: states, outputs and response bytes |
| Session.ServiceEnds | dac-emulator/src/stream.rs:107-130 | the first read that finds no whole command ends the service: everything before it is served as ever, and nothing follows |
| Session.ResponsesEcho | dac-emulator/src/stream.rs:321-455 | responses echo the start bytes in order and carry the status of their moment; one each unless the emulator died |
| Session.UnknownByteBlocksStream | dac-emulator/src/stream.rs:222-225 | from an unknown byte on every response is NAK - Invalid with that byte, whatever follows it, and the state is that of the emissions alone |
| Session.PipelinedResponses | ether-dream/src/dac/stream.rs:352-379 | success exactly when all responses are there and none refuses; the first refusal fixes error, mirror and unread bytes |
| Session.SessionCorrect | ether-dream/src/dac/stream.rs:294-358 | host bytes through the emulator and back give the verdicts' result, under every interleaving with emissions; a host left without responses by a hanging emulator waits for ever |
| Session.SessionEndings | ether-dream/src/dac/stream.rs:294-358 | success exactly when every command was acknowledged; else the first refusal with what follows it unread, or, where the emulator died first, an I/O error or waiting for ever |
| Session.StaleResponseRejectedIff | ether-dream/src/dac/stream.rs:352-357 | a response left unread by a refused submission is rejected by the next one exactly when it echoes another command than the first |
| Session.MirrorAgreement | ether-dream/src/dac/stream.rs:541-555 | after success the mirror is the emulator's status when it built the last response, with nothing unread |
| FlowControl.AcceptedStaysBelow | dac-emulator/src/stream.rs:326-448 | a command accepted in a state is accepted with fewer points queued, and stays ahead |
| FlowControl.EmissionsOnlyHelp | dac-emulator/src/stream.rs:236-455 | a command list accepted when run alone is accepted under every interleaving with emissions, with no more points queued |
| FlowControl.AcceptedSubmission | ether-dream/src/dac/stream.rs:294-358 | such a list submitted over the wire succeeds, and the mirror bounds the queue |
| FlowControl.AcceptedPointsBooked | dac-emulator/src/stream.rs:381-398 | every acknowledged point enters the books, in the order sent |
| FlowControl.StartAcceptedIff | ether-dream/examples/dac_stream.rs:59-72 | the start-up is accepted without underflow exactly for capacities of at least two |
| FlowControl.RoundKeepsStreaming | ether-dream/examples/dac_stream.rs:75-90 | one turn meets no refusal and keeps queue at most mirrored fullness at most capacity less one |
| FlowControl.GeneratesToFill | ether-dream/examples/dac_stream.rs:104-106 | the amount sent and the mirrored fullness make up the capacity less one; nothing exactly where the subtraction underflows |
| FlowControl.RoundFills | ether-dream/examples/dac_stream.rs:75-81 | at the answer of a turn the DAC holds one point less than it can, but for the points shown since the answer before |
| FlowControl.QuietRoundFills | ether-dream/examples/dac_stream.rs:75-81 | a turn with no emission since the answer before leaves exactly capacity less one points queued |
| FlowControl.LastAnswerExact | dac-emulator/src/stream.rs:381-398 | the fullness in the last answer and the points shown before it make up what was queued and what was sent |
| FlowControl.QueueAndSubmit | ether-dream/examples/dac_stream.rs:78-81 | queueing and submitting is the exchange of the commands the calls are sent as, failing exactly on over-long payloads |
| FlowControl.PrepareDac | ether-dream/examples/dac_stream.rs:36-40 | the prepare is accepted and leaves an empty, prepared DAC and a mirror that says so |
| FlowControl.SendFirst | ether-dream/examples/dac_stream.rs:59-64 | the first points and the begin are accepted; the DAC plays, or died of its rate |
| FlowControl.SendMore | ether-dream/examples/dac_stream.rs:75-81 | one turn of the loop, in the same terms, which sends exactly what fills the DAC as far as the mirror tells |
| FlowControl.StreamPoints | ether-dream/examples/dac_stream.rs:35-90 | every turn is made and answered, with no refusal, underflow or panic; the points shown then queued are those of the source in order; mirror and points shown make up all that was sent; it ends only on an unusable rate |
| Interleaving.EveryLoopBatchIsLit | dac-emulator/src/stream.rs:108-123 | in every interleaving of the select loop each batch has an accepted prepare, points and begin behind it and no stop since, or only the stop directly before it |
| Interleaving.NoLoopLightWithoutPermission | dac-emulator/src/stream.rs:108-123 | the same from any idle state with no history assumed |
| Interleaving.NoLateOutputWithoutStop | dac-emulator/src/stream.rs:236-294 | a loop that takes no stop never emits late |
| Interleaving.AtomicWithoutStop | dac-emulator/src/stream.rs:108-123 | so its answers and output are an atomic run of the same commands and emissions |
| Interleaving.LoopNeverRefuses | dac-emulator/src/stream.rs:236-455 | a command list accepted when run alone is never refused in any interleaving, and the queue stays within the fullness last reported |
| Interleaving.AllDeliveredIff | dac-emulator/src/stream.rs:115-123 | every response is delivered, lost or still being written; the client gets all, in order, exactly when no timer fires while one is being written |
| Interleaving.StartsStreaming | ether-dream/examples/dac_stream.rs:36-72 | in any interleaving that answers it the start-up of the streaming client is accepted |
| Interleaving.StreamsThroughLoop | ether-dream/examples/dac_stream.rs:75-90 | in any interleaving, over any number of answered turns, the streaming client gets one response each, no refusal, and its credit stays covered |
| Interleaving.BuilderNeverReachesEmergencyStop | ether-dream/src/dac/stream.rs:263-280 | whatever calls are queued, in any interleaving, the light engine stays as it was |

## Left out

- Exponent overflow, underflow and the other rounding modes of floating point: none occurs in the rate interval.
- The shutter flag, which the documentation gives no rule for.
- Sockets, the async runtime, timeouts, connecting, socket options, UDP discovery and the broadcaster: plumbing around the parts modelled.
- The handshake response and `DacBroadcast`: they only supply the initial status.
- Bytes lost when the select loop drops a half-finished read: `SelectLoop` has no half-finished reads, and `Session` takes the read-and-respond step as running to completion. Lost responses are modelled.
- A read error ends the program's select loop; `SelectLoop` has no such action, its runs simply stop there.
- Peeks that find only part of a `Data` header: `Framing` says what they do; `Session` and `FlowControl` take headers to arrive whole.
- Failing and partial TCP writes beyond the host's and the emulator's own methods: `Session` and `FlowControl` take every write as whole.
- The endless catch-up loop itself: `Emulator.EmulatedDac.CatchUp` returns an outcome where the program would not return.
- The host loop of the example after a failed first submission: the program goes on to a submission that fails on the dead connection; the model ends there.
- The sine wave of the example, the visualiser and the `Display` and `Error` implementations: an arbitrary point source stands for the first, the others have no properties of interest.
- The `Mutex` around the shared state: each locked section is one step.
