# PicoMesh in Dafny

A model of the hard parts of PicoMesh, a fixed-capacity messaging core for microcontrollers, with proofs of
what it promises: the frame codec and its stream parser, the retry queue, sequence tracking, the
interrupt-driven I2C mailbox, and the command exchange that composes them. Each file of the firmware that
updates state is a class whose methods have the original's loops and branches; each method is proved equal to
a pure specification function, and the results below are lemmas about those functions over every input, every
run or every interleaving.

| file | what it holds |
|---|---|
| `Bytes.dfy`, `Checksum.dfy`, `Codec.dfy` | 8- and 32-bit values, the additive checksum, frames and their wire form |
| `StreamDecoding.dfy` | the incremental decoder, a recursive parser over whole streams, and their agreement |
| `RetryQueue.dfy` | acknowledgement frames, and the eight-slot queue, generic in its type of deadlines |
| `RetryRuns.dfy` | runs of the queue: invariant, 32-bit against integer time, conservation of attempts |
| `RetryKeys.dfy` | the slots as a finite map, and the life of one key as an observer sees it |
| `RetryDrive.dfy` | draining, fairness, and the drive loop of the link simulator |
| `SequenceTracking.dfy`, `LogSummary.dfy` | modulo-256 classification in C++ and Python against unbounded numbers |
| `Mailbox.dfy`, `MailboxSafety.dfy`, `Endpoint.dfy` | the mailbox as a step system, its safety, and the object itself |
| `BusHistory.dfy` | what the bus carried, told from the interrupts alone, and that the mailbox keeps, serves and counts exactly that |
| `CommandExchange.dfy`, `CommandWrap.dfy` | controller, node and an unreliable link; a run that wraps |
| `MailboxExchange.dfy` | the same exchange with the node's mailbox, interrupts included, as its link |
| `Sketches.dfy` | the two example programs as objects |

Conventions. `uint8_t` and `uint32_t` are ranges of the integers and every wrap is written out; the signed
cast in `deadline_reached` is two's complement. A pointer and a length are one sequence. `MessageType` is an
open byte, as the decoder treats it. In the queue a deadline has type `D`: the firmware uses 32-bit ticks
(`WordClock`), the ideal queue integers (`IdealClock`), with the same operations. In the mailbox the handler is
one atomic step over any status bits and any data byte, `publish` is one step for each copied byte and one for
its critical section, and the take of `poll` is one step; memory is sequentially consistent. Fields that only
record the past (`Log` in the mailbox; `newest`, `transmitted`, `polled`, `arrivals`,
`issuedAt`, `readAt` and `Packet.about` in the exchange; the packets of a `Bench`) never influence a step of the code. A controller loop is two events, its
transmission and its read, with anything in between.

Where code and documentation differ, the model follows the code:

- `docs/resource_limits.md` says `dropped_frames()` counts frames that found unread mail. The code also counts
  every byte past the fortieth and every receive overrun; `MailIsConserved` states the sum.
- `docs/protocol.md` says a transmission is removed when it reaches its attempt limit. The code removes it one
  timeout later, with a separate `exhausted` decision.
- `docs/resource_limits.md` asks for timeouts below half the timer range. Exactly half, 2^31, also works.

Two desirable properties fail, and the exact conditions are proved. A read that begins before the first
successful `publish` and outlasts it is torn (`TornExactly`, `TornReadHappens`); every other read is of one
frame. An acknowledgement delayed by a multiple of 256 commands is taken for the wrong command
(`FalseAcceptanceExactly`, `FalseAcceptanceHappens`); nearer ones never are (`NoFalseAcceptance`).

## Model

| member | source | states |
|---|---|---|
| Checksum.Checksum8 | src/checksum.cpp:5-15 | the result is the one byte that, appended, makes the byte sum zero modulo 256 |
| Checksum.VerifyChecksum8 | src/checksum.cpp:17-27 | true exactly for non-empty input whose byte sum is zero modulo 256 |
| Checksum.BalancedByComplement | src/checksum.cpp:5-27 | a byte closes a buffer to a verified one if and only if it is the checksum of that buffer |
| Codec.EncodeFrame | src/frame.cpp:27-43 | the filled part of the 40-byte buffer is the frame's encoding and the rest is zero |
| Codec.DecodeFrame | src/frame.cpp:45-75 | the frame or the first failing check, in the documented order |
| Codec.RoundTrip | src/frame.cpp:27-75 | decoding an encoding gives the frame with clamped length and zero tail |
| Codec.WireLayout | src/frame.cpp:27-43 | the bytes of every encoding: magic, version, type, flags, node, sequence, length, payload, and a last byte that makes the sum zero |
| Codec.LengthIsCutAtThirtyTwo | src/frame.cpp:27-43 | a length of 32 or more is sent as 32 with the whole payload in 40 bytes; a smaller one as it is, and every other field survives |
| Codec.DecodeErrorsExactly | src/frame.cpp:45-65 | for each error, the exact byte strings that give it |
| Codec.TruncationIsCaught | src/frame.cpp:45-65 | every proper prefix of an encoding is rejected: too short below 8 bytes, else a length mismatch |
| Codec.DecodeThenEncode | src/frame.cpp:27-75 | every accepted byte string is reproduced by encoding what it decodes to, and that frame is normalised |
| Codec.EncodingsAreExactlyTheAccepted | src/frame.cpp:27-75 | accepted strings and normalised frames correspond one to one |
| Codec.PrefixFree | src/frame.cpp:45-75 | no accepted string is a proper prefix of another |
| Codec.PaddingIsTrimmed | src/frame.cpp:9-25 | under any padding the frame's own length is found |
| Codec.TrimmedLengthIsTheOnlyCandidate | src/frame.cpp:9-75 | if any prefix of a buffer decodes, its length is the one found |
| Codec.PrefixLengthExactly | src/frame.cpp:9-25 | a non-zero length is found if and only if that prefix, with its checksum repaired, decodes |
| Codec.TrimExactly | ports/pico-sdk/picomesh_pico_transport.cpp:33-35 | a read that starts with a frame (up to its checksum) is cut to it, any other is left as it is |
| Codec.DamageIsCaughtUnlessItCancels | src/frame.cpp:45-65 | damage that keeps length and framing bytes goes unnoticed if and only if its byte differences sum to zero modulo 256 |
| Codec.SingleByteDamageIsCaught | src/frame.cpp:45-65 | any change of any one byte of any encoding is rejected, with the stated error |
| StreamDecoding.StreamDecoder.Reset | src/stream_decoder.cpp:5-8 | the decoder becomes idle |
| StreamDecoding.StreamDecoder.Fail | src/stream_decoder.cpp:10-17 | an error that keeps a last byte equal to the magic as the next candidate |
| StreamDecoding.StreamDecoder.FeedByte | src/stream_decoder.cpp:19-55 | one byte takes the buffer to the specified state and result, the full-buffer branch included |
| StreamDecoding.FeedKeepsReachable | src/stream_decoder.cpp:19-55 | the buffer never fills, only three errors can be reported, and a candidate grows exactly when more is needed |
| StreamDecoding.DecoderRefinesParser | src/stream_decoder.cpp:10-55 | for every stream, events and retained bytes equal those of a recursive parser with restart after errors |
| StreamDecoding.StreamRoundTrip | src/stream_decoder.cpp:19-55 | frames mixed with non-magic noise come out in order, each on its last byte, and the decoder ends idle |
| StreamDecoding.SilenceIsBounded | src/stream_decoder.cpp:19-55 | from every reachable state at most 39 bytes in a row ask for more |
| StreamDecoding.QuietLineResynchronises | src/stream_decoder.cpp:19-55 | 39 bytes without the magic value leave any reachable decoder idle |
| StreamDecoding.QuietBoundIsTight | src/stream_decoder.cpp:19-55 | 38 such bytes need not be enough |
| RetryQueue.WithAckFlag | src/reliability.cpp:61 | bit 0 is set and the other flag bits stay |
| RetryQueue.AckRoundTrip | src/reliability.cpp:12-38 | an acknowledgement survives the wire unchanged and parses to what it was made from |
| RetryQueue.AckOnTheWire | src/reliability.cpp:12-22 | the bytes of every acknowledgement, with its status code and no flag set |
| RetryQueue.AckParsedExactly | src/reliability.cpp:24-38 | exactly two-byte acknowledgement payloads with a known status parse, to those two bytes |
| RetryQueue.ReliableQueue.constructor | src/reliability.cpp:40-44 | an empty queue with the policy's timeout and attempt limit; a zero limit becomes one |
| RetryQueue.ReliableQueue.EnqueueFrame | src/reliability.cpp:46-70 | result and slots of the specification: invalid, duplicate key, first free slot or full |
| RetryQueue.ReliableQueue.NextDueAt | src/reliability.cpp:72-90 | serves the first due slot: send and renew, or exhaust and free |
| RetryQueue.ReliableQueue.AcknowledgeFrame | src/reliability.cpp:92-102 | frees the first slot with the key and resolves by status |
| RetryQueue.ReliableQueue.CancelFrame | src/reliability.cpp:104-112 | frees the first slot with the key |
| RetryQueue.ReliableQueue.PendingCount | src/reliability.cpp:114-122 | the number of active slots |
| RetryQueue.ReliableQueue.ClearAll | src/reliability.cpp:124-128 | every slot is blank |
| RetryRuns.StepKeepsInvariant | src/reliability.cpp:46-128 | every operation keeps keys unique, attempts within the limit, the ACK flag set and payloads within bounds |
| RetryRuns.SendSurvivesTheWire | src/reliability.cpp:72-90 | every frame handed out encodes and decodes to the same fields and active payload |
| RetryRuns.DeadlineReachedExactly | src/reliability.cpp:6-8 | the wrapping comparison equals the integer one if and only if the deadline is less than 2^31 overdue |
| RetryRuns.WordStepRefinesIdeal | src/reliability.cpp:46-128 | one operation on 32-bit deadlines gives the ideal reply and the ideal queue modulo 2^32 |
| RetryRuns.WordRunRefinesIdeal | src/reliability.cpp:6-90 | over every run with non-decreasing time, polled in time, both queues reply alike across any number of wraps |
| RetryRuns.FirmwareRunRefinesIdeal | src/reliability.cpp:6-90 | the same from power-on |
| RetryRuns.StepBudget | src/reliability.cpp:46-128 | a decision costs one unit of budget, an admission brings max_attempts + 1, removals give theirs back |
| RetryRuns.BudgetIsConserved | src/reliability.cpp:40-128 | over every run under any clock: decisions + released + final budget = initial budget + (max_attempts + 1) times admissions |
| RetryRuns.BudgetFromEmpty | src/reliability.cpp:40-128 | the same from an empty queue, in terms of the limit the caller passed (two units for each admission when it is zero) |
| RetryKeys.EnqueueOnKeys | src/reliability.cpp:46-70 | refused exactly for an oversized payload or a key in use; changes no other key |
| RetryKeys.NextDueOnKeys | src/reliability.cpp:72-90 | a decision is about a due key and changes no other; no decision means no key is due |
| RetryKeys.RemoveOnKeys | src/reliability.cpp:92-112 | found exactly when the key is present; removes that key and no other |
| RetryKeys.ActiveCountIsKeyCount | src/reliability.cpp:114-122 | with distinct keys, counting active slots counts keys |
| RetryKeys.SlotsRefineTable | src/reliability.cpp:46-128 | every operation is one step of a finite map of at most eight keys; full exactly with eight other keys |
| RetryKeys.RunIsObserved | src/reliability.cpp:58-86 | over every run in ideal time each key lives the life an outside observer allows: attempts 1, 2, 3 and so on, each no earlier than due, one exhaustion after exactly max_attempts sends |
| RetryKeys.FirmwareLifeCycle | src/reliability.cpp:58-86 | the same for the replies of the 32-bit queue from power-on, with the limit the caller passed (one when it is zero), sends at least a timeout apart and the deadline at least birth + attempts times timeout |
| RetryKeys.ObservedRunsAreGood | src/reliability.cpp:78-86 | in such a life sends are at least a timeout apart and the deadline is at least birth + attempts times timeout |
| RetryDrive.Drain | src/reliability.cpp:72-90 | repeated calls at one tick end, after exactly as many decisions as budget was spent |
| RetryDrive.DrainServesEachDueSlotOnce | src/reliability.cpp:72-90 | if a renewed deadline is not due at once, each due slot is served once, in index order, and no other slot changes |
| RetryDrive.RenewedIsNotDueExactly | src/reliability.cpp:85 | in 32-bit time that holds if and only if 1 <= timeout <= 2^31 |
| RetryDrive.DrainAtOneTick | src/reliability.cpp:72-90 | draining the 32-bit queue serves the due slots once each, in order |
| RetryDrive.EnqueueTakesLowestPlace | src/reliability.cpp:46-70 | a submission is queued exactly when it is well formed, its key is new and a slot is free; it takes the lowest free slot and changes no other |
| RetryDrive.SubmissionsAreServedInOrder | src/reliability.cpp:46-90 | up to eight well-formed frames with different keys, submitted to an empty queue at one tick, are sent at that tick once each, as first attempts, in order of submission |
| RetryDrive.FirmwareServesInOrder | src/reliability.cpp:46-90 | the same for the 32-bit queue with timeouts from 1 to 2^31 |
| RetryDrive.DueSlotIsNotStarved | src/reliability.cpp:72-90 | without submissions a due slot waits for at most the combined budget of lower slots |
| RetryDrive.DecisionsPrecedeAnswers | examples/lossy_link_simulator.cpp:25-47 | the decision of a turn depends on the acknowledgements of earlier turns only |
| RetryDrive.AnsweredIsSilent | examples/lossy_link_simulator.cpp:34-43 | after the turn in which a frame is acknowledged it is neither sent nor given up |
| RetryDrive.DriveStaysInWindow | examples/lossy_link_simulator.cpp:25-47 | for steps up to 2^20 ticks no deadline ever falls 2^31 ticks behind, after any number of turns |
| RetryDrive.SubmittedIsJustEnqueued | src/reliability.cpp:46-70 | submissions at one tick leave fresh slots due at that tick; of up to eight, every well-formed frame has a slot |
| RetryDrive.DriveUntilIdle | examples/lossy_link_simulator.cpp:22-47 | the loop ends with an empty queue for any acknowledgements; a frame never acknowledged is sent exactly max_attempts times and exhausted once, an acknowledged one is silent from the next turn on, and each turn decides at its own tick |
| RetryDrive.Simulate | examples/lossy_link_simulator.cpp:7-47 | the whole program from an empty queue, for any frames, times and acknowledgements: it ends, and each of up to eight well-formed frames that is never acknowledged is sent exactly as often as the limit passed says (once when it is zero) and exhausted once |
| SequenceTracking.SequenceTracker.ObserveSequence | src/sequence_tracker.cpp:5-30 | classification and memory of the specification, other nodes untouched |
| SequenceTracking.SequenceTracker.ResetNode | src/sequence_tracker.cpp:32-37 | forgets one valid node |
| SequenceTracking.SequenceTracker.ResetAll | src/sequence_tracker.cpp:39-42 | forgets every node |
| SequenceTracking.InvalidNodeExactly | src/sequence_tracker.cpp:6-9 | exactly the node numbers from 32 on are refused, and change nothing |
| SequenceTracking.HalfRangeExactly | src/sequence_tracker.cpp:17-29 | less than a cycle apart, byte comparison is integer comparison if and only if the number is in [last - 128, last + 127] |
| SequenceTracking.TrackingRefinesNumbering | src/sequence_tracker.cpp:5-30 | over every run in half range, byte classification is integer comparison for every node |
| SequenceTracking.TrackedNumbersIncrease | src/sequence_tracker.cpp:5-30 | in half range, the true numbers the byte tracker accepts of a node strictly increase, all past the one it remembered, so none is accepted twice |
| SequenceTracking.NodesAreIndependent | src/sequence_tracker.cpp:5-30 | what a node is told, and what it remembers, depends on its own frames only |
| LogSummary.NodeSummary.Observe | scripts/summarize_serial_log.py:41-60 | one observation updates every counter as specified |
| LogSummary.SummaryArithmetic | scripts/summarize_serial_log.py:41-60 | with U = first sequence + accepted forward distances: last = U mod 256, wraparounds = U div 256, frames = 1 + duplicates + forward + stale |
| LogSummary.SummaryAgreesWithTracker | scripts/summarize_serial_log.py:50-60 | every counter is the number of times the C++ tracker gives the matching verdict on the same log |
| LogSummary.MessageTypesAreCounted | scripts/summarize_serial_log.py:44 | the type counter holds exactly the occurrences of each type |
| LogSummary.UnrolledIsTheTrueNumber | scripts/summarize_serial_log.py:50-58 | on a log of true numbers in half range, U is the latest true number less the cycles before the log |
| Mailbox.OnIrq | ports/pico-sdk/picomesh_pico_transport.cpp:172-211 | the step with its history has the effect of the handler and leaves the main thread where it was |
| Endpoint.I2cPeripheralEndpoint.CompleteReceiveFromIsr | ports/pico-sdk/picomesh_pico_transport.cpp:154-170 | ends a write: nothing, refuse and count, or hand over and switch buffers |
| Endpoint.I2cPeripheralEndpoint.HandleIrqNow | ports/pico-sdk/picomesh_pico_transport.cpp:172-211 | state and served byte for any combination of status bits |
| Endpoint.I2cPeripheralEndpoint.PollFrame | ports/pico-sdk/picomesh_pico_transport.cpp:108-140 | takes the waiting mail and decodes exactly its bytes |
| Endpoint.I2cPeripheralEndpoint.Publish | ports/pico-sdk/picomesh_pico_transport.cpp:85-106 | with any interrupts between any two bytes, takes exactly the steps of the step system and succeeds exactly when no read is under way at its critical section |
| MailboxSafety.MailIsConserved | ports/pico-sdk/picomesh_pico_transport.cpp:108-125 | in every run, taken mail followed by waiting mail is exactly the writes (first 40 bytes) that found no unread mail, in order; losses are counted modulo 2^32 |
| MailboxSafety.UnreadMailIsStable | ports/pico-sdk/picomesh_pico_transport.cpp:154-186 | in every run, no step but the take changes unread mail |
| MailboxSafety.WrittenFrameIsPolled | ports/pico-sdk/picomesh_pico_transport.cpp:108-170 | in every run, a frame's encoding written while no mail is unread is what `poll` takes in its turn, whole, and decodes to that frame |
| MailboxSafety.NoTornReads | ports/pico-sdk/picomesh_pico_transport.cpp:85-106 | in every interleaving, the bytes between two resets are zeros, then a prefix of one frame's encoding, then zeros; without leading zeros they are of the frame latched at the first byte |
| MailboxSafety.LeadExactly | ports/pico-sdk/picomesh_pico_transport.cpp:188-194 | leading zeros mean exactly a zero active length, that is, nothing published yet; otherwise the frame is the one most recently published |
| MailboxSafety.TornExactly | ports/pico-sdk/picomesh_pico_transport.cpp:85-106 | a read is not of one frame if and only if it began before the first publish and outlasted it |
| MailboxSafety.TornReadHappens | ports/pico-sdk/picomesh_pico_transport.cpp:85-106 | a run with such a read, for any frame |
| MailboxSafety.StretchedFrameDecodes | ports/pico-sdk/picomesh_pico_transport.cpp:33-35 | a padded read decodes to its frame, a shortened one to nothing |
| MailboxSafety.ControllerReadsExactly | ports/pico-sdk/picomesh_pico_transport.cpp:23-36 | a controller accepts a read if and only if it began with a published frame and is long enough, and gets that frame |
| MailboxSafety.FortyByteReadsDeliverTheFrame | ports/pico-sdk/picomesh_pico_transport.cpp:188-205 | end to end in every run: a 40-byte read delivers exactly the normalised frame published when it began |
| BusHistory.RecordIsTheBus | ports/pico-sdk/picomesh_pico_transport.cpp:172-211 | in every run the recorded writes, reads and overruns are those of the bus, told from the interrupts alone: a byte that comes with a STOP belongs to the write it ends, a byte requested with a STOP or abort to the read it ends |
| BusHistory.BusMailIsConserved | ports/pico-sdk/picomesh_pico_transport.cpp:108-211 | so taken and waiting mail are the unblocked writes on the bus, in order, and the drop counter is the losses on the bus modulo 2^32 |
| BusHistory.StopHandsOverTheWrite | ports/pico-sdk/picomesh_pico_transport.cpp:154-200 | in every run a STOP without unread mail hands over the whole write (first 40 bytes), with the byte reported in the same interrupt |
| BusHistory.ReadsAreAnswered | ports/pico-sdk/picomesh_pico_transport.cpp:188-205 | exactly the requests are answered, and a STOP or abort restarts the read |
| BusHistory.PollTakesUnread | ports/pico-sdk/picomesh_pico_transport.cpp:108-125 | a poll takes the unread mail, all of it, and nothing else |
| BusHistory.RefusalExactly | ports/pico-sdk/picomesh_pico_transport.cpp:95-105 | in every run a completed copy is published unless a read of a published frame is under way |
| BusHistory.BusReadsAreClean | ports/pico-sdk/picomesh_pico_transport.cpp:188-205 | every finished read on the bus is zeros, then one frame's encoding, then zeros |
| CommandExchange.HeartbeatCarriesUptime | examples/PicoSdkI2cNode/main.cpp:20-33 | the receiver of a heartbeat finds the uptime in its four payload bytes, least significant first |
| CommandExchange.CommandKeepsWaiting | examples/ArduinoReliableCommandController/ArduinoReliableCommandController.ino:21-36 | a command issued by the loop is never refused, and the queue holds the newest command only |
| CommandExchange.TransmitKeepsWaiting | examples/ArduinoReliableCommandController/ArduinoReliableCommandController.ino:38-57 | what is transmitted is the encoding of the newest command |
| CommandExchange.CommandOnTheWire | examples/ArduinoReliableCommandController/ArduinoReliableCommandController.ino:21-28 | the bytes of command n |
| CommandExchange.TransmitsExactly | examples/ArduinoReliableCommandController/ArduinoReliableCommandController.ino:38-57 | a pending command is sent exactly when it is due and has been sent less than three times; then it waits 250 ticks |
| CommandExchange.AnswerIsUnderstood | examples/ArduinoReliableCommandController/ArduinoReliableCommandController.ino:59-74 | any complete acknowledgement, of any node and status, is applied to the key it names; a cut one to none |
| CommandExchange.OtherReadsResolveNothing | examples/ArduinoReliableCommandController/ArduinoReliableCommandController.ino:59-72 | a read that is not a two-byte acknowledgement with a known status changes nothing |
| CommandExchange.ReceiveExactly | examples/ArduinoReliableCommandController/ArduinoReliableCommandController.ino:59-81 | a complete acknowledgement resolves the pending command if and only if the numbers agree modulo 256; any other read changes nothing |
| CommandExchange.NodeIgnoresTheRest | examples/PicoSdkI2cNode/main.cpp:61-70 | no mail, undecodable mail and frames without the ACK flag publish nothing and use no sequence number |
| CommandExchange.NodeAnswersTheFlagged | examples/PicoSdkI2cNode/main.cpp:66-69 | every frame with the flag is acknowledged as accepted, with its own sequence |
| CommandExchange.NodeReplyToCommand | examples/PicoSdkI2cNode/main.cpp:61-70 | the node answers every polled command with its sequence, accepted |
| CommandExchange.HappenIsLoop | examples/ArduinoReliableCommandController/ArduinoReliableCommandController.ino:91-105 | whatever the node does between transmission and read, the two events are one call of the loop: same state, same bytes transmitted, same resolution |
| CommandExchange.NoFalseAcceptance | examples/ArduinoReliableCommandController/ArduinoReliableCommandController.ino:21-105 | in every run with a losing, duplicating, reordering link, an acknowledgement fewer than 256 commands away resolves exactly the command it was made for, which the node has polled |
| CommandExchange.FalseAcceptanceExactly | src/reliability.cpp:92-102 | without that hypothesis, the wrong command is accepted if and only if the numbers differ and agree modulo 256 |
| CommandExchange.LoopIsPaced | examples/ArduinoReliableCommandController/ArduinoReliableCommandController.ino:91-105 | in every run commands are issued by the loop at least 5000 ticks apart, and reads are at least 20 ticks apart, modulo 2^32 and counted from 0 |
| CommandExchange.SpacedMeans | examples/ArduinoReliableCommandController/ArduinoReliableCommandController.ino:94-104 | what such spacing says of any two ticks in a row, and of the first |
| CommandExchange.IssuesExactly | examples/ArduinoReliableCommandController/ArduinoReliableCommandController.ino:94-97 | in every run a loop issues a command if and only if nothing is pending and 5000 ticks have passed since the last issue |
| CommandExchange.ReadsExactly | examples/ArduinoReliableCommandController/ArduinoReliableCommandController.ino:101-104 | in every run a loop reads if and only if 20 ticks have passed since the last read; otherwise that part changes nothing |
| CommandExchange.TransmissionsAreBounded | examples/ArduinoReliableCommandController/ArduinoReliableCommandController.ino:38-57 | in every run each command is put on the link at most three times, and the node polls only commands that were |
| CommandWrap.FalseAcceptanceHappens | src/reliability.cpp:92-102 | a run of 257 commands in which it happens |
| MailboxExchange.MailboxReadIsLinkRead | ports/pico-sdk/picomesh_pico_transport.cpp:23-36 | to the controller any read the mailbox serves is a cut or padded read of one reply, or resolves nothing |
| MailboxExchange.MailboxRefinesLink | examples/PicoSdkI2cNode/main.cpp:46-74 | every run over the mailbox, with any interrupts between any two bytes, is for both ends a run over the unreliable link |
| MailboxExchange.NoFalseAcceptanceOverMailbox | ports/pico-sdk/picomesh_pico_transport.cpp:85-211 | so, within 256 commands, a read of the mailbox resolves exactly the command it answers, which the node has polled |
| Sketches.CommandController.constructor | examples/ArduinoReliableCommandController/ArduinoReliableCommandController.ino:16-89 | the state after setup |
| Sketches.CommandController.EnqueueCommand | examples/ArduinoReliableCommandController/ArduinoReliableCommandController.ino:21-36 | queue, sequence number and result of the specification |
| Sketches.CommandController.TransmitDue | examples/ArduinoReliableCommandController/ArduinoReliableCommandController.ino:38-57 | queue and transmitted bytes of the specification |
| Sketches.CommandController.ReceiveAcknowledgement | examples/ArduinoReliableCommandController/ArduinoReliableCommandController.ino:59-81 | queue and resolution of the specification |
| Sketches.CommandController.LoopOnce | examples/ArduinoReliableCommandController/ArduinoReliableCommandController.ino:91-105 | one loop: maybe a command, maybe a transmission, maybe a read |
| Sketches.PicoNode.PublishHeartbeat | examples/PicoSdkI2cNode/main.cpp:20-33 | the steps of one publish; the sequence number advances whether or not it succeeds |
| Sketches.PicoNode.PublishAcknowledgement | examples/PicoSdkI2cNode/main.cpp:66-69 | the steps of publishing the acknowledgement; its sequence number is used up in any case |
| Sketches.PicoNode.PollAndAcknowledge | examples/PicoSdkI2cNode/main.cpp:61-70 | one poll step, then the steps of publishing the reply the exchange specifies |

## Left out

- Register setup, pins, interrupt installation and endpoint ownership: hardware calls; the handler consumes status bits and a data byte.
- Memory barriers, `volatile` and a second core: one main thread and one handler, sequentially consistent.
- Null pointers: a pointer and a length are one sequence.
- `UartTransport` and the Wire bus calls: thin wrappers over unseen libraries. The Wire peripheral endpoint is a simpler single-buffer form of the mailbox.
- `NodeRegistry`: one wrapping subtraction and a fixed count, which would add only easy members.
- The rest of the log script: regular expressions, rendering and online counts.
- Printing in the sketches and the simulators, and the bus's verdict on a transmission, which the sketch only prints.
- The pace of the node's main loop (a heartbeat each second, one poll each millisecond): heartbeats and polls may come at any time.
- Forged writes: over the mailbox, what the node finds is a copy of some transmitted command or damage that the frame checks reveal (`DamageIsCaughtUnlessItCancels` says which is not).
- Eventual delivery: nothing in the code ensures it, and an exhausted command may have been applied.
- Resynchronisation on arbitrary back-to-back traffic without a gap: the decoder does not promise it.
- Sequence tracker resets inside a tracked run: the theorems are about runs between resets.
- Publish: the length guard at its start cannot fail (an encoding has 8 to 40 bytes) and has no branch in the model.
