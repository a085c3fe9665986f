# Verified model of the KCP control block and the SOCKS5 address codec

This project models two parts of a tokio protocol library in Dafny 4.11 and proves properties of them.

**The KCP control block** is an automatic-repeat-request protocol kept as one mutable object. It cuts messages
into fragments, stamps and retransmits segments, takes in datagrams with cumulative and selective
acknowledgements, reorders arrivals and reassembles messages, and schedules itself on a wrapping 32-bit clock.
The model has three layers.

- `ControlBlock.dfy` is the object: the program's fields, updated in place by the program's methods and loops.
- `Protocol.dfy` says, on values, what each operation does to an endpoint; every method of the object is proved
  equal to its operation there, bytes written included. The parts live in modules of their own: `SendWindow`,
  `ReceiveWindow`, `Message`, `RttEstimator`, `CongestionWindow`, `Retransmission`, `WindowProbe`, `Timer`,
  `Packing`.
- `Link.dfy` and `Network.dfy` compose two endpoints with a network that may lose, repeat, delay and reorder
  segments, using those same operations; `Recovery.dfy` says what remains possible after losses. `ByteNetwork.dfy`
  is the same system on datagrams of bytes, as `flush` writes and `input` reads them, and is proved to refine the
  segment-level one; `Datagram.dfy` and `Delivery.dfy` lead there, and `ByteRecovery.dfy` carries recovery over.
- `Effects.dfy` says what each operation does once more without the functions that compute it: by the numerals of the
  wire format, the fields before and after, and the segments handed out.
- `Runs.dfy` is about one endpoint against any environment, and `Departures.dfy` holds concrete runs on which the
  program does not do what it is for.

**The SOCKS5 address codec** (`Socks5.dfy`) is the address field of section 5 of RFC 1928: writer, parser and
length. `AddressFormat.dfy` gives its layout byte by byte, and UTF-8 by code point.

The main results are

- `ByteNetwork.EndToEndSafety`: in every run on bytes, what an application is given is a prefix of what the other one
  sent, as long as no fragment can be taken for a segment; and `Departures.ForgedMessage`: otherwise it need not be;
- `ByteNetwork.RunRefines`, `ByteNetwork.NothingIsLost` and `ByteNetwork.HeadOfLine`;
- `ByteRecovery.RecoveryOnBytes`: no reachable state is a dead end, even if everything on its way is lost, exactly
  when the messages fit the receive window;
- `Confluence.ArrivalsAreCanonical`: the receive path depends on the set of arrivals only;
- `Datagram.InputUndoesEncode` with its exact boundary, and `Packing.FlushConserves`;
- `Runs.SpacingOverRun`, `Runs.RequestsOverRun` and `Runs.GrowthOverRun`: timers and congestion window over whole
  runs;
- `Effects.FlushFills`, `Effects.FlushAgain` and `Effects.FlushAdapts`: what a flush gives out, sends again and learns;
- `Timer.WaitingIsSafe` with its converse, `Timer.FlushesAreSpaced`, and `RttEstimator.SteadyConverges`;
- `Socks5.DecodeSucceedsIff` with both round trips, and `AddressFormat.ParserLayout`.

## Reading the model

- Sequence numbers and the counters of the congestion window are natural numbers. The program compares sequence
  numbers directly, without wrap-around. `CongestionWindow.AdvanceFitsWord` and `FlushFitsWord` say when the window
  arithmetic fits 32 bits.
- Clock readings are 32-bit and wrap, as in an optimised build; a debug build stops on overflow instead. The sums
  of the round-trip estimator are truncated to 32 bits as well, and shown not to need it for samples up to
  (2^32-1)/8.
- The probe mask is kept as two booleans, one for each bit.
- The free room that the output buffer reports (`remaining_mut`) belongs to a library that is not part of this
  model. What it means for a flush, whether to write before a segment and whether to write at the end, is a pair of
  arbitrary predicates (`Packing.Packer`). `alone` in `ByteNetwork.dfy` stands for a buffer that asks to be written
  before every segment and at the end (`Packing.OneEach`); reading the room as the free capacity of the buffer
  created at line 160 gives such a buffer.
- Times over a run are counted without wrapping: each clock reading is taken as the next moment that shows it, so
  wraps are included. The spacing of retransmissions is bounded to 2^44 ms (557 years) because a timeout that has
  grown past 2^31 ms makes a segment due again at once (`Retransmission.DueAgainAtOnce`).
- `flush` stamps a segment to which it gives a number twice, on admission (lines 625-636) and when it sends it in the
  same call (lines 655-683); only what is left afterwards can be seen, and that is what `Effects.FlushFirst` states.
- The result of writing a datagram is ignored, as in the program; datagrams are appended to a list.
- `flush` and `input` are one method each in the program. Here some of their blocks are methods of their own, so
  that each has its own contract.
- In `Recovery.dfy` the clock may be set to any 32-bit reading; on a wrapping clock every reading lies ahead.

## Where the code departs from its intention

- `input` is meant to consume `len` payload bytes of each segment, but does so only for a push inside the window
  (lines 476-493); the payload of a repeated or early push is read as further headers.
  `Datagram.CursorReachesNextSegment` gives the exact condition; `Datagram.ShortPayloadIsHarmless`,
  `LongPayloadIsMistaken` and `PayloadIsTakenForSegment` say what happens in each other case. End-to-end safety
  therefore fails of the code for messages whose bytes look like a segment (`Departures.ForgedMessage`). It holds,
  with everything else in `ByteNetwork.dfy`, for messages that are harmless in this respect, which a caller can check
  before `send` (`ByteNetwork.HarmlessMessage`): with one segment per datagram, no fragment of 24 bytes or more may
  begin with an acceptable header, for which it is enough that none begins with the connection number
  (`ByteNetwork.NumberIsEnough`); with any other packing, no fragment may begin with the connection number, not even
  together with the next header. The segment-level results of `Network.dfy` hold of the code under the same condition
  only.
- `send` accepts up to 255 fragments whatever the peer's receive window is. `ByteNetwork.FullQueue`
  and `ByteRecovery.RecoveryOnBytes` show that a message can get through exactly when it has at most `rcv_wnd`
  fragments; `Departures.ThirtyThreeFragments` and `OversizeIsNeverRead` give the default case.
- The comment on `recv` speaks of one error for "try again"; the code has three, for an empty queue, an
  incomplete message and a short buffer.
- An IPv6 flow label and scope are dropped by the SOCKS5 writer; `Socks5.DecodeUndoesEncode` says so.

## Model

| member | source | states |
|---|---|---|
| Machine.TimeDiffIsSignedDistance | src/kcp/kcb.rs:860-862 | `timediff` is the one number in the signed 32-bit range that leads from the earlier reading to the later one on the wrapping clock |
| Wire.DecodeUndoesEncode | src/kcp/kcb.rs:434-445 | reading the header in front of an encoded segment gives every field back, then the payload, then the trailing bytes |
| Wire.SegmentLayout | src/kcp/kcb.rs:52-62 | the 24 bytes of the header by position: connection, command, fragment, window, time, number, cumulative number and length, each low byte first, and the payload behind them |
| Wire.HeaderByPosition | src/kcp/kcb.rs:434-445 | the parser reads each field from those positions |
| Wire.EncodePrefixFree | src/kcp/kcb.rs:52-62 | no encoding of a segment is a proper prefix of another: a byte stream has at most one first segment |
| Message.FragmentShape | src/kcp/kcb.rs:296-304 | fragment i of n is block i of the message, non-empty, of at most mss bytes, with countdown n-1-i; there are as many as counted |
| Message.ReassembleUndoesFragment | src/kcp/kcb.rs:189-206 | on any queue that starts with the fragments of a message, the receiver takes exactly those and joins exactly the message; the size announced is the message size |
| Message.StreamInjective | src/kcp/kcb.rs:296-304 | the fragment stream determines the messages: two lists of sendable messages with the same fragments are equal |
| SendWindow.ScanIsKeepFrom | src/kcp/kcb.rs:350-363 | in a sorted buffer the early-exit scan of a cumulative acknowledgement equals plain removal of everything below it |
| SendWindow.ScanIsWithout | src/kcp/kcb.rs:336-348 | in a sorted buffer the early-exit scan of a selective acknowledgement equals plain removal of that number |
| SendWindow.AcksKeepSender | src/kcp/kcb.rs:329-376 | acknowledgements naming any number keep the send invariant and never move `snd_una` back |
| SendWindow.FrontAckAdvances | src/kcp/kcb.rs:336-348 | acknowledging the front segment moves `snd_una` strictly forward |
| SendWindow.AdmitShape | src/kcp/kcb.rs:624-636 | the numbers given out are consecutive and in queue order |
| SendWindow.AdmitConservesPieces | src/kcp/kcb.rs:622-640 | payload is conserved: window fragments followed by queued fragments stay the same list |
| ReceiveWindow.TakeDataReceives | src/kcp/kcb.rs:378-383 | after an arrival a number is received exactly when it was, or is the arriving number and lies in the window |
| ReceiveWindow.TakeDataMembers | src/kcp/kcb.rs:378-420 | an arrival loses nothing and brings nothing but itself |
| Confluence.ArrivalsAreCanonical | src/kcp/kcb.rs:378-420 | arrivals below the initial end of the window, in any order with any repetition, leave the canonical state of the set of their numbers |
| Confluence.ArrivalsCommute | src/kcp/kcb.rs:378-420 | two arrival sequences with the same numbers leave the same queue, buffer and next number, with the same payloads |
| RttEstimator.SampleMeaning | src/kcp/kcb.rs:308-326 | while samples stay within (2^32-1)/8 so do both estimates, no 32-bit sum is truncated, each estimate is the rounded-down weighted mean of section 2 of RFC 6298, and the timeout is the smoothed time plus four variations or one interval, held between the minimum and 60000 ms |
| RttEstimator.TimeoutInRange | src/kcp/kcb.rs:324-325 | the timeout lies between the configured minimum and 60000 ms |
| RttEstimator.NoOvershoot | src/kcp/kcb.rs:318-322 | under a constant sample the smoothed time moves towards it, never past it, and strictly while 8 or more away |
| RttEstimator.SteadyConverges | src/kcp/kcb.rs:308-323 | under a constant sample the smoothed time settles within 7 of it on its own side, and then the variation at 7 or less |
| CongestionWindow.AdvanceMeaning | src/kcp/kcb.rs:508-528 | an advancing input keeps cwnd*mss <= incr < (cwnd+1)*mss, raises cwnd by at most one and never past the peer window, and always gains at least mss/16 bytes below it |
| CongestionWindow.StepExactly | src/kcp/kcb.rs:508-528 | below the threshold a step is one segment; from it on mss*mss/incr bytes rounded down and a sixteenth of a segment, with cwnd the whole segments in the sum |
| CongestionWindow.FlushMeaning | src/kcp/kcb.rs:707-730 | a flush keeps cwnd*mss <= incr < (cwnd+1)*mss; a timeout leaves one segment and half the window allowed as threshold, a fast retransmission alone half of what is outstanding and that plus the skip count; no threshold is below two |
| CongestionWindow.FlushFitsWord | src/kcp/kcb.rs:707-716 | after a fast retransmission the new window and its product with mss fit 32 bits if and only if the window is at most (2^32-1)/mss |
| CongestionWindow.FlushFitsUsually | src/kcp/kcb.rs:707-716 | they fit with a fast-retransmit count up to 2^15, and never with the count that stands for off |
| CongestionWindow.AdvanceFitsWord | src/kcp/kcb.rs:508-528 | with a 16-bit peer window and mss below 2^16 no 32-bit sum or product of the step overflows |
| CongestionWindow.AdvancesRaise | src/kcp/kcb.rs:508-528 | any run of advancing inputs below the peer window with count*(mss/16) >= mss raises cwnd; at the default mss any 16 (SixteenAdvancesRaise) |
| Retransmission.RetransmissionSpacing | src/kcp/kcb.rs:645-683 | without no-delay the k-th timeout retransmission comes no earlier than m*k*(k+1)/2 ms after the first transmission, for any number of flushes and any fast retransmissions in between, across wraps of the clock, within 2^44 ms |
| Retransmission.DueAgainAtOnce | src/kcp/kcb.rs:661-671 | a retransmission is due again at once if and only if its timeout has grown past 2^31 ms, which is why the spacing is bounded in time |
| WindowProbe.WaitInRange | src/kcp/kcb.rs:572-593 | over every run of flushes the probe wait is 0 or in [7000, 120000] |
| WindowProbe.ZeroWindowProbing | src/kcp/kcb.rs:572-604 | in a stretch of a zero peer window, of any length and across wraps of the clock, the first probe comes at least 7000 ms after its start and the (i+1)-th at least the i-th step of 10500, 15750, ... 120000 ms after the i-th |
| WindowProbe.ProbeExactly | src/kcp/kcb.rs:572-593 | every case of the probe timer: off, started with 7000 ms, waiting, or reached, when it asks and waits half as long again, at most 120000 ms |
| WindowProbe.LadderValues | src/kcp/kcb.rs:579-585 | the successive waits in ms: 7000, 10500, 15750, 23625, 35437, 53155, 79732, 119598, and 120000 from then on |
| WindowProbe.ZeroWindowProbesInTime | src/kcp/kcb.rs:572-604 | with flushes at most r ms apart in such a stretch, each probe comes less than r ms after it is due |
| Timer.WaitingIsSafe | src/kcp/kcb.rs:765-795 | when `check` grants d ms, no `update` before they are over flushes, no timer of any segment in the window is reached, and d is at most the interval |
| Timer.CheckIsZero | src/kcp/kcb.rs:765-790 | `check` asks for an immediate update if and only if one would flush or a segment timer is reached |
| Timer.WaitIsTight | src/kcp/kcb.rs:781-794 | a grant shorter than the interval ends exactly when a flush or a segment timer is due |
| Timer.TimerStaysArmed | src/kcp/kcb.rs:736-756 | under any forward run of updates, across clock wraps, 0 < ts_flush - current <= interval |
| Timer.AdvanceExactly | src/kcp/kcb.rs:736-755 | every case of an update by the signed distance d to the timer: not started, d >= 0 or d < -10000 flushes and nothing else does; the next flush is due exactly one interval after the old one if 0 <= d < interval, one interval from now in the other flushing cases |
| Timer.FlushesAreSpaced | src/kcp/kcb.rs:736-755 | over every forward run of updates, across clock wraps, the i-th flush after the first comes more than i-1 intervals after it |
| Timer.FlushesKeepUp | src/kcp/kcb.rs:736-755 | with updates at most r ms apart, each flush comes less than one interval and r ms after the one before |
| Protocol.InputKeepsValid | src/kcp/kcb.rs:423-530 | any bytes whatever, well formed or not, keep the endpoint invariant, never move `snd_una` or `rcv_nxt` back, and raise cwnd by at most one, not past the peer window |
| Protocol.FlushKeepsValid | src/kcp/kcb.rs:545-731 | a flush keeps the endpoint invariant; every new number lies below `snd_una` plus each of the send, peer and (when in force) congestion windows; every window segment has been transmitted |
| Protocol.UpdateKeepsValid | src/kcp/kcb.rs:736-756 | `update` keeps the endpoint invariant |
| Packing.FlushConserves | src/kcp/kcb.rs:561-705 | whatever the buffer answers when asked for its room, the datagrams of a flush are encodings of consecutive groups of its segments, all of them in order, split between segments only; a buffer that always reports room ends empty |
| Packing.PutAsks | src/kcp/kcb.rs:685-692 | before a segment the buffer is asked about exactly the bytes of its encoding, and is written out, if it says so, before they are appended |
| Packing.OneSegmentPerDatagram | src/kcp/kcb.rs:561-705 | a buffer that asks to be written before every segment and at the end makes every write empty or one segment of at most mss + 24 bytes |
| Packing.CapacityIsOneEach | src/kcp/kcb.rs:160 | read as the free capacity of the buffer that is created, the room is of that kind at the default sizes |
| Packing.GrowableIsNotOneEach | src/kcp/kcb.rs:688 | read as what is missing to the largest 64-bit word, with a wrapping sum, it is not: a segment joins the bytes before it exactly when it is longer than all of them |
| Datagram.CursorReachesNextSegment | src/kcp/kcb.rs:476-493 | after a segment the next header is read at the next segment if and only if the payload was empty or the segment was a push inside the window |
| Datagram.InputUndoesEncode | src/kcp/kcb.rs:423-530 | `input` on concatenated encodings equals folding the segment handler and then the fast-acknowledgement and cwnd step, consuming every byte, when each payload is read at its turn |
| Datagram.ShortPayloadIsHarmless | src/kcp/kcb.rs:433-493 | an unread payload shorter than a header leaves the state as if skipped |
| Datagram.LongPayloadIsMistaken | src/kcp/kcb.rs:433-493 | an unread payload of 24 bytes or more whose header is refused makes `input` report that error and skip the final step, with the segment handled |
| Datagram.PayloadIsTakenForSegment | src/kcp/kcb.rs:433-493 | an unread payload of 24 bytes or more that begins with an acceptable header is handled as a segment, and the loop goes on behind it |
| Datagram.RepeatSkipsGrowth | src/kcp/kcb.rs:504-528 | what that costs when a push arrives again: exactly the congestion-window step, when the push acknowledges new data |
| Datagram.RepeatedSegmentFails | src/kcp/kcb.rs:476-528 | concrete input on which `input` does not undo `encode`: a repeated push leaves cwnd at 1 where handling the segment gives 2 |
| Datagram.SingleArrives | src/kcp/kcb.rs:423-530 | a segment alone in its datagram is always handled; the final step follows if and only if its payload was read or is shorter than a header |
| ControlBlock.Kcb.constructor | src/kcp/kcb.rs:130-173 | the new object represents the fresh endpoint |
| ControlBlock.Kcb.PeekSize | src/kcp/kcb.rs:237-256 | the loop returns the size of the next message, or none |
| ControlBlock.Kcb.Recv | src/kcp/kcb.rs:176-234 | the three errors leave state and buffer alone; success, whose internal size assertion always holds, writes exactly the next message at the front of the buffer, leaves the rest of it, and updates queue, buffer and probe mask as specified |
| ControlBlock.Kcb.Send | src/kcp/kcb.rs:259-306 | queues exactly the fragments of the message, or reports why not and changes nothing |
| ControlBlock.Kcb.ParseAck | src/kcp/kcb.rs:336-348 | the early-exit loop removes exactly the segment of that number |
| ControlBlock.Kcb.ParseUna | src/kcp/kcb.rs:350-363 | the early-exit loop removes exactly the segments below the number |
| ControlBlock.Kcb.ParseFastack | src/kcp/kcb.rs:365-376 | the early-exit loop counts a skip for exactly the segments below the number |
| ControlBlock.Kcb.ParseData | src/kcp/kcb.rs:378-420 | the backward scan, insertion and drain equal one arrival of the specification |
| ControlBlock.Kcb.Input | src/kcp/kcb.rs:423-530 | the cursor loop equals `input` of the specification on every byte string, result and partial updates on errors included |
| ControlBlock.Kcb.FlushData | src/kcp/kcb.rs:653-699 | the in-place loop visits every segment of the window, emits exactly the due ones in order and reports timeouts and fast retransmissions |
| ControlBlock.Kcb.Flush | src/kcp/kcb.rs:545-731 | the whole flush: new state and every byte written |
| ControlBlock.Kcb.Update | src/kcp/kcb.rs:736-756 | new timer, and a flush exactly when due |
| ControlBlock.Kcb.CheckNext | src/kcp/kcb.rs:765-795 | the loop computes the wait of the specification |
| ControlBlock.Kcb.NoDelay | src/kcp/kcb.rs:817-840 | the settings afterwards, clamped, and nothing else changed; the invariant is kept at any time |
| ControlBlock.Kcb.WndSize | src/kcp/kcb.rs:843-850 | the window sizes afterwards, and when the invariant is kept |
| Network.FrontIsAcknowledged | src/kcp/kcb.rs:476-493 | taking in a segment below the end of the window makes the next flush hand out its acknowledgement, with the time it carried |
| Network.FrontAckMoves | src/kcp/kcb.rs:458-467 | an acknowledgement of the front segment, with whatever cumulative number, moves `snd_una` forward |
| Delivery.FlushWritesSingles | src/kcp/kcb.rs:561-705 | a flush of a reachable endpoint whose buffer asks to be written before every segment writes each of its segments by itself, within mss + 24 bytes |
| Delivery.FlushOrder | src/kcp/kcb.rs:561-699 | a flush hands out one acknowledgement per number owed with its time, then at most two probes, then exactly the due segments of the window in order of their numbers |
| ByteNetwork.RunRefines | src/kcp/kcb.rs:176-756 | refinement: a run on bytes whose messages can be read does exactly what some run of the segment-level network does, where an arriving datagram is a list of segments handled from the front |
| ByteNetwork.EndToEndSafety | src/kcp/kcb.rs:176-756 | in every run over a network that loses, repeats, delays and reorders datagrams, the messages given to each application are a prefix of those accepted from the other, in order, once each, byte for byte, when no fragment can be taken for a segment |
| ByteNetwork.NothingIsLost | src/kcp/kcb.rs:329-420 | in every such run each number below `snd_nxt` is in the send window or received; rcv_nxt <= snd_nxt, snd_una <= rcv_nxt + rcv_wnd, and snd_una <= rcv_nxt while the queue is not full |
| ByteNetwork.HeadOfLine | src/kcp/kcb.rs:176-256 | in every such run and for every buffer the answer to reading is: end of file if and only if nothing is queued; unexpected end if and only if some but not all fragments of the next message are; a short buffer if and only if all are but the message is longer; and otherwise that message |
| ByteNetwork.FullQueue | src/kcp/kcb.rs:403-419 | in every such run a full queue can be read, with a large enough buffer, if and only if the next message has at most rcv_wnd fragments, and otherwise no arrival moves the window |
| ByteNetwork.NumberIsEnough | src/kcp/kcb.rs:433-454 | with one segment per datagram a message is harmless when no fragment of 24 bytes or more begins with the connection number |
| ByteRecovery.ProgressIsPossible | src/kcp/kcb.rs:329-348 | with one segment per datagram, in every reachable state with a non-empty window whose front lies below the end of the receive window, a datagram already written and the answer it causes strictly increase `snd_una` |
| ByteRecovery.RecoveryOnBytes | src/kcp/kcb.rs:176-756 | with one segment per datagram, in every reachable state, even if every datagram written so far is lost, the endpoints can go on so that exactly the accepted messages are returned, if each has at most rcv_wnd fragments; if one has more, no continuation does so |
| Departures.ForgedSegment | src/kcp/kcb.rs:476-493 | an endpoint that takes in a push of such a message twice takes in a segment that nobody sent |
| Departures.ForgedMessage | src/kcp/kcb.rs:423-530 | a run from creation, with one repeated datagram, in which the peer is given a second message that was never sent, whatever its bytes |
| Departures.ThirtyThreeFragments | src/kcp/kcb.rs:283-293 | `send` accepts a message of 33 fragments between endpoints whose receive window is 32 |
| Departures.OversizeIsNeverRead | src/kcp/kcb.rs:176-256 | between default endpoints, in no run is a message of more than 32 * 1376 bytes returned, nor any behind it |
| Recovery.Retransmits | src/kcp/kcb.rs:661-671 | a window segment whose timer is reached is handed out again |
| Recovery.ZeroWindowFlush | src/kcp/kcb.rs:572-604 | with a zero peer window nothing is given out, and the reached probe timer asks for the window |
| Recovery.OpenWindowAdmits | src/kcp/kcb.rs:616-640 | with open windows and something queued a flush gives out a number |
| Runs.RunIsSafe | src/kcp/kcb.rs:176-756 | over every run of one endpoint, whatever messages, bytes and times it meets, all invariants hold and `snd_una`, `snd_nxt` and `rcv_nxt` never move back |
| Runs.SpacingOverRun | src/kcp/kcb.rs:645-683 | in every run without no-delay, however many operations it has and across wraps of the clock, within 2^44 ms, the k-th timeout retransmission of a segment comes at least m*k*(k+1)/2 ms after the flush that gave out its number, whatever arrives in between |
| Runs.SpacingOnPlainClock | src/kcp/kcb.rs:645-683 | the same in clock readings, without any bound, in every run whose readings never go back |
| Runs.RequestsOverRun | src/kcp/kcb.rs:572-604 | in every run whose flushes see a zero peer window, of any length and across wraps of the clock, beginning with the probe timer off, window requests are at least 7000 ms from the first flush and then at least 10500, 15750, ... 120000 ms apart |
| Runs.GrowthOverRun | src/kcp/kcb.rs:508-528 | in such a run enough advancing datagrams below the peer window raise the congestion window |
| Effects.SendAnswer | src/kcp/kcb.rs:259-306 | `send` accepts exactly the messages of 1 to 255*mss bytes, answers with their length, and changes nothing otherwise |
| Effects.SendQueues | src/kcp/kcb.rs:283-304 | an accepted message leaves its consecutive blocks of mss bytes behind what was queued, counting down to zero |
| Effects.RecvAnswer | src/kcp/kcb.rs:176-234 | whatever is queued, by whomever: which of the three errors, or the joined fragments up to the first that counts zero |
| Effects.RecvTells | src/kcp/kcb.rs:188-232 | a read owes the peer an announcement exactly when it makes room in a full queue, and changes nothing else outside the receive window |
| Effects.HandleFields | src/kcp/kcb.rs:458-503 | one segment by its command number: the peer window is taken over, a push (81) below the end of the window is owed its number and time, an acknowledgement (82) gives its age as sample, a request (83) is owed an announcement; nothing else changes outside the two windows |
| Effects.HandleSends | src/kcp/kcb.rs:329-363 | one segment takes out of the send window exactly what lies below its cumulative number and, if it is an acknowledgement, its own number |
| Effects.HandleReceives | src/kcp/kcb.rs:476-493 | one segment brings the receive window nothing, unless it is a push inside it, and then its own number |
| Effects.ConcludeFields | src/kcp/kcb.rs:365-376 | at the end of a datagram exactly the segments below the largest number acknowledged are skipped once more, if that number is outstanding, and the congestion window steps exactly when new data was acknowledged |
| Effects.InputSamples | src/kcp/kcb.rs:461-465 | the estimator is given the age of each acknowledgement of a datagram that is not ahead of the clock, in order, and nothing else |
| Effects.InputSample | src/kcp/kcb.rs:461-465 | an acknowledgement sent k ms ago is a sample of k ms; one ahead of the clock, and any other command, leaves the estimator alone |
| Effects.HeaderRefused | src/kcp/kcb.rs:434-456 | a header is refused for the wrong connection, for more payload than there is, and for a command outside 81 to 84, in that order, each with its error |
| Effects.InputRefused | src/kcp/kcb.rs:427-456 | a datagram whose first header is missing or refused changes nothing and gives that error |
| Effects.FlushFills | src/kcp/kcb.rs:616-640 | a flush gives out exactly as many numbers as the queue holds and the smallest of the send, the peer and, when in force, the congestion window allows |
| Effects.FlushControl | src/kcp/kcb.rs:555-614 | the control segments of a flush, field by field: an acknowledgement for each number owed with its time, a request exactly when the peer window is zero and the running probe timer is reached, an announcement exactly when owed |
| Effects.FlushFirst | src/kcp/kcb.rs:622-660 | a number given out is sent at once with the queued fragment, and its timer set to the timeout, and an eighth more without no-delay |
| Effects.FlushAgain | src/kcp/kcb.rs:661-683 | a window segment is sent again if and only if its timer has run out, when its timeout grows by the current one or half of it, or it was skipped often enough, when it keeps its timeout and the count starts over; else it stays as it is |
| Effects.DataIsOfWindow | src/kcp/kcb.rs:653-698 | nothing else is sent as data |
| Effects.FlushAdapts | src/kcp/kcb.rs:707-730 | the congestion window after a flush by what was sent again: half the window in force and one segment after a timeout, half of what is outstanding and the skip count after a fast retransmission alone |
| Effects.FlushCounts | src/kcp/kcb.rs:661-664 | the retransmission counter grows by the number of segments whose timer has run out |
| Effects.UpdateFlushes | src/kcp/kcb.rs:736-756 | an update moves the clock, flushes exactly when the timer was not running, is reached or is more than ten seconds away, and sets the next flush |
| Effects.SettingsFields | src/kcp/kcb.rs:817-840 | each setting by its argument: the least timeout is 30 ms with no-delay and 100 ms without, the interval is held between 10 and 5000 ms, negative arguments change nothing |
| Effects.FreshFields | src/kcp/kcb.rs:130-173 | the numbers of a new control block |
| AddressFormat.WriterLayout | src/socks5/mod.rs:425-460 | the written bytes by position: type 1, 3 or 4; the octets, or the length and the name, or the eight segments high byte first; the port high byte first; nothing else |
| AddressFormat.ParserLayout | src/socks5/mod.rs:266-333 | what the parser returns is the address that the bytes lay out in that way, and it leaves exactly what lies behind |
| AddressFormat.ParserErrors | src/socks5/mod.rs:266-333 | which error exactly when, by the bytes, and what is left of the stream then |
| AddressFormat.Utf8IsText | src/socks5/mod.rs:318-321 | a name passes exactly when its bytes are the UTF-8 form of some Unicode scalar values |
| Socks5.DecodeUndoesEncode | src/socks5/mod.rs:266-333 | parsing after writing returns the address and leaves exactly the trailing bytes; without IPv6 flow label and scope nothing is lost |
| Socks5.EncodeUndoesDecode | src/socks5/mod.rs:266-333 | whatever is parsed is well formed, and the bytes taken are its one encoding |
| Socks5.DecodeSucceedsIff | src/socks5/mod.rs:266-333 | parsing succeeds if and only if the stream begins with an encoding of a well-formed address |
| Socks5.EncodePrefixFree | src/socks5/mod.rs:425-460 | no encoding is a proper prefix of another |
| Socks5.ListsDecodeUniquely | src/socks5/mod.rs:425-460 | addresses written one after another decode in one way only |
| Socks5.WriteIpv6Address | src/socks5/mod.rs:431-437 | the loop over the segments appends the encoding |
| Socks5.WriteAddress | src/socks5/mod.rs:455-460 | appends the encoding, as many bytes as announced |
| Socks5.ReadFrom | src/socks5/mod.rs:266-333 | reads from the stream exactly what the parser takes, errors included |

## Left out

- The listener, the stream type, polling, readiness and the system clock of `src/kcp/mod.rs`: input and output.
- Stream mode of `send` (`src/kcp/kcb.rs:267-281`): the flag is false at creation and nothing sets it.
- `setmtu`, and shrinking the receive window during a connection: not used by the library on a live connection.
- Sequence-number wrap-around at 2^32, and receive windows above 65535, which the 16-bit header field truncates.
- A countdown of 255 from a foreign peer is modelled with the 8-bit successor wrapping to zero; a debug build stops there.
- The SOCKS5 handshake, reply codes, text parsing and display of addresses; DNS, connector and utilities.
- Fairness and real-time bounds on delivery; `ByteRecovery.RecoveryOnBytes` is about what remains possible.
- Network.EndToEndSafety: arrivals are lists of whole segments, as are those of the other results of `Network.dfy` and `Recovery.dfy`; ByteNetwork.RunRefines says when runs on bytes are runs of that kind.
- ByteNetwork.EndToEndSafety: needs harmless messages, and numbers, sizes and windows that fit their header fields; Departures.ForgedMessage shows that the former cannot be dropped. Which harmful messages do harm depends on the segments they imitate and is described one arrival at a time only (Datagram.PayloadIsTakenForSegment).
- ByteRecovery.RecoveryOnBytes: for one segment per datagram; a datagram that begins with a repeated push stops `input` before the segments behind it, so nothing comparable is claimed for other packings, and neither by ByteRecovery.ProgressIsPossible.
- Runs.SpacingOverRun: for no-delay off, which is what the bound is about, and for 2^44 ms from the first transmission.
