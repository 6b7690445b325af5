# Verified model of the Tiny network stack

This project models three parts of the repository in Dafny and proves what they promise.

- **The reliable byte stream of Labs 2 to 5**: the bounded byte stream (`TinyStream`), the
  reassembler (`TinyReassembler`, `ReassemblyTheorems`), 32-bit sequence numbers
  (`WrappingIntegers`), the receiver (`TcpReceiver`) and the sender (`TcpSender`,
  `SenderInvariant`, `SenderTheorems`, and `SenderResponses` for what push, an ACK and time each let
  out). `Connection` joins one sender and one receiver by a network that loses, repeats and reorders
  segments and ACKs; `ConnectionSafety`, `ConnectionProgress`, `ConnectionDriver`, `ConnectionJobs`
  and `FlowControl` prove what holds of the whole, and `OldAckClips` shows where flow control ends.
  The standards are RFC 9293 (sections 3.4, 3.8.6 and 3.8.6.1) and RFC 6298 (section 5).
- **The ARP interface of Lab 1** (`TinyArp`, `ArpTheorems`): cache, waiting queues and request
  suppression over time; `ArpExchange` is resolution between two interfaces (RFC 826; RFC 1122,
  sections 2.3.2.1 and 2.3.2.2).
- **The length-prefixed frames of the C# chat client and server** (`FrameCodec`, `FrameSockets`),
  over sockets that move any number of bytes at a time.

Each class keeps the fields and loops of its original. A ghost `View()` gives its abstract value, a
datatype whose functions are the specification of each operation; every method is proved equal to
its function, and the theorems are about those functions. The specifications add histories the
program does not store: all bytes ever accepted by a stream, every segment at its first
transmission, every ARP frame ever emitted. `Words` holds the machine words.

The labs carry copies of the same code: the byte stream of Labs 2 to 5, the sequence numbers of
Labs 4 and 5, and, apart from one unused local, the reassembler of Labs 3 and 4. Each is modelled once.

`dafny verify dfyconfig.toml` checks the project.

## What the proofs found

- A segment without SYN whose number is the SYN's own position has no stream position.
  `Labs/Lab4_TinyTCPReceiver/README.md:168` says that it must not reach the reassembler, but the code
  has no guard. Its data is harmless, but a FIN on it records a wrong end and can close the stream
  (`SynPositionWithoutSyn` gives the exact condition, `SynPositionFinClosesEarly` an input). A sender
  of this stack never makes one, so the connection theorems need no hypothesis about it.
- `Labs/Lab3_TinyReassembler/README.md:127` warns that `first_index + data.size()` can overflow; the
  code computes it unchecked, and the right edge `left + available_capacity()` as well. When either
  sum overflows the fragment is dropped whole (`InsertIsExactIff` gives the exact condition,
  `FragmentEndOverflowDropsAll` and `EdgeOverflowDropsAll` an input each), and the outcome then
  depends on when the Reader reads (`KnownIsCoveredIff`, `ReadsMatterPastTheRange`). A connection
  never gets there (`EdgeFits`).
- Repeated doubling in 64 bits ends at zero: after 64 unanswered timeouts the RTO is 0 for every
  initial value (61 for one second), and every tick retransmits (`BackoffCollapses`). The timer sum
  wraps as well, so one huge tick can miss a timeout (`TickIsOnTimeIff`).
- A legal ACK that is older than the ACK point still replaces the advertised window
  (`GrantIsHonouredIffNotOld`). After one, a byte sent under a non-zero window can be clipped
  (`GrantedByteIsClipped` is such a run); without one it never is (`NothingGrantedIsClipped`). The
  safety theorems need no such hypothesis.
- The server appends 19 bytes to a chat message and encodes the reply without a size check, so a
  message its client was allowed to send can produce a reply the client must refuse
  (`EchoCompletesIff`).

## Hypotheses of the connection theorems

- A 32-bit number is only unambiguous near its checkpoint, so a segment or ACK may be delivered only
  while it is not older than half the sequence space (`Fresh` and `Enabled` in `Connection`). For
  streams of at most 2^31 - 2 bytes this excludes nothing (`ShortStreamsStayFresh`).
- Bytes written plus the receive capacity leave room in 64 bits (`FitsCounters`).
- The receiver's window is wider than the 16-bit field of the message; the composition clamps it.
- Progress needs a positive segment size and receive capacity, and a positive send capacity if there
  is anything to write.

## Model

| member | source | states |
|---|---|---|
| `WrappingIntegers.UnwrapIsNearest` | Labs/Lab4_TinyTCPReceiver/src/wrapping_integers.cc:12-32 | for every value, zero point and 64-bit checkpoint the result fits 64 bits, has the given wire form, is at least as near the checkpoint as every other 64-bit position with that wire form, and is the smaller one on a tie |
| `WrappingIntegers.UnwrapOfWrap` | Labs/Lab4_TinyTCPReceiver/src/wrapping_integers.cc:6-32 | `unwrap(wrap(a))` is `a` if and only if `checkpoint - a <= 2^31` or no later 64-bit position shares the wire form, and `a - checkpoint < 2^31` or no earlier one does |
| `WrappingIntegers.WrapOfUnwrap` | Labs/Lab4_TinyTCPReceiver/src/wrapping_integers.cc:6-32 | `wrap(unwrap(v))` is `v`, always |
| `WrappingIntegers.UnwrapNearby` | Labs/Lab4_TinyTCPReceiver/src/wrapping_integers.cc:12-32 | the round trip inside half the sequence space around the checkpoint, the form the connection proofs use |
| `WrappingIntegers.RepresentsIffOffset` | Labs/Lab4_TinyTCPReceiver/src/wrapping_integers.cc:6-19 | a position has a wire form exactly when its place in its 2^32 cycle is the offset of that form from the zero point |
| `WrappingIntegers.UnwrapFits` | Labs/Lab4_TinyTCPReceiver/src/wrapping_integers.cc:12-32 | the candidate in the checkpoint’s cycle and, under their guards, the ones in the cycles before and after are all 64-bit values, and so is the result |
| `WrappingIntegers.NoNearerCycle` | Labs/Lab4_TinyTCPReceiver/src/wrapping_integers.cc:19-29 | the three cycles the code looks at contain the best one of all 2^32 |
| `WrappingIntegers.OffsetOfWrap` | Labs/Lab4_TinyTCPReceiver/src/wrapping_integers.cc:6-15 | seen from another zero point, a wire position is shifted by the distance of the zero points, across the wrap as well |
| `WrappingIntegers.UnwrapShift` | Labs/Lab4_TinyTCPReceiver/src/wrapping_integers.cc:12-32 | decoding depends on the distance of the value from its zero point, not on the zero point |
| `TinyStream.ByteStream.Push` | Labs/Lab4_TinyTCPReceiver/src/tiny_stream.cc:11-22 | the stream afterwards is the old one extended by the accepted prefix; the result is its length, 0 once closed |
| `TinyStream.ByteStream.Peek` | Labs/Lab4_TinyTCPReceiver/src/tiny_stream.cc:24-29 | the first unread bytes, at most `maxLen`, in order |
| `TinyStream.ByteStream.Pop` | Labs/Lab4_TinyTCPReceiver/src/tiny_stream.cc:31-38 | removes exactly what a peek of the same length shows |
| `TinyStream.ByteStream.Close` | Labs/Lab4_TinyTCPReceiver/src/tiny_stream.cc:40-43 | only the closed flag changes; unread bytes stay |
| `TinyStream.ByteStream.IsFinished` | Labs/Lab4_TinyTCPReceiver/src/tiny_stream.cc:50-53 | finished means closed and drained |
| `TinyStream.StreamIsFifo` | Labs/Lab4_TinyTCPReceiver/src/tiny_stream.cc:11-63 | over every run: unread before plus bytes granted equals bytes read plus unread after, in order; never more than the capacity is unread; a closed stream takes nothing and stays closed |
| `TinyStream.StepIsFifo` | Labs/Lab4_TinyTCPReceiver/src/tiny_stream.cc:11-63 | the same conservation for one operation |
| `TinyStream.FinishedIff` | Labs/Lab4_TinyTCPReceiver/src/tiny_stream.cc:50-53 | finished if and only if the Writer has closed and no further read, of any length, yields a byte |
| `TinyReassembler.Reassembler.Insert` | Labs/Lab4_TinyTCPReceiver/src/tiny_reassembler.cc:12-43 | the object afterwards is the specification `Assembly.Insert` of the old one, with the 64-bit wrap-around of the fragment end and of the right edge, and stays well formed whatever the fragment claims |
| `TinyReassembler.Reassembler.Store` | Labs/Lab4_TinyTCPReceiver/src/tiny_reassembler.cc:35-38 | the loop keeps exactly the bytes of the accepted range whose positions were empty: the first writer of a position wins |
| `TinyReassembler.Reassembler.FlushContiguous` | Labs/Lab4_TinyTCPReceiver/src/tiny_reassembler.cc:71-84 | moves exactly the contiguous run at the next position, as far as the output has room |
| `TinyReassembler.Reassembler.CloseIfComplete` | Labs/Lab4_TinyTCPReceiver/src/tiny_reassembler.cc:86-92 | closes the output exactly when the end mark is the next position |
| `TinyReassembler.InsertAddsExactlyTheWindow` | Labs/Lab4_TinyTCPReceiver/src/tiny_reassembler.cc:23-40 | the bytes held afterwards (delivered or pending) are those held before plus the bytes of the fragment between the two 64-bit bounds the code computes, nothing else, and no held byte changes |
| `TinyReassembler.InsertIsExactIff` | Labs/Lab4_TinyTCPReceiver/src/tiny_reassembler.cc:20-38 | insert keeps all the fragment offers inside [next, popped + capacity) and records its true end if and only if `first + size` and `popped + capacity` fit 64 bits, or the fragment offers nothing new and marks no end that overflows |
| `TinyReassembler.KeepsAllOfferedIff` | Labs/Lab4_TinyTCPReceiver/src/tiny_reassembler.cc:23-38 | the same for the bytes alone |
| `TinyReassembler.OverflowAcceptsNothing` | Labs/Lab4_TinyTCPReceiver/src/tiny_reassembler.cc:23-33 | when either 64-bit sum overflows, the accepted range is empty |
| `TinyReassembler.FragmentEndOverflowDropsAll` | Labs/Lab4_TinyTCPReceiver/src/tiny_reassembler.cc:20-33 | an input for the first overflow: a fragment past the last position is dropped whole, although its first byte is in the window, and as a last fragment it closes the empty stream |
| `TinyReassembler.EdgeOverflowDropsAll` | Labs/Lab4_TinyTCPReceiver/src/tiny_reassembler.cc:24-33 | an input for the second: with the largest capacity, after one read every fragment is dropped |
| `TinyReassembler.InsertMarksAndCloses` | Labs/Lab4_TinyTCPReceiver/src/tiny_reassembler.cc:20-43 | the end mark is the last one claimed, the output is closed exactly if it was or the mark is reached, and a closed output grows no more |
| `TinyReassembler.InsertKeepsWellFormed` | Labs/Lab4_TinyTCPReceiver/src/tiny_reassembler.cc:12-43 | pending keys stay in [pushed, popped + capacity), an open output never has its next byte in pending, and the acceptance edge does not move |
| `TinyReassembler.FlushKeepsKnown` | Labs/Lab4_TinyTCPReceiver/src/tiny_reassembler.cc:71-84 | flushing neither loses nor alters a byte |
| `TinyReassembler.BytesHeldFitCapacity` | Labs/Lab4_TinyTCPReceiver/src/tiny_reassembler.hh:15-17 | the shared-capacity contract: unread plus pending bytes never exceed the capacity |
| `TinyReassembler.RightIsEdgeIff` | Labs/Lab4_TinyTCPReceiver/src/tiny_reassembler.cc:24-25 | the right edge the code compares with is bytes popped plus capacity if and only if that sum fits 64 bits |
| `TinyReassembler.ReadKeepsWellFormed` | Labs/Lab4_TinyTCPReceiver/src/tiny_reassembler.hh:25-31 | a Reader popping from the output keeps the reassembler well formed |
| `ReassemblyTheorems.ReassemblerRefinesStream` | Labs/Lab4_TinyTCPReceiver/src/tiny_reassembler.cc:12-92 | over every interleaving of fragments cut from one stream and reads: delivered bytes are a prefix of the stream, pending is a part of it inside the window, the next byte is never stuck in pending, and closed means the whole complete stream was delivered |
| `ReassemblyTheorems.OrderDoesNotMatter` | Labs/Lab4_TinyTCPReceiver/src/tiny_reassembler.cc:12-92 | when the stream fits the capacity and no fragment arrives too late for the 64-bit sum `popped + capacity`, output, pending, end mark and closed flag depend only on which positions arrived and whether a last fragment did; not on order, overlap, repetition or reads |
| `ReassemblyTheorems.InsertRefines` | Labs/Lab4_TinyTCPReceiver/src/tiny_reassembler.cc:12-43 | one consistent fragment keeps the refinement of the stream |
| `ReassemblyTheorems.KnownIsCovered` | Labs/Lab4_TinyTCPReceiver/src/tiny_reassembler.cc:12-43 | when the stream fits and nothing arrives too late, exactly the covered positions are held |
| `ReassemblyTheorems.KnownIsCoveredIff` | Labs/Lab4_TinyTCPReceiver/src/tiny_reassembler.cc:12-43 | the positions held are the covered ones if and only if every fragment arrives while `popped + capacity` fits 64 bits or brings nothing new |
| `ReassemblyTheorems.SmallStreamsLoseNothing` | Labs/Lab4_TinyTCPReceiver/src/tiny_reassembler.cc:24-33 | that is so in every run if the length of the stream plus the capacity fits 64 bits |
| `ReassemblyTheorems.ReadsMatterPastTheRange` | Labs/Lab4_TinyTCPReceiver/src/tiny_reassembler.cc:24-33 | an input for the failure: the same two fragments, with a read in between, lose the second byte |
| `ReassemblyTheorems.KnownDeterminesState` | Labs/Lab4_TinyTCPReceiver/src/tiny_reassembler.cc:55-92 | the positions held and the end mark determine output, pending and closed flag |
| `ReassemblyTheorems.DeliveredIsPrefix` | Labs/Lab4_TinyTCPReceiver/src/tiny_reassembler.cc:71-92 | what is delivered is a prefix of the stream, and all of it once closed |
| `TcpReceiver.Receiver.Receive` | Labs/Lab4_TinyTCPReceiver/src/tiny_tcp_receiver.cc:10-28 | the object afterwards is the specification `ReceiverState.Receive` of the old one, with the unguarded 64-bit `payload_absolute - 1` |
| `TcpReceiver.Receiver.Ackno` | Labs/Lab4_TinyTCPReceiver/src/tiny_tcp_receiver.cc:30-37 | the wire form of one plus bytes pushed plus the reached FIN; none before the SYN |
| `TcpReceiver.Receiver.WindowSize` | Labs/Lab4_TinyTCPReceiver/src/tiny_tcp_receiver.cc:39-43 | the remaining shared capacity |
| `TcpReceiver.ReceiveKeepsWellFormed` | Labs/Lab4_TinyTCPReceiver/src/tiny_tcp_receiver.cc:10-28 | any segment keeps the receiver well formed |
| `TcpReceiver.WindowStaysInsideEdge` | Labs/Lab4_TinyTCPReceiver/src/tiny_tcp_receiver.cc:39-43 | the window subtraction never wraps, ACK plus window never passes `popped + capacity`, and that is the edge the reassembler compares with if and only if the sum fits 64 bits |
| `TcpReceiver.ReadMovesWindowNotAck` | Labs/Lab4_TinyTCPReceiver/src/tiny_tcp_receiver.cc:30-43 | a read opens the window and the edge `popped + capacity` by what it takes and leaves the ACK alone; the reassembler’s own edge follows if and only if the sum fits 64 bits |
| `TcpReceiver.SynPositionWithoutSyn` | Labs/Lab4_TinyTCPReceiver/src/tiny_tcp_receiver.cc:21-27 | a segment without SYN at the SYN position leaves a connected receiver unchanged if and only if it has no FIN or repeats the recorded end |
| `TcpReceiver.SynPositionFinClosesEarly` | Labs/Lab4_TinyTCPReceiver/src/tiny_tcp_receiver.cc:24-27 | an input for which the missing guard closes the stream before its first byte |
| `TcpReceiver.SynPositionOnlyMarks` | Labs/Lab4_TinyTCPReceiver/src/tiny_tcp_receiver.cc:24-27 | all such a segment can do is move the end mark |
| `TcpReceiver.IsnDoesNotMatter` | Labs/Lab4_TinyTCPReceiver/src/tiny_tcp_receiver.cc:14-43 | the same absolute segments and reads under two initial sequence numbers give equal reassemblers, windows and absolute ACKs, also where only one numbering wraps |
| `TcpReceiver.ReceiveIgnoresIsn` | Labs/Lab4_TinyTCPReceiver/src/tiny_tcp_receiver.cc:14-27 | the same for one segment |
| `TcpReceiver.FirstSynSetsZeroPoint` | Labs/Lab4_TinyTCPReceiver/src/tiny_tcp_receiver.cc:14-43 | over every run from a new receiver the zero point is the number of the first SYN to arrive and never changes; before it the receiver stays as it was, acknowledges nothing and advertises its whole capacity |
| `TcpReceiver.FirstSynIsInserted` | Labs/Lab4_TinyTCPReceiver/src/tiny_tcp_receiver.cc:14-27 | the first SYN sets the zero point, and the data and FIN it may carry reach the reassembler at position 0 |
| `TcpReceiver.PlacedSegmentIsInserted` | Labs/Lab4_TinyTCPReceiver/src/tiny_tcp_receiver.cc:21-27 | a segment within half the 32-bit space of the next position reaches the reassembler at its own 64-bit position, whatever its ISN |
| `TcpSender.Sender.Push` | Labs/Lab5_TinyTCPSender/src/tiny_tcp_sender.cc:69-123 | the loop computes the specification `SenderState.Push` |
| `TcpSender.Sender.MakeSegment` | Labs/Lab5_TinyTCPSender/src/tiny_tcp_sender.cc:76-101 | one round takes SYN, payload and FIN as far as they fit the window, and takes exactly those bytes out of the stream |
| `TcpSender.Sender.TakePayload` | Labs/Lab5_TinyTCPSender/src/tiny_tcp_sender.cc:87-93 | the payload is the head of the stream, and is popped |
| `TcpSender.Sender.Enqueue` | Labs/Lab5_TinyTCPSender/src/tiny_tcp_sender.cc:108-122 | the segment is numbered, kept, queued, and starts an idle timer |
| `TcpSender.Sender.Receive` | Labs/Lab5_TinyTCPSender/src/tiny_tcp_sender.cc:126-162 | the object afterwards is the specification `SenderState.Receive` of the old one |
| `TcpSender.Sender.Advance` | Labs/Lab5_TinyTCPSender/src/tiny_tcp_sender.cc:140-159 | a new ACK drops the covered front of the outstanding segments and restarts the timer |
| `TcpSender.Sender.Tick` | Labs/Lab5_TinyTCPSender/src/tiny_tcp_sender.cc:164-184 | the object afterwards is the specification `SenderState.Tick` of the old one, in 64-bit arithmetic |
| `TcpSender.Sender.TakeSegmentsToSend` | Labs/Lab5_TinyTCPSender/src/tiny_tcp_sender.cc:186-195 | hands out the queue in order and leaves it empty |
| `SenderInvariant.PushKeepsInvariant` | Labs/Lab5_TinyTCPSender/src/tiny_tcp_sender.cc:69-123 | push keeps the whole invariant: counting, tiling of the log, outstanding as its tail around the ACK point, queued segments all genuine, timer discipline |
| `SenderInvariant.ReceiveKeepsInvariant` | Labs/Lab5_TinyTCPSender/src/tiny_tcp_sender.cc:126-162 | so does any message, however old or wrong, including an ACK inside a segment |
| `SenderInvariant.TickKeepsInvariant` | Labs/Lab5_TinyTCPSender/src/tiny_tcp_sender.cc:164-184 | so does any passage of time |
| `SenderInvariant.TakeKeepsInvariant` | Labs/Lab5_TinyTCPSender/src/tiny_tcp_sender.cc:186-195 | so does handing out segments |
| `SenderInvariant.ApplicationKeepsInvariant` | Labs/Lab5_TinyTCPSender/src/tiny_tcp_sender.cc:22-25 | so do writes and the close of the writer |
| `SenderInvariant.NewSenderSatisfiesInvariant` | Labs/Lab5_TinyTCPSender/src/tiny_tcp_sender.cc:14-20 | a new sender satisfies it |
| `SenderInvariant.SendIsFaithful` | Labs/Lab5_TinyTCPSender/src/tiny_tcp_sender.cc:76-116 | each new segment carries the bytes of the stream that belong at its place, with its wire number and flags |
| `SenderInvariant.DropCoveredIsSuffix` | Labs/Lab5_TinyTCPSender/src/tiny_tcp_sender.cc:144-152 | dropping covered segments leaves a suffix whose front contains the ACK point |
| `SenderInvariant.TickKeepsTimed` | Labs/Lab5_TinyTCPSender/src/tiny_tcp_sender.cc:169-183 | the timer runs exactly while something is outstanding, has not reached the RTO, and the RTO is the initial one after as many doublings as there were retransmissions |
| `SenderTheorems.RunKeepsInvariant` | Labs/Lab5_TinyTCPSender/src/tiny_tcp_sender.cc:27-195 | over every run the invariant holds and log, next position and ACK point only grow |
| `SenderTheorems.OutstandingTilesFlight` | Labs/Lab5_TinyTCPSender/src/tiny_tcp_sender.cc:108-159 | outstanding segments tile the flight without gap up to next, have positive length, the first contains the ACK point, none remain exactly when all is acknowledged, and at most 65535 positions are in flight |
| `SenderTheorems.SegmentationPreservesStream` | Labs/Lab5_TinyTCPSender/src/tiny_tcp_sender.cc:72-123 | first transmissions concatenate to exactly the bytes taken from the stream, SYN is on the first only, FIN on the last only, `next` counts SYN, bytes and FIN, and everything queued is one of them |
| `SenderTheorems.PushFillsWindow` | Labs/Lab5_TinyTCPSender/src/tiny_tcp_sender.cc:69-123 | with a positive segment size push sends everything that window and stream allow |
| `SenderTheorems.ZeroSegmentSizeStalls` | Labs/Lab5_TinyTCPSender/src/tiny_tcp_sender.cc:87-106 | with segment size zero no payload byte is sent in any run |
| `SenderTheorems.AckInFlightIsDecoded` | Labs/Lab5_TinyTCPSender/src/tiny_tcp_sender.cc:134-137 | every ACK between the ACK point and next is decoded to its exact 64-bit position |
| `SenderTheorems.AckFreesCoveredSegments` | Labs/Lab5_TinyTCPSender/src/tiny_tcp_sender.cc:139-159 | such an ACK becomes the ACK point, frees what it covers and resets RTO and retransmission count |
| `SenderTheorems.OldAckKeepsTimer` | Labs/Lab5_TinyTCPSender/src/tiny_tcp_sender.cc:136-161 | a repeated or older ACK frees nothing and leaves the running timer and its back-off alone, but replaces the window |
| `SenderTheorems.ImpossibleAckIsIgnored` | Labs/Lab5_TinyTCPSender/src/tiny_tcp_sender.cc:136-137 | an ACK beyond next changes nothing |
| `SenderTheorems.ReceiveKeepsFrame` | Labs/Lab5_TinyTCPSender/src/tiny_tcp_sender.cc:126-162 | no message takes any history back or touches what the application wrote |
| `SenderTheorems.TickResendsOldest` | Labs/Lab5_TinyTCPSender/src/tiny_tcp_sender.cc:169-183 | a tick emits at most one segment, the oldest, exactly when the 64-bit timer sum reaches the RTO, and a probe of a closed window does not back off |
| `SenderTheorems.TickIsOnTimeIff` | Labs/Lab5_TinyTCPSender/src/tiny_tcp_sender.cc:172-176 | a tick retransmits exactly what is due in true time if and only if nothing is outstanding, the timer sum fits 64 bits, or it rolls over to no less than the RTO |
| `SenderTheorems.HugeTickSendsNothing` | Labs/Lab5_TinyTCPSender/src/tiny_tcp_sender.cc:172-176 | an input for the failure: one tick of nearly 2^64 ms sends nothing |
| `SenderTheorems.BackoffIsExponential` | Labs/Lab5_TinyTCPSender/src/tiny_tcp_sender.cc:178-182 | the RTO is the initial one times 2^retransmissions if and only if that fits 64 bits |
| `SenderTheorems.BackoffIsPow2` | Labs/Lab5_TinyTCPSender/src/tiny_tcp_sender.cc:181-181 | in general it is that product modulo 2^64 |
| `SenderTheorems.BackoffCollapses` | Labs/Lab5_TinyTCPSender/src/tiny_tcp_sender.cc:172-182 | n unanswered timeouts give n retransmissions; from the 64th on the RTO is 0 for every initial value and every tick, of any length, retransmits |
| `SenderTheorems.OneSecondCollapsesAt61` | Labs/Lab5_TinyTCPSender/src/tiny_tcp_sender.cc:181-181 | with an initial RTO of 1000 ms the register is 0 exactly from the 61st doubling on |
| `SenderResponses.ReceiveFillsWindow` | Labs/Lab5_TinyTCPSender/src/tiny_tcp_sender.cc:126-162 | any legal ACK, new or old, makes the sender send in the same call all that the new right edge and the stream allow: next ends at the smaller of the two, or stays |
| `SenderResponses.NewAckEffect` | Labs/Lab5_TinyTCPSender/src/tiny_tcp_sender.cc:140-161 | a new ACK leaves outstanding the segments it does not cover followed by those just sent, queues exactly those, and restarts the timer from zero with the initial RTO |
| `SenderResponses.OldAckEffect` | Labs/Lab5_TinyTCPSender/src/tiny_tcp_sender.cc:139-161 | an old ACK frees nothing and queues nothing but what its window lets out |
| `SenderResponses.PushAppends` | Labs/Lab5_TinyTCPSender/src/tiny_tcp_sender.cc:108-116 | what push sends is added to history, outstanding segments and queue alike, in order |
| `SenderResponses.PushedSegmentsAreFull` | Labs/Lab5_TinyTCPSender/src/tiny_tcp_sender.cc:76-101 | every segment push sends carries the segment size, or reaches the right edge, or takes the last byte granted; the FIN rides on the segment that takes the last byte of a closed stream unless the edge leaves no position, and on no other |
| `SenderResponses.FirstPushSendsSyn` | Labs/Lab5_TinyTCPSender/src/tiny_tcp_sender.cc:78-87 | the first push sends the SYN alone, with the initial sequence number, whatever was already written |
| `SenderResponses.PushStartsTimer` | Labs/Lab5_TinyTCPSender/src/tiny_tcp_sender.cc:118-122 | push starts the timer from zero when it sends the first outstanding segment, and leaves it alone otherwise |
| `SenderResponses.TickAddsUp` | Labs/Lab5_TinyTCPSender/src/tiny_tcp_sender.cc:172-177 | below the RTO a tick adds to the timer and does nothing else; with a retransmission the timer starts over |
| `SenderResponses.TickKeepsRest` | Labs/Lab5_TinyTCPSender/src/tiny_tcp_sender.cc:164-184 | a tick touches the timer, the queue and the back-off only |
| `SenderResponses.RetransmitsWhenTimeIsUp` | Labs/Lab5_TinyTCPSender/src/tiny_tcp_sender.cc:172-182 | after every series of ticks, the next one retransmits if and only if the time reported since the last restart, itself included, reaches the RTO in force, back-off included (counted in 64 bits) |
| `SenderResponses.TimerIsSinceRestart` | Labs/Lab5_TinyTCPSender/src/tiny_tcp_sender.cc:172-177 | over every series of ticks the timer register is the time since the last restart, modulo 2^64 |
| `SenderResponses.OnlyTotalCounts` | Labs/Lab5_TinyTCPSender/src/tiny_tcp_sender.cc:172-174 | time below the RTO counts the same in one tick or in many |
| `SenderResponses.FirstTimeout` | Labs/Lab5_TinyTCPSender/src/tiny_tcp_sender.cc:172-177 | the first timeout comes in the tick that brings the total to the RTO, with the oldest segment, and not before |
| `SenderResponses.IdleTickChangesNothing` | Labs/Lab5_TinyTCPSender/src/tiny_tcp_sender.cc:169-170 | with nothing outstanding time does not count |
| `SenderResponses.NoAckIsIgnored` | Labs/Lab5_TinyTCPSender/src/tiny_tcp_sender.cc:132-133 | a message without an ACK changes nothing, not even the window |
| `Connection.ActionKeepsInv` | Labs/Lab5_TinyTCPSender/src/tiny_tcp_sender.cc:27-195 | each action of the system (send, lose, repeat, reorder, read, acknowledge) keeps the system invariant |
| `Connection.RunKeepsInv` | Labs/Lab5_TinyTCPSender/src/tiny_tcp_sender.cc:27-195 | so does every run |
| `Connection.NewConnectionSatisfiesInv` | Labs/Lab5_TinyTCPSender/src/tiny_tcp_sender.cc:14-20 | a new connection satisfies it |
| `Connection.AckIsBetween` | Labs/Lab4_TinyTCPReceiver/src/tiny_tcp_receiver.cc:30-37 | the ACK point is at most the receiver’s ACK, which is at most next |
| `Connection.DeliverIsTake` | Labs/Lab4_TinyTCPReceiver/src/tiny_tcp_receiver.cc:14-27 | past the SYN, a genuine segment not older than half the sequence space is inserted at exactly the stream position it was cut from |
| `Connection.DeliverKeepsInv` | Labs/Lab4_TinyTCPReceiver/src/tiny_tcp_receiver.cc:10-28 | any delivery of a segment once sent keeps the system invariant |
| `Connection.DeliverAckKeepsInv` | Labs/Lab5_TinyTCPSender/src/tiny_tcp_sender.cc:126-162 | any delivery of an ACK once made keeps the system invariant |
| `Connection.AckDecodes` | Labs/Lab5_TinyTCPSender/src/tiny_tcp_sender.cc:134-137 | an ACK not older than half the sequence space is decoded to its true position, never beyond what the receiver has |
| `Connection.EdgeFits` | Labs/Lab4_TinyTCPReceiver/src/tiny_reassembler.cc:24-25 | in a connection `popped + capacity` fits 64 bits, so the reassembler compares with the true edge |
| `ConnectionSafety.DeliveredIsPrefixOfWritten` | Labs/Lab5_TinyTCPSender/src/tiny_tcp_sender.cc:72-123 | end-to-end safety: in every reachable state what was read plus what waits is a prefix of what was written, and the receiving stream is closed only if it is all of a closed stream |
| `ConnectionSafety.FreedSegmentsWereReceived` | Labs/Lab5_TinyTCPSender/src/tiny_tcp_sender.cc:140-152 | the ACK sandwich: every segment no longer outstanding is held by the receiver in full, its FIN included |
| `ConnectionSafety.RunIsOnward` | Labs/Lab4_TinyTCPReceiver/src/tiny_tcp_receiver.cc:30-43 | over any run the receiver’s ACK and its acceptance edge never move left |
| `ConnectionSafety.ShortStreamsStayFresh` | Labs/Lab5_TinyTCPSender/src/tiny_tcp_sender.cc:134-137 | while the stream plus 2 fits half the 32-bit space, every segment and ACK ever sent may arrive at any time |
| `ConnectionSafety.CountersFit` | Labs/Lab5_TinyTCPSender/src/tiny_tcp_sender.hh:83-87 | no 64-bit counter or window sum of the two ends wraps, and at most 65535 positions are in flight |
| `ConnectionProgress.AwaitedArrivalMovesAck` | Labs/Lab4_TinyTCPReceiver/src/tiny_tcp_receiver.cc:21-37 | the awaited segment moves the receiver’s ACK if and only if its next byte is not data facing a full buffer |
| `ConnectionProgress.ExchangeAdvances` | Labs/Lab5_TinyTCPSender/src/tiny_tcp_sender.cc:140-177 | in any legal run: once the segment that was oldest at its start arrives with room, and an ACK made after that arrives too, the ACK point has strictly moved, whatever else happens in between |
| `ConnectionProgress.AwaitedByteIsDelivered` | Labs/Lab4_TinyTCPReceiver/src/tiny_reassembler.cc:27-40 | a byte that arrives at the awaited position with room is delivered, as long as `popped + capacity` fits 64 bits, as it does in every connection |
| `ConnectionProgress.AwaitedFinCloses` | Labs/Lab4_TinyTCPReceiver/src/tiny_reassembler.cc:86-92 | the FIN that arrives after all data closes the stream |
| `ConnectionProgress.FullBufferTakesNothing` | Labs/Lab4_TinyTCPReceiver/src/tiny_reassembler.cc:25-33 | with a full buffer nothing moves |
| `ConnectionDriver.DriverRuns` | Labs/Lab5_TinyTCPSender/src/tiny_tcp_sender.cc:69-195 | a driver that reads, fills the window and retries on the timer is never stuck |
| `ConnectionDriver.DriverFinishes` | Labs/Lab5_TinyTCPSender/src/tiny_tcp_sender.cc:69-195 | from every state with a closed writer it finishes within one round more than positions are unacknowledged: all that was written is read and the FIN acknowledged |
| `ConnectionDriver.RoundEffect` | Labs/Lab5_TinyTCPSender/src/tiny_tcp_sender.cc:140-183 | each round of a closed connection completes it or moves the ACK point |
| `ConnectionDriver.FillSendsWhatIsLeft` | Labs/Lab5_TinyTCPSender/src/tiny_tcp_sender.cc:69-123 | after a push nothing is left unsent with nothing outstanding |
| `ConnectionJobs.EveryJobCompletes` | Labs/Lab5_TinyTCPSender/src/tiny_tcp_sender.cc:14-195 | for every configuration with usable segment size and buffers and every stream, of any length, there is a legal run of a new connection after which exactly the stream is read and the FIN acknowledged; the application writes it through the bounded send buffer |
| `ConnectionJobs.JobFinishes` | Labs/Lab5_TinyTCPSender/src/tiny_tcp_sender.cc:69-195 | from any state of such a job, every driver that offers the rest, closes at its end, reads, fills and retries finishes within one round more than there are unacknowledged positions |
| `ConnectionJobs.JobStepEffect` | Labs/Lab5_TinyTCPSender/src/tiny_tcp_sender.cc:69-183 | each round finishes the job or moves the ACK point, also while the send buffer is full |
| `ConnectionJobs.WriteTakesPrefix` | Labs/Lab4_TinyTCPReceiver/src/tiny_stream.cc:11-22 | a write takes a prefix of what is offered, and leaves some only when the buffer is then full |
| `FlowControl.NothingGrantedIsClipped` | Labs/Lab4_TinyTCPReceiver/src/tiny_tcp_receiver.cc:39-43 | if no ACK heard so far was older than the ACK point (loss, repetition and other reordering allowed), every byte of a segment first sent under a non-zero window is kept by the receiver whenever it arrives |
| `FlowControl.GrantIsHonouredIffNotOld` | Labs/Lab5_TinyTCPSender/src/tiny_tcp_sender.cc:136-140 | after a legal ACK the sender’s right edge is the granted one if and only if the ACK is not older than what the sender knows |
| `OldAckClips.GrantedByteIsClipped` | Labs/Lab5_TinyTCPSender/src/tiny_tcp_sender.cc:136-140 | an input without that hypothesis: a legal run in which an old ACK reopens the window and a byte sent under it, no probe, is dropped by the receiver |
| `FlowControl.ActionKeepsFlowInv` | Labs/Lab5_TinyTCPSender/src/tiny_tcp_sender.cc:69-76 | each action keeps every grant inside the acceptance edge and every non-probe segment inside a grant |
| `FlowControl.SentEndInsideWindow` | Labs/Lab5_TinyTCPSender/src/tiny_tcp_sender.cc:69-76 | whatever a step sends ends inside the window it was sent under |
| `TinyArp.NetworkInterface.SendDatagram` | Labs/Lab1_TinyARPInterface/src/tiny_arp.cc:75-96 | the interface afterwards is the specification `Interface.SendDatagram` of the old one |
| `TinyArp.NetworkInterface.RecvFrame` | Labs/Lab1_TinyARPInterface/src/tiny_arp.cc:98-124 | likewise for a received frame; an IPv4 datagram comes back exactly if the frame is accepted |
| `TinyArp.NetworkInterface.FlushWaitingDatagrams` | Labs/Lab1_TinyARPInterface/src/tiny_arp.cc:57-73 | sends the whole queue of a cached hop in order and removes it |
| `TinyArp.NetworkInterface.LearnArpMapping` | Labs/Lab1_TinyARPInterface/src/tiny_arp.cc:49-55 | the mapping is cached with a full lifetime |
| `TinyArp.NetworkInterface.SendIpv4Frame` | Labs/Lab1_TinyARPInterface/src/tiny_arp.cc:18-31 | one IPv4 frame is queued |
| `TinyArp.NetworkInterface.SendArpRequest` | Labs/Lab1_TinyARPInterface/src/tiny_arp.cc:33-47 | one broadcast request is queued |
| `TinyArp.NetworkInterface.Tick` | Labs/Lab1_TinyARPInterface/src/tiny_arp.cc:126-137 | the erasing loop leaves exactly the entries that have not expired |
| `TinyArp.NetworkInterface.TakeFramesToSend` | Labs/Lab1_TinyARPInterface/src/tiny_arp.cc:139-150 | hands out the frames in order and leaves none |
| `TinyArp.NetworkInterface.CachedMac` | Labs/Lab1_TinyARPInterface/src/tiny_arp.cc:152-160 | the cached address, exactly while its entry is live |
| `ArpTheorems.EveryRunConserves` | Labs/Lab1_TinyARPInterface/src/tiny_arp.cc:57-150 | over every run of a new interface, per hop: datagrams submitted are IPv4 datagrams emitted followed by those waiting, in order and exactly once; frames handed out plus frames queued are those emitted; cache and queues are disjoint, entries live, requests spaced |
| `ArpTheorems.FirstWaitingDatagramSendsRequest` | Labs/Lab1_TinyARPInterface/src/tiny_arp.cc:81-95 | the first datagram to wait for a hop always sends a request in the same step: suppression never silences it |
| `ArpTheorems.RequestEmittedIff` | Labs/Lab1_TinyARPInterface/src/tiny_arp.cc:81-95 | a request goes out if and only if a datagram is submitted for an uncached hop and every earlier request for it is at least 5000 ms old |
| `ArpTheorems.StepKeepsTiming` | Labs/Lab1_TinyARPInterface/src/tiny_arp.cc:49-137 | entries live at most 30000 ms, cached and waiting hops are disjoint, queues are never empty, and a past request is still awaited, answered for long enough, or long ago |
| `ArpTheorems.StepKeepsSpacing` | Labs/Lab1_TinyARPInterface/src/tiny_arp.cc:85-94 | requests for one hop stay at least 5000 ms apart |
| `ArpTheorems.StepConserves` | Labs/Lab1_TinyARPInterface/src/tiny_arp.cc:57-124 | each step conserves the datagrams of each hop |
| `ArpTheorems.DrainEmitsQueue` | Labs/Lab1_TinyARPInterface/src/tiny_arp.cc:66-70 | draining a queue emits exactly its datagrams, in order, and none for another hop |
| `ArpTheorems.AnswerDrainsQueue` | Labs/Lab1_TinyARPInterface/src/tiny_arp.cc:110-113 | after an accepted ARP message from a hop, all that was ever submitted for it has been emitted |
| `ArpTheorems.ReplyEmittedIff` | Labs/Lab1_TinyARPInterface/src/tiny_arp.cc:114-120 | a reply goes out if and only if an accepted request asks for this interface, addressed to whoever asked |
| `ArpTheorems.Ipv4FramesUseCachedMac` | Labs/Lab1_TinyARPInterface/src/tiny_arp.cc:18-31 | each IPv4 frame is addressed to the live cached MAC of its hop |
| `ArpTheorems.LearnedEntryLives` | Labs/Lab1_TinyARPInterface/src/tiny_arp.hh:90-90 | a learned address is usable for exactly 30000 ms |
| `ArpTheorems.TicksAdd` | Labs/Lab1_TinyARPInterface/src/tiny_arp.cc:126-137 | time passes the same in one tick or several |
| `ArpTheorems.OutputIsTrace` | Labs/Lab1_TinyARPInterface/src/tiny_arp.cc:139-150 | frames handed out plus frames queued are the frames emitted, in order |
| `ArpExchange.ResolutionDeliversQueue` | Labs/Lab1_TinyARPInterface/src/tiny_arp.cc:33-124 | address resolution from end to end: a datagram for an uncached hop puts the request out; the interface that has the address answers it, whatever state it is in; and after any further run of both, the answer resolves the address: all that was ever submitted for the hop has been emitted and the other interface takes each waiting datagram out of its frame, in order; both caches hold the other’s address for 30000 ms |
| `ArpExchange.RequestsAreWrittenOut` | Labs/Lab1_TinyARPInterface/src/tiny_arp.cc:33-47 | every request a step emits goes to the broadcast address and asks, from this interface’s IP and MAC, for exactly the hop it was emitted for |
| `ArpExchange.DeliveredIff` | Labs/Lab1_TinyARPInterface/src/tiny_arp.cc:98-107 | a received frame yields a datagram if and only if it is addressed to this interface or to everyone, intact, an IPv4 frame, and carries it |
| `ArpExchange.OtherFramesChangeNothing` | Labs/Lab1_TinyARPInterface/src/tiny_arp.cc:98-107 | a frame for others, a damaged frame and an IPv4 frame leave the interface as it was |
| `ArpExchange.ArpFrameTeaches` | Labs/Lab1_TinyARPInterface/src/tiny_arp.cc:110-120 | every other frame caches its sender for 30000 ms, sends that hop’s queue as IPv4 frames to the learned MAC, in order, and then, for a request to this address, the reply, written out |
| `ArpExchange.Ipv4FrameIsDelivered` | Labs/Lab1_TinyARPInterface/src/tiny_arp.cc:18-31 | each IPv4 frame a step emits yields its datagram at an interface if and only if that has the MAC cached for the hop (or broadcast is cached) |
| `ArpExchange.CachedHopIsReached` | Labs/Lab1_TinyARPInterface/src/tiny_arp.cc:77-80 | a datagram for a cached hop goes out at once in one frame, and the interface with the cached MAC takes exactly it |
| `ArpExchange.QuestionIsAnswered` | Labs/Lab1_TinyARPInterface/src/tiny_arp.cc:114-120 | an interface asked for its own address learns the asker’s, sends what waited for it, and answers to it alone |
| `ArpExchange.OnlyTheTargetAnswers` | Labs/Lab1_TinyARPInterface/src/tiny_arp.cc:114-120 | an interface asked for another address does not answer |
| `ArpExchange.AnswerAlwaysResolves` | Labs/Lab1_TinyARPInterface/src/tiny_arp.cc:98-120 | in every state that satisfies the invariant the answer is accepted, all that was ever submitted for the hop has then been emitted, and the answering interface takes each waiting datagram out of its frame, in order |
| `ArpExchange.AnswerSetsQueueFree` | Labs/Lab1_TinyARPInterface/src/tiny_arp.cc:110-113 | the answer is accepted, cached, and sends exactly the waiting datagrams to the answering MAC |
| `ArpExchange.NewInterfaceAsks` | Labs/Lab1_TinyARPInterface/src/tiny_arp.cc:75-96 | the first datagram given to a new interface waits and its request goes out at once |
| `ArpExchange.CacheIsLastHeard` | Labs/Lab1_TinyARPInterface/src/tiny_arp.cc:49-137 | over every run of a new interface a hop is cached if and only if less than 30000 ms have passed since the last accepted ARP message from it, with the MAC that message gave |
| `FrameCodec.RoundTrip` | 第二阶段_TinyGameNet/代码/01_TCP聊天/Client/CubeClient.cs:213-292 | the messages encoded are the messages read, followed by a clean end |
| `FrameCodec.ParseIffFrame` | 第二阶段_TinyGameNet/代码/01_TCP聊天/Client/CubeClient.cs:260-292 | a message is read exactly when its own encoding is what arrived; no other bytes decode to it |
| `FrameCodec.ReadAllIsFaithful` | 第二阶段_TinyGameNet/代码/01_TCP聊天/Client/CubeClient.cs:165-197 | on any stream the messages read are encodable and their encodings are what the stream starts with; it ends cleanly if and only if they are the whole stream |
| `FrameCodec.CutStreamIsReported` | 第二阶段_TinyGameNet/代码/01_TCP聊天/Client/CubeClient.cs:236-281 | a stream cut anywhere is read up to its last whole frame, ends cleanly exactly when cut between frames, and a cut inside a frame is the error the code throws, never a message |
| `FrameCodec.CutFrameFails` | 第二阶段_TinyGameNet/代码/01_TCP聊天/Client/CubeClient.cs:242-281 | which exception a cut frame gives: the missing body after exactly four bytes, truncation elsewhere |
| `FrameCodec.OversizedFrameIsRefused` | 第二阶段_TinyGameNet/代码/01_TCP聊天/Client/CubeClient.cs:269-274 | a frame over 64 KiB is refused at its header |
| `FrameCodec.LengthRoundTrip` | 第二阶段_TinyGameNet/代码/01_TCP聊天/Client/CubeClient.cs:229-230 | the length prefix decodes to the length |
| `FrameCodec.LengthIsUnambiguous` | 第二阶段_TinyGameNet/代码/01_TCP聊天/Client/CubeClient.cs:269-269 | a non-negative length has only one header |
| `FrameCodec.FrameLayout` | 第二阶段_TinyGameNet/代码/01_TCP聊天/Client/CubeClient.cs:213-234 | a frame is the big-endian length of type byte and content, the type byte, the content, and nothing else |
| `FrameCodec.UnknownTypeIsRefused` | 第二阶段_TinyGameNet/代码/01_TCP聊天/Client/CubeClient.cs:260-292 | a frame with any type but chat and movement is read to its end and refused |
| `FrameCodec.EmptyOrNegativeLengthIsRefused` | 第二阶段_TinyGameNet/代码/01_TCP聊天/Client/CubeClient.cs:269-274 | a zero or negative length is refused at the header |
| `FrameCodec.EchoCompletesIff` | 第二阶段_TinyGameNet/代码/01_TCP聊天/Server/Program.cs:57-76 | a client whose messages were all accepted gets every reply if and only if each chat message leaves room for the text the server appends |
| `FrameCodec.ChatIsEchoed` | 第二阶段_TinyGameNet/代码/01_TCP聊天/Server/Program.cs:57-76 | each chat message is answered by one chat message that starts with its content and ends with the fixed text; a movement message is not answered |
| `FrameCodec.LongMessageBreaksTheClient` | 第二阶段_TinyGameNet/代码/01_TCP聊天/Server/Program.cs:57-72 | the first chat message that leaves no room ends the client there, after all earlier replies |
| `FrameSockets.ReceiveExactly` | 第二阶段_TinyGameNet/代码/01_TCP聊天/Client/CubeClient.cs:236-258 | fills the buffer from any chunking, or says whether the stream ended before or within it |
| `FrameSockets.ReceiveNetMessage` | 第二阶段_TinyGameNet/代码/01_TCP聊天/Server/Program.cs:253-286 | reads exactly what the codec parses from the arriving bytes, and leaves exactly the rest |
| `FrameSockets.EncodeOnServer` | 第二阶段_TinyGameNet/代码/01_TCP聊天/Server/Program.cs:181-194 | the array is the frame of the message, whatever its type and size |
| `FrameSockets.EncodeOnClient` | 第二阶段_TinyGameNet/代码/01_TCP聊天/Client/CubeClient.cs:213-234 | the frame if type and size are legal, otherwise a refusal |
| `FrameSockets.CubeClient.Send` | 第二阶段_TinyGameNet/代码/01_TCP聊天/Client/CubeClient.cs:111-125 | queues the frame exactly when running, connected and encodable |
| `FrameSockets.CubeClient.SendLoop` | 第二阶段_TinyGameNet/代码/01_TCP聊天/Client/CubeClient.cs:127-163 | whatever the socket takes at a time, the wire holds a prefix of the queued frames, and all of them unless the client stopped |
| `FrameSockets.CubeClient.ReceiveLoop` | 第二阶段_TinyGameNet/代码/01_TCP聊天/Client/CubeClient.cs:165-197 | the receive queue grows by a prefix of the messages in the stream, and by all of them if the stream ended the loop |
| `FrameSockets.ClientSocket.Send` | 第二阶段_TinyGameNet/代码/01_TCP聊天/Server/Program.cs:34-43 | sends the whole range, or fails with a proper prefix of it sent |
| `FrameSockets.ClientSocket.ReceiveLoop` | 第二阶段_TinyGameNet/代码/01_TCP聊天/Server/Program.cs:46-98 | the bytes sent are a prefix of the encoded replies to the messages in the stream, and all of them if the stream ended the loop |
| `FrameSockets.CarryOver` | 第二阶段_TinyGameNet/代码/01_TCP聊天/Client/CubeClient.cs:111-197 | from one client to another over two sockets that each move any number of bytes: what arrives is always the first of the messages sent, and all of them with a clean end if neither client was stopped |
| `FrameSockets.PrefixOfWireIsRead` | 第二阶段_TinyGameNet/代码/01_TCP聊天/Client/CubeClient.cs:127-197 | a reader of any part of what the send loop put on the wire reads the first of the messages |
| `FrameSockets.FlattenIsWire` | 第二阶段_TinyGameNet/代码/01_TCP聊天/Client/CubeClient.cs:127-150 | the queued frames in a row are the encoding of the messages |

## Left out

- Interface.Tick: does not model the 64-bit wrap of the millisecond clock, because it takes 2^64 ms of reported time; the clock is unbounded.
- Interface.Receivable: an accepted ARP frame without an ARP message is excluded, because the source dereferences the empty optional.
- SenderState.Push: next position, ACK point, window right edge and retransmission count are unbounded naturals; the source's 64-bit sums agree while they fit, and `CountersFit` shows that the positions of a connection always do.
- ByteStream.Push: the two byte counters are unbounded naturals; in a reassembler the counter of bytes pushed stays below 2^64.
- Getters of the sender that only return a field or a difference of two.
- CubeClient.SendLoop: returns when its queue is empty, where the source sleeps and looks again; other threads appear only as a stop between any two steps.
- CubeClient.ReceiveLoop: the source's concurrent queues are sequences, so interleaved access to one queue is not modelled.
- Socket.Receive: a socket either delivers, or ends in order; receive errors raised by the operating system are not modelled.
- FrameCodec.Parse: message content is a byte sequence; UTF-8 decoding and encoding of text are not modelled.
- EncodeOnServer: requires that the frame fits an array, as the allocation does.
- The text-only overloads of the server's encoder and reader, which nothing calls.
- Accepting connections, threads, Unity callbacks, logging and console output.
- Access of an application to the reassembler's output other than popping from it.
- Liveness under a network that is not fair; progress is one exchange and the driver loop.
- Labs/Lab6_TinyNetworkInterface: placeholder stubs.
- Labs/Lab0_TinyNet: exact-match lookup and a bounded queue would only add easy members.
- Address types are strings without the parsing and printing of addresses.
