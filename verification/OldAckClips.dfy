/**
 * A legal run in which a byte sent under an open window finds no room at the receiver: the hypothesis
 * of the flow-control theorem cannot be dropped. The receiver has a capacity of one byte.
 *
 *   1. SYN goes out and arrives; the receiver acknowledges 1 and grants one byte.
 *   2. The first byte goes out, arrives and waits there unread; the receiver acknowledges 2 and grants none.
 *   3. The second ACK arrives, and then the first one once more: the window is open again.
 *   4. The second byte goes out under it, no probe, and the receiver drops it.
 */
module OldAckClips {
  import opened Words
  import opened WrappingIntegers
  import TinyStream
  import opened TinyReassembler
  import opened TcpReceiver
  import opened TcpSender
  import opened SenderInvariant
  import opened Connection
  import opened ConnectionSafety
  import opened FlowControl
  import Sending = SenderTheorems

  // Any watched run can be extended.

  lemma {:induction false} LegalExtends(c: State, run: seq<Action>, action: Action)
    requires Legal(c, run) && Enabled(Connection.Run(c, run), action)
    ensures Legal(c, run + [action]) && Connection.Run(c, run + [action]) == Apply(Connection.Run(c, run), action)
    decreases |run|
  {
    if run == [] {
      assert run + [action] == [action];
      assert [action][1..] == [];
    } else {
      assert (run + [action])[1..] == run[1..] + [action];
      LegalExtends(Apply(c, run[0]), run[1..], action);
    }
  }

  lemma {:induction false} WatchAllFollowsRun(w: Watched, run: seq<Action>)
    requires Legal(w.c, run)
    ensures WatchAll(w, run).c == Connection.Run(w.c, run)
    decreases |run|
  {
    if run != [] {
      WatchAllFollowsRun(Watch(w, run[0]), run[1..]);
    }
  }

  lemma {:induction false} WatchAllExtends(w: Watched, run: seq<Action>, action: Action)
    requires Legal(w.c, run) && Legal(w.c, run + [action]) && Enabled(WatchAll(w, run).c, action)
    ensures WatchAll(w, run + [action]) == Watch(WatchAll(w, run), action)
    decreases |run|
  {
    if run == [] {
      assert run + [action] == [action];
      assert [action][1..] == [];
    } else {
      assert (run + [action])[1..] == run[1..] + [action];
      WatchAllExtends(Watch(w, run[0]), run[1..], action);
    }
  }

  lemma WatchedRunExtends(w: Watched, action: Action)
    requires WatchedRun(w) && Enabled(w.c, action)
    ensures WatchedRun(Watch(w, action))
  {
    var g, run :| Observed(g, run, w);
    var start := Watched(NewConnection(g), 0, true, {});
    WatchAllFollowsRun(start, run);
    LegalExtends(start.c, run, action);
    WatchAllExtends(start, run, action);
    assert Observed(g, run + [action], Watch(w, action));
  }

  /** Some watched run without probes leads to c; neverOld says whether it heard no old ACK. */
  ghost predicate Visited(c: State, neverOld: bool) {
    exists heard :: WatchedRun(Watched(c, heard, neverOld, {}))
  }

  lemma VisitedExtends(c: State, neverOld: bool, action: Action, c': State)
    requires Visited(c, neverOld) && Enabled(c, action) && c' == Apply(c, action)
    requires c'.sender.window != 0 || c'.sender.log == c.sender.log
    ensures Visited(c', neverOld && (action.DeliverAck? ==> NotOld(c, action.index)))
  {
    var heard :| WatchedRun(Watched(c, heard, neverOld, {}));
    var w := Watched(c, heard, neverOld, {});
    WatchedRunExtends(w, action);
    assert NewProbes(c.sender, c'.sender) == {};
    assert Watch(w, action).probes == {};
    assert WatchedRun(Watched(c', Watch(w, action).heard, Watch(w, action).neverOld, {}));
  }

  // One lemma for each kind of action that the run below is made of.

  ghost predicate Sane(c: State) {
    c.sender.stream.Valid() && c.receiver.assembly.output.Valid()
  }

  lemma FillVisits(c: State, neverOld: bool, s': SenderState)
    requires Visited(c, neverOld) && Sane(c) && c.sender.Push() == s' && s'.window != 0
    ensures Visited(c.(sender := s'), neverOld)
  {
    VisitedExtends(c, neverOld, Local(Sending.Fill), c.(sender := s'));
  }

  lemma WriteVisits(c: State, neverOld: bool, data: seq<byte>, s': SenderState)
    requires Visited(c, neverOld) && Sane(c) && Write(c.sender, data) == s'
    requires FitsCounters(|c.sender.stream.accepted| + |data|, c.receiver.assembly.output.capacity)
    ensures Visited(c.(sender := s'), neverOld)
  {
    VisitedExtends(c, neverOld, Local(Sending.Write(data)), c.(sender := s'));
  }

  lemma TransmitVisits(c: State, neverOld: bool, segment: TcpSegment)
    requires Visited(c, neverOld) && Sane(c) && c.sender.queue == [segment]
    ensures Visited(c.(sender := c.sender.(queue := []), wire := c.wire + {segment}), neverOld)
  {
    assert (set q | q in c.sender.queue) == {segment};
    VisitedExtends(c, neverOld, Transmit, c.(sender := c.sender.(queue := []), wire := c.wire + {segment}));
  }

  lemma DeliverVisits(c: State, neverOld: bool, segment: TcpSegment, i: nat, r': ReceiverState)
    requires Visited(c, neverOld) && Sane(c) && segment in c.wire && |segment.payload| < MOD64
    requires i < |c.sender.log| && c.sender.log[i].segment == segment && Fresh(c, c.sender.log[i].start)
    requires c.receiver.Receive(segment) == r'
    ensures Visited(c.(receiver := r'), neverOld)
  {
    VisitedExtends(c, neverOld, Deliver(segment), c.(receiver := r'));
  }

  lemma AcknowledgeVisits(c: State, neverOld: bool, ack: Ack)
    requires Visited(c, neverOld) && Sane(c) && c.receiver.isn.Some? && Report(c.receiver) == ack
    ensures Visited(c.(acks := c.acks + [ack]), neverOld)
  {
    VisitedExtends(c, neverOld, Acknowledge, c.(acks := c.acks + [ack]));
  }

  lemma HearVisits(c: State, neverOld: bool, index: nat, s': SenderState)
    requires Visited(c, neverOld) && Sane(c) && index < |c.acks| && c.sender.next <= c.acks[index].absolute + HALF32
    requires c.sender.Receive(c.acks[index].message) == s' && s'.log == c.sender.log
    ensures Visited(c.(sender := s'), neverOld && NotOld(c, index))
  {
    VisitedExtends(c, neverOld, DeliverAck(index), c.(sender := s'));
  }

  // The run: one byte of receive capacity, two bytes x and y.

  function Setup(rto: uint64): Configuration { Configuration(2, 0, rto, 1, 1) }
  const SYN := TcpSegment(0, true, false, [])

  function DataSegment(at: uint32, b: byte): TcpSegment { TcpSegment(at, false, false, [b]) }

  function Entry(segment: TcpSegment, start: nat): OutstandingSegment { OutstandingSegment(segment, start, 1) }

  /** A sender of this run: what varies in it. */
  function SenderAt(rto: uint64, accepted: seq<byte>, popped: nat, acknowledged: nat, window: uint16,
                    outstanding: seq<OutstandingSegment>, queue: seq<TcpSegment>,
                    log: seq<OutstandingSegment>): SenderState
  {
    SenderState(TinyStream.Stream(2, accepted, popped, false), 0, rto, rto, 1,
                popped + Flag(log != []), acknowledged, window, 0, 0,
                log != [], false, outstanding != [], outstanding, queue, log)
  }

  function ReceiverWith(received: seq<byte>): ReceiverState {
    ReceiverState(Assembly(TinyStream.Stream(1, received, 0, false), map[], None), Some(0))
  }

  const FIRST_ACK := Ack(ReceiverMessage(Some(1), 1), 1)
  const SECOND_ACK := Ack(ReceiverMessage(Some(2), 0), 2)

  function Opened(rto: uint64): State {
    State(SenderAt(rto, [], 0, 0, 1, [Entry(SYN, 0)], [], [Entry(SYN, 0)]), ReceiverWith([]), {SYN}, [])
  }

  function Granted(rto: uint64): State {
    State(SenderAt(rto, [], 0, 1, 1, [], [], [Entry(SYN, 0)]), ReceiverWith([]), {SYN}, [FIRST_ACK])
  }

  function FirstSent(rto: uint64, x: byte): State {
    var e := Entry(DataSegment(1, x), 1);
    State(SenderAt(rto, [x], 1, 1, 1, [e], [], [Entry(SYN, 0), e]), ReceiverWith([]),
          {SYN, DataSegment(1, x)}, [FIRST_ACK])
  }

  function FirstHeld(rto: uint64, x: byte): State {
    FirstSent(rto, x).(receiver := ReceiverWith([x]), acks := [FIRST_ACK, SECOND_ACK])
  }

  /** The receiver is full and the sender knows it, until the first ACK comes again. */
  function Closed(rto: uint64, x: byte, window: uint16): State {
    FirstHeld(rto, x).(sender := SenderAt(rto, [x], 1, 2, window, [], [], [Entry(SYN, 0), Entry(DataSegment(1, x), 1)]))
  }

  function SecondSent(rto: uint64, x: byte, y: byte): State {
    var e := Entry(DataSegment(2, y), 2);
    var log := [Entry(SYN, 0), Entry(DataSegment(1, x), 1), e];
    State(SenderAt(rto, [x, y], 2, 2, 1, [e], [], log), ReceiverWith([x]),
          {SYN, DataSegment(1, x), DataSegment(2, y)}, [FIRST_ACK, SECOND_ACK])
  }

  lemma PushSendsOne(s: SenderState, segment: TcpSegment)
    requires s.stream.Valid() && s.next < s.WindowRight() && s.NextSegment() == segment && SequenceLength(segment) > 0
    requires s.stream.Buffered() == |segment.payload| && !s.stream.closed && (s.synSent || segment.syn)
    ensures s.Push() == s.Send(segment)
  {
    PushUnfolds(s);
  }

  // To the first grant

  function SynQueued(rto: uint64): SenderState {
    SenderAt(rto, [], 0, 0, 1, [Entry(SYN, 0)], [SYN], [Entry(SYN, 0)])
  }

  function AfterSyn(s: SenderState, segment: TcpSegment): SenderState {
    var e := Entry(segment, 0);
    s.(synSent := true, next := 1, outstanding := [e], queue := [segment], log := [e],
       timerRunning := true, elapsed := 0)
  }

  lemma SynIsEnqueued(s: SenderState, segment: TcpSegment)
    requires s.outstanding == [] && s.queue == [] && s.log == [] && s.next == 0
    requires s.stream.Valid() && |segment.payload| == 0 && segment.syn && !segment.fin
    ensures s.Send(segment) == AfterSyn(s, segment)
  {
  }

  /** The first push of a sender sends its SYN and nothing else. */
  lemma FirstPushSendsSyn(s: SenderState, segment: TcpSegment)
    requires s.stream.Valid() && s.stream.Buffered() == 0 && !s.stream.closed
    requires s.next == 0 && s.acknowledged == 0 && s.window == 1 && !s.synSent && !s.finSent
    requires s.outstanding == [] && s.queue == [] && s.log == []
    requires segment == TcpSegment(Wrap(0, s.isn), true, false, [])
    ensures s.Push() == AfterSyn(s, segment)
  {
    SynIsEnqueued(s, segment);
    PushSendsOne(s, segment);
  }

  lemma NewIsVisited(g: Configuration, c: State)
    requires FitsCounters(0, g.receiveCapacity) && c == NewConnection(g)
    ensures Visited(c, true)
  {
    assert Observed(g, [], Watched(c, 0, true, {}));
  }

  lemma SynIsQueued(rto: uint64, c: State)
    requires c == NewConnection(Setup(rto))
    ensures Visited(c.(sender := SynQueued(rto)), true)
  {
    NewIsVisited(Setup(rto), c);
    FirstPushSendsSyn(c.sender, SYN);
    FillVisits(c, true, SynQueued(rto));
  }

  lemma SynIsOnTheWire(rto: uint64, c: State)
    requires c == NewConnection(Setup(rto)).(sender := SynQueued(rto))
    ensures Visited(Opened(rto).(receiver := NewReceiver(1)), true)
  {
    SynIsQueued(rto, NewConnection(Setup(rto)));
    TransmitVisits(c, true, SYN);
    assert c.wire + {SYN} == {SYN};
    assert c.(sender := c.sender.(queue := []), wire := {SYN}) == Opened(rto).(receiver := NewReceiver(1));
  }

  lemma SynArrives(rto: uint64)
    ensures Visited(Opened(rto), true)
  {
    SynIsOnTheWire(rto, NewConnection(Setup(rto)).(sender := SynQueued(rto)));
    SynOpensEmptyStream(1, 0);
    DeliverVisits(Opened(rto).(receiver := NewReceiver(1)), true, SYN, 0, ReceiverWith([]));
  }

  lemma FirstAckIsMade(rto: uint64, c: State)
    requires c == Opened(rto)
    ensures Visited(c.(acks := [FIRST_ACK]), true)
  {
    SynArrives(rto);
    ReportWhenEmpty(c.receiver);
    AcknowledgeVisits(c, true, FIRST_ACK);
    assert c.acks + [FIRST_ACK] == [FIRST_ACK];
  }

  lemma FirstAckOpensWindow(rto: uint64, c: State, c': State)
    requires c == Opened(rto).(acks := [FIRST_ACK]) && c' == Granted(rto)
    ensures Visited(c', true)
  {
    FirstAckIsMade(rto, Opened(rto));
    HearFirst(rto, c, c'.sender);
    HearVisits(c, true, 0, c'.sender);
    assert c.(sender := c'.sender) == c';
  }

  lemma ReportWhenEmpty(r: ReceiverState)
    requires r == ReceiverWith([])
    ensures r.assembly.output.Valid() && Report(r) == FIRST_ACK
  {
  }

  lemma ReportWhenFull(r: ReceiverState, x: byte)
    requires r == ReceiverWith([x])
    ensures r.assembly.output.Valid() && Report(r) == SECOND_ACK
  {
  }

  lemma OnlySegmentIsFreed(e: OutstandingSegment, absoluteAck: nat)
    requires e.End() <= absoluteAck
    ensures DropCovered([e], absoluteAck) == []
  {
    assert [e][1..] == [];
  }

  lemma HearFirst(rto: uint64, c: State, s': SenderState)
    requires c == Opened(rto).(acks := [FIRST_ACK]) && s' == Granted(rto).sender
    ensures Sane(c) && NotOld(c, 0) && c.sender.next <= c.acks[0].absolute + HALF32
    ensures c.sender.Receive(c.acks[0].message) == s' && s'.log == c.sender.log
  {
    var s := c.sender;
    OnlySegmentIsFreed(s.outstanding[0], 1);
    HearsNew(s, FIRST_ACK.message, 1, s');
  }

  /** An ACK for everything sent, by a sender with an empty buffer. */
  lemma HearsNew(s: SenderState, message: ReceiverMessage, absolute: nat, s': SenderState)
    requires s.stream.Valid() && s.stream.Buffered() == 0 && s.synSent && !s.stream.closed
    requires message.ackno.Some? && Unwrap(message.ackno.value, s.isn, s.next) == absolute
    requires s.acknowledged < absolute <= s.next && s.(window := message.window).Advance(absolute) == s'
    ensures s.Receive(message) == s'
  {
  }

  // The first byte fills the receiver

  lemma FirstByteIsSent(rto: uint64, x: byte)
    ensures Visited(FirstSent(rto, x), true)
  {
    FirstAckOpensWindow(rto, Opened(rto).(acks := [FIRST_ACK]), Granted(rto));
    var c := Granted(rto);
    var written := SenderAt(rto, [x], 0, 1, 1, [], [], [Entry(SYN, 0)]);
    WriteVisits(c, true, [x], written);
    var sent := FirstSent(rto, x).sender.(queue := [DataSegment(1, x)]);
    PushFirst(rto, x);
    FillVisits(c.(sender := written), true, sent);
    TransmitVisits(c.(sender := sent), true, DataSegment(1, x));
    assert {SYN} + {DataSegment(1, x)} == {SYN, DataSegment(1, x)};
  }

  lemma PushFirst(rto: uint64, x: byte)
    ensures SenderAt(rto, [x], 0, 1, 1, [], [], [Entry(SYN, 0)]).Push()
         == FirstSent(rto, x).sender.(queue := [DataSegment(1, x)])
  {
    var s := SenderAt(rto, [x], 0, 1, 1, [], [], [Entry(SYN, 0)]);
    assert s.NextSegment() == DataSegment(1, x);
    PushSendsOne(s, DataSegment(1, x));
  }

  lemma FirstByteHasIndexZero(r: ReceiverState, segment: TcpSegment, x: byte)
    requires r == ReceiverWith([]) && segment == DataSegment(1, x)
    ensures r.FirstIndex(segment, 0) == 0
  {
  }

  lemma FirstByteFillsReceiver(r: ReceiverState, segment: TcpSegment, x: byte)
    requires r == ReceiverWith([]) && segment == DataSegment(1, x)
    ensures r.Receive(segment) == ReceiverWith([x])
  {
    ReceiveInSteps(r, segment);
    FirstByteHasIndexZero(r, segment, x);
    FirstByteIsDelivered(1, x);
  }

  lemma FirstByteArrives(rto: uint64, x: byte, c: State)
    requires c == FirstSent(rto, x)
    ensures Visited(c.(receiver := ReceiverWith([x])), true)
  {
    FirstByteIsSent(rto, x);
    FirstByteFillsReceiver(ReceiverWith([]), DataSegment(1, x), x);
    DeliverVisits(c, true, DataSegment(1, x), 1, ReceiverWith([x]));
  }

  lemma SecondAckIsMade(rto: uint64, x: byte, c: State)
    requires c == FirstSent(rto, x).(receiver := ReceiverWith([x]))
    ensures Visited(FirstHeld(rto, x), true)
  {
    FirstByteArrives(rto, x, FirstSent(rto, x));
    FirstHeldAppends(rto, x, c);
    ReportWhenFull(c.receiver, x);
    AcknowledgeVisits(c, true, SECOND_ACK);
  }

  lemma FirstHeldAppends(rto: uint64, x: byte, c: State)
    requires c == FirstSent(rto, x).(receiver := ReceiverWith([x]))
    ensures c.(acks := c.acks + [SECOND_ACK]) == FirstHeld(rto, x)
    ensures Sane(c) && c.receiver.isn.Some?
  {
    assert c.acks + [SECOND_ACK] == [FIRST_ACK, SECOND_ACK];
  }

  // The two ACKs arrive in the wrong order

  lemma HearSecond(rto: uint64, x: byte, s: SenderState, s': SenderState)
    requires s == FirstHeld(rto, x).sender && s' == Closed(rto, x, 0).sender
    ensures s.Receive(SECOND_ACK.message) == s'
  {
    OnlySegmentIsFreed(s.outstanding[0], 2);
    HearsNew(s, SECOND_ACK.message, 2, s');
  }

  lemma HearOld(rto: uint64, x: byte, s: SenderState, s': SenderState)
    requires s == Closed(rto, x, 0).sender && s' == Closed(rto, x, 1).sender
    ensures s.Receive(FIRST_ACK.message) == s'
  {
  }

  lemma WindowReopens(rto: uint64, x: byte)
    ensures Visited(Closed(rto, x, 1), false)
  {
    SecondAckIsMade(rto, x, FirstSent(rto, x).(receiver := ReceiverWith([x])));
    HearSecond(rto, x, FirstHeld(rto, x).sender, Closed(rto, x, 0).sender);
    HearVisits(FirstHeld(rto, x), true, 1, Closed(rto, x, 0).sender);
    HearOld(rto, x, Closed(rto, x, 0).sender, Closed(rto, x, 1).sender);
    HearVisits(Closed(rto, x, 0), true, 0, Closed(rto, x, 1).sender);
  }

  lemma PushSecond(rto: uint64, x: byte, y: byte)
    ensures var log := [Entry(SYN, 0), Entry(DataSegment(1, x), 1)];
            SenderAt(rto, [x, y], 1, 2, 1, [], [], log).Push()
            == SecondSent(rto, x, y).sender.(queue := [DataSegment(2, y)])
  {
    var log := [Entry(SYN, 0), Entry(DataSegment(1, x), 1)];
    var s := SenderAt(rto, [x, y], 1, 2, 1, [], [], log);
    assert s.NextSegment() == DataSegment(2, y);
    PushSendsOne(s, DataSegment(2, y));
  }

  lemma SecondByteIsSent(rto: uint64, x: byte, y: byte)
    ensures Visited(SecondSent(rto, x, y), false)
  {
    WindowReopens(rto, x);
    var c := Closed(rto, x, 1);
    var written := SenderAt(rto, [x, y], 1, 2, 1, [], [], c.sender.log);
    WriteVisits(c, false, [y], written);
    var sent := SecondSent(rto, x, y).sender.(queue := [DataSegment(2, y)]);
    PushSecond(rto, x, y);
    FillVisits(c.(sender := written), false, sent);
    TransmitVisits(c.(sender := sent), false, DataSegment(2, y));
    assert c.wire + {DataSegment(2, y)} == SecondSent(rto, x, y).wire;
  }

  lemma SecondByteIsDropped(x: byte, y: byte, r: ReceiverState, segment: TcpSegment)
    requires r == ReceiverWith([x]) && segment == DataSegment(2, y)
    ensures r.Receive(segment) == r
  {
    ReceiveInSteps(r, segment);
    assert r.FirstIndex(segment, 0) == 1;
    InsertInSteps(r.assembly, 1, segment.payload, false);
  }

  /** The state after step 3 and the second byte, which may arrive at once and is dropped. */
  lemma GrantedByteIsClipped(rto: uint64, x: byte, y: byte) returns (w: Watched)
    ensures WatchedRun(w) && !w.neverOld && w.probes == {}
    ensures |w.c.sender.log| == 3 && w.c.sender.window == 1
    ensures Enabled(w.c, Deliver(w.c.sender.log[2].segment)) && Fresh(w.c, w.c.sender.log[2].start)
    ensures PayloadIndex(w.c.sender.log[2]) == 1 && PayloadEnd(w.c.sender.log[2]) == 2
    ensures w.c.receiver.Receive(w.c.sender.log[2].segment) == w.c.receiver
    ensures w.c.receiver.assembly.Edge() == 1 && 1 !in w.c.receiver.assembly.Known()
  {
    SecondByteIsSent(rto, x, y);
    var c := SecondSent(rto, x, y);
    SecondByteIsDropped(x, y, c.receiver, DataSegment(2, y));
    var heard :| WatchedRun(Watched(c, heard, false, {}));
    w := Watched(c, heard, false, {});
  }
}
