/** One sender and one receiver joined by a network that loses, repeats and reorders segments and ACKs. */
module Connection {
  import opened Words
  import opened WrappingIntegers
  import opened TinyStream
  import opened TinyReassembler
  import opened ReassemblyTheorems
  import opened TcpReceiver
  import opened TcpSender
  import opened SenderInvariant
  import Sending = SenderTheorems

  /** A message of the receiver, with the absolute position it acknowledges. */
  datatype Ack = Ack(message: ReceiverMessage, absolute: nat)

  /**
   * Both ends, every segment ever transmitted and every ACK ever made: any of them may arrive at any
   * time, any number of times, or never.
   */
  datatype State = State(sender: SenderState, receiver: ReceiverState, wire: set<TcpSegment>, acks: seq<Ack>)

  datatype Action =
    | Local(step: Sending.Step)
    | Transmit
    | Deliver(segment: TcpSegment)
    | Read(maxLen: nat)
    | Acknowledge
    | DeliverAck(index: nat)

  datatype Configuration = Configuration(
    sendCapacity: uint64,
    isn: uint32,
    initialRto: uint64,
    mss: uint64,
    receiveCapacity: uint64)

  function NewConnection(g: Configuration): State {
    State(NewSender(g.sendCapacity, g.isn, g.initialRto, g.mss), NewReceiver(g.receiveCapacity), {}, [])
  }

  /** Total sequence space and receive window stay within the 64-bit counters. */
  predicate FitsCounters(written: nat, receiveCapacity: nat) {
    written + receiveCapacity + MAX_WINDOW + 2 < MOD64
  }

  /** A segment that is not older than half the 32-bit sequence space when it arrives. */
  predicate Fresh(c: State, start: nat) {
    c.receiver.assembly.Next() + 1 <= start + HALF32
  }

  ghost predicate FreshOnWire(c: State, segment: TcpSegment) {
    exists i :: 0 <= i < |c.sender.log| && c.sender.log[i].segment == segment && Fresh(c, c.sender.log[i].start)
  }

  ghost predicate Enabled(c: State, action: Action) {
    && c.sender.stream.Valid() && c.receiver.assembly.output.Valid()
    && match action
       case Local(step) =>
         && !step.Hear? && !step.Take?
         && (step.Write? ==>
               FitsCounters(|c.sender.stream.accepted| + |step.data|, c.receiver.assembly.output.capacity))
       case Deliver(segment) => segment in c.wire && |segment.payload| < MOD64 && FreshOnWire(c, segment)
       case DeliverAck(index) => index < |c.acks| && c.sender.next <= c.acks[index].absolute + HALF32
       case _ => true
  }

  /** The receiver's report, its window clamped to the 16 bits of the message field. */
  function Report(r: ReceiverState): Ack
    requires r.assembly.output.Valid()
  {
    Ack(ReceiverMessage(r.Ackno(), Min(r.WindowSize(), MAX_WINDOW)), r.AbsoluteAck())
  }

  ghost function Apply(c: State, action: Action): (c': State)
    requires Enabled(c, action)
  {
    match action
    case Local(step) => c.(sender := Sending.Apply(c.sender, step))
    case Transmit => c.(sender := c.sender.TakeSegments(), wire := c.wire + set q | q in c.sender.queue)
    case Deliver(segment) => c.(receiver := c.receiver.Receive(segment))
    case Read(maxLen) => c.(receiver := c.receiver.Read(maxLen))
    case Acknowledge => if c.receiver.isn.None? then c else c.(acks := c.acks + [Report(c.receiver)])
    case DeliverAck(index) => c.(sender := c.sender.Receive(c.acks[index].message))
  }

  ghost predicate Legal(c: State, run: seq<Action>)
    decreases |run|
  {
    run == [] || (Enabled(c, run[0]) && Legal(Apply(c, run[0]), run[1..]))
  }

  ghost function Run(c: State, run: seq<Action>): State
    requires Legal(c, run)
    decreases |run|
  {
    if run == [] then c else Run(Apply(c, run[0]), run[1..])
  }

  /** The bytes the sender has cut into segments so far. */
  function SentBytes(s: SenderState): seq<byte>
    requires s.stream.popped <= |s.stream.accepted|
  {
    s.stream.accepted[..s.stream.popped]
  }

  ghost predicate ReceiverInvariant(r: ReceiverState, s: SenderState)
    requires s.stream.popped <= |s.stream.accepted|
  {
    && r.WellFormed()
    && (r.isn.Some? ==> r.isn.value == s.isn && s.synSent)
    && Refines(r.assembly, SentBytes(s), s.finSent)
    && s.acknowledged <= r.AbsoluteAck()
  }

  ghost predicate AckInvariant(ack: Ack, r: ReceiverState, s: SenderState) {
    ack.absolute <= r.AbsoluteAck() && ack.message.ackno == Some(Wrap(ack.absolute, s.isn))
  }

  ghost predicate NetworkInvariant(c: State) {
    && (forall segment {:trigger WasSent(segment, c.sender.log)} ::
          segment in c.wire ==> WasSent(segment, c.sender.log))
    && (forall j {:trigger AckInvariant(c.acks[j], c.receiver, c.sender)} ::
          0 <= j < |c.acks| ==> AckInvariant(c.acks[j], c.receiver, c.sender))
  }

  ghost predicate Inv(c: State) {
    && Invariant(c.sender)
    && ReceiverInvariant(c.receiver, c.sender)
    && NetworkInvariant(c)
    && FitsCounters(|c.sender.stream.accepted|, c.receiver.assembly.output.capacity)
  }

  // The ACK sandwich

  /** The receiver never acknowledges more than was sent, and the sender never believes more than was received. */
  lemma AckIsBetween(r: ReceiverState, s: SenderState)
    requires Counted(s) && ReceiverInvariant(r, s)
    ensures s.acknowledged <= r.AbsoluteAck() <= s.next
    ensures r.assembly.Next() <= s.stream.popped
  {
    DeliveredIsPrefix(r.assembly, SentBytes(s), s.finSent);
  }

  // Sender steps

  lemma SenderStepKeepsReceiver(r: ReceiverState, s: SenderState, s': SenderState)
    requires Counted(s) && Counted(s') && Sending.Extends(s, s') && ReceiverInvariant(r, s)
    requires s'.acknowledged <= r.AbsoluteAck()
    ensures ReceiverInvariant(r, s')
  {
  }

  lemma SenderStepKeepsNetwork(c: State, s': SenderState)
    requires NetworkInvariant(c) && Sending.Extends(c.sender, s')
    ensures NetworkInvariant(c.(sender := s'))
  {
    var c' := c.(sender := s');
    forall segment | segment in c'.wire
      ensures WasSent(segment, s'.log)
    {
      WasSentPersists(segment, c.sender.log, s'.log);
    }
    forall j | 0 <= j < |c'.acks|
      ensures AckInvariant(c'.acks[j], c'.receiver, s')
    {
      assert AckInvariant(c.acks[j], c.receiver, c.sender);
    }
  }

  lemma LocalStepKeepsAckPoint(s: SenderState, step: Sending.Step)
    requires s.stream.Valid() && !step.Hear?
    ensures Sending.Apply(s, step).acknowledged == s.acknowledged
    ensures !step.Write? ==> Sending.Apply(s, step).stream.accepted == s.stream.accepted
  {
    PushKeepsFrame(s);
  }

  lemma SenderStepKeepsInv(c: State, step: Sending.Step)
    requires Inv(c)
    requires step.Write? ==> FitsCounters(|c.sender.stream.accepted| + |step.data|, c.receiver.assembly.output.capacity)
    requires Sending.Apply(c.sender, step).acknowledged <= c.receiver.AbsoluteAck()
    ensures Inv(c.(sender := Sending.Apply(c.sender, step)))
  {
    var s' := Sending.Apply(c.sender, step);
    Sending.StepKeepsInvariant(c.sender, step);
    Sending.StepOnlyExtends(c.sender, step);
    SenderStepKeepsReceiver(c.receiver, c.sender, s');
    SenderStepKeepsNetwork(c, s');
    if step.Hear? {
      Sending.ReceiveKeepsFrame(c.sender, step.message);
    } else {
      LocalStepKeepsAckPoint(c.sender, step);
    }
  }

  lemma TransmitKeepsInv(c: State)
    requires Inv(c)
    ensures Inv(Apply(c, Transmit))
  {
    var c1 := c.(wire := c.wire + set q | q in c.sender.queue);
    assert Inv(c1);
    SenderStepKeepsInv(c1, Sending.Take);
    assert Apply(c, Transmit) == c1.(sender := Sending.Apply(c1.sender, Sending.Take));
  }

  lemma AckDecodes(c: State, index: nat)
    requires Inv(c) && Enabled(c, DeliverAck(index))
    ensures var message := c.acks[index].message;
            message.ackno.Some? && Unwrap(message.ackno.value, c.sender.isn, c.sender.next) == c.acks[index].absolute
    ensures c.acks[index].absolute <= c.receiver.AbsoluteAck() <= c.sender.next
  {
    assert AckInvariant(c.acks[index], c.receiver, c.sender);
    AckIsBetween(c.receiver, c.sender);
    UnwrapNearby(c.acks[index].absolute, c.sender.isn, c.sender.next);
  }

  lemma HearMovesAckPoint(s: SenderState, message: ReceiverMessage)
    requires s.stream.Valid() && message.ackno.Some?
    requires Unwrap(message.ackno.value, s.isn, s.next) <= s.next
    ensures s.Receive(message).acknowledged == Max(s.acknowledged, Unwrap(message.ackno.value, s.isn, s.next))
    ensures s.Receive(message).window == message.window
  {
    var absolute := Unwrap(message.ackno.value, s.isn, s.next);
    PushKeepsFrame(s.(window := message.window));
    PushKeepsFrame(s.(window := message.window).Advance(absolute));
  }

  lemma DeliverAckKeepsInv(c: State, index: nat)
    requires Inv(c) && Enabled(c, DeliverAck(index))
    ensures Inv(Apply(c, DeliverAck(index)))
  {
    AckDecodes(c, index);
    HearMovesAckPoint(c.sender, c.acks[index].message);
    SenderStepKeepsInv(c, Sending.Hear(c.acks[index].message));
  }

  // Receiver steps

  /** A segment as the fragment of the sender's stream that it carries. */
  function AsFragment(e: OutstandingSegment): Fragment
    requires PayloadIndex(e) < MOD64
  {
    Fragment(PayloadIndex(e), e.segment.payload, e.segment.fin)
  }

  lemma FaithfulIsCut(e: OutstandingSegment, s: SenderState)
    requires Counted(s) && Faithful(e, s) && s.next < MOD64
    ensures CutFrom(AsFragment(e), SentBytes(s), s.finSent)
  {
  }

  lemma ReceiverIsNear(r: ReceiverState, s: SenderState, start: nat)
    requires Counted(s) && ReceiverInvariant(r, s) && start < s.next < MOD64
    ensures start < r.assembly.Next() + 1 + HALF32 && r.assembly.Next() + 1 < MOD64
  {
    AckIsBetween(r, s);
  }

  lemma WireNumberDecodes(c: State, e: OutstandingSegment)
    requires Inv(c) && Faithful(e, c.sender) && e.start < c.sender.next && Fresh(c, e.start)
    ensures Unwrap(e.segment.seqno, c.sender.isn, c.receiver.Checkpoint()) == e.start
  {
    ReceiverIsNear(c.receiver, c.sender, e.start);
    UnwrapNearby(e.start, c.sender.isn, c.receiver.Checkpoint());
  }

  lemma FirstIndexIsPayloadIndex(r: ReceiverState, e: OutstandingSegment, zeroPoint: uint32)
    requires Unwrap(e.segment.seqno, zeroPoint, r.Checkpoint()) == e.start < MOD64
    requires e.segment.syn <==> e.start == 0
    ensures r.FirstIndex(e.segment, zeroPoint) == PayloadIndex(e)
  {
  }

  /** Past the SYN, a fresh genuine segment is inserted at exactly the place it was cut from. */
  lemma DeliverIsTake(c: State, e: OutstandingSegment)
    requires Inv(c) && Faithful(e, c.sender) && e.start < c.sender.next && Fresh(c, e.start)
    requires c.receiver.isn.Some? || e.segment.syn
    ensures PayloadIndex(e) < MOD64 && |e.segment.payload| < MOD64
    ensures c.receiver.Receive(e.segment) == ReceiverState(Take(c.receiver.assembly, AsFragment(e)), Some(c.sender.isn))
  {
    WireNumberDecodes(c, e);
    SynCarriesIsn(e, c.sender);
    FirstIndexIsPayloadIndex(c.receiver, e, c.sender.isn);
    ReceiveInSteps(c.receiver, e.segment);
  }

  lemma SynCarriesIsn(e: OutstandingSegment, s: SenderState)
    requires Faithful(e, s)
    ensures e.segment.syn ==> e.segment.seqno == s.isn
  {
  }

  /** The acceptance edge of a connection fits 64 bits, so the reassembler compares with the true one. */
  lemma EdgeFits(c: State)
    requires Counted(c.sender) && ReceiverInvariant(c.receiver, c.sender)
    requires FitsCounters(|c.sender.stream.accepted|, c.receiver.assembly.output.capacity)
    ensures c.receiver.assembly.Edge() < MOD64 && c.receiver.assembly.Right() == c.receiver.assembly.Edge()
  {
    AckIsBetween(c.receiver, c.sender);
    RightIsEdgeIff(c.receiver.assembly);
  }

  lemma AbsoluteAckGrows(r: ReceiverState, segment: TcpSegment)
    requires r.WellFormed() && |segment.payload| < MOD64
    ensures r.AbsoluteAck() <= r.Receive(segment).AbsoluteAck()
    ensures r.assembly.Next() <= r.Receive(segment).assembly.Next()
    ensures r.Receive(segment).assembly.output.capacity == r.assembly.output.capacity
    ensures r.Receive(segment).assembly.output.popped == r.assembly.output.popped
  {
    if r.isn.Some? || segment.syn {
      InsertMarksAndCloses(r.assembly, r.FirstIndex(segment, r.ZeroPoint(segment)), segment.payload, segment.fin);
      ReceiveInSteps(r, segment);
    }
  }

  lemma LogEntryIsFaithful(s: SenderState, i: nat)
    requires Invariant(s) && i < |s.log|
    ensures Faithful(s.log[i], s) && s.log[i].End() <= s.next && s.log[i].start < s.next
  {
    assert Faithful(s.log[i], s);
    Sending.EarlierEndsBefore(s.log, s.next, i, |s.log| - 1);
  }

  lemma DeliverKeepsReceiver(c: State, e: OutstandingSegment)
    requires Inv(c) && Faithful(e, c.sender) && e.start < c.sender.next && Fresh(c, e.start)
    requires |e.segment.payload| < MOD64
    ensures ReceiverInvariant(c.receiver.Receive(e.segment), c.sender)
  {
    if c.receiver.isn.Some? || e.segment.syn {
      DeliverIsTake(c, e);
      FaithfulIsCut(e, c.sender);
      InsertRefines(c.receiver.assembly, AsFragment(e), SentBytes(c.sender), c.sender.finSent);
      AbsoluteAckGrows(c.receiver, e.segment);
    }
  }

  lemma ReceiverStepKeepsNetwork(c: State, r': ReceiverState)
    requires NetworkInvariant(c) && c.receiver.AbsoluteAck() <= r'.AbsoluteAck()
    ensures NetworkInvariant(c.(receiver := r'))
  {
    var c' := c.(receiver := r');
    forall j | 0 <= j < |c'.acks|
      ensures AckInvariant(c'.acks[j], r', c'.sender)
    {
      assert AckInvariant(c.acks[j], c.receiver, c.sender);
    }
  }

  lemma DeliverKeepsInv(c: State, segment: TcpSegment)
    requires Inv(c) && Enabled(c, Deliver(segment))
    ensures Inv(Apply(c, Deliver(segment)))
  {
    var i :| 0 <= i < |c.sender.log| && c.sender.log[i].segment == segment && Fresh(c, c.sender.log[i].start);
    LogEntryIsFaithful(c.sender, i);
    DeliverKeepsReceiver(c, c.sender.log[i]);
    AbsoluteAckGrows(c.receiver, segment);
    ReceiverStepKeepsNetwork(c, c.receiver.Receive(segment));
  }

  lemma ReadKeepsInv(c: State, maxLen: nat)
    requires Inv(c)
    ensures Inv(Apply(c, Action.Read(maxLen)))
  {
    ReadKeepsWellFormed(c.receiver.assembly, maxLen);
    ReceiverStepKeepsNetwork(c, c.receiver.Read(maxLen));
  }

  lemma ActionKeepsInv(c: State, action: Action)
    requires Inv(c) && Enabled(c, action)
    ensures Inv(Apply(c, action))
  {
    match action
    case Local(step) =>
      LocalStepKeepsAckPoint(c.sender, step);
      SenderStepKeepsInv(c, step);
    case Transmit => TransmitKeepsInv(c);
    case Deliver(segment) => DeliverKeepsInv(c, segment);
    case Read(maxLen) => ReadKeepsInv(c, maxLen);
    case Acknowledge =>
    case DeliverAck(index) => DeliverAckKeepsInv(c, index);
  }

  lemma {:induction false} RunKeepsInv(c: State, run: seq<Action>)
    requires Inv(c) && Legal(c, run)
    ensures Inv(Run(c, run))
    decreases |run|
  {
    if run != [] {
      ActionKeepsInv(c, run[0]);
      RunKeepsInv(Apply(c, run[0]), run[1..]);
    }
  }

  lemma NewConnectionSatisfiesInv(g: Configuration)
    requires FitsCounters(0, g.receiveCapacity)
    ensures Inv(NewConnection(g))
  {
  }
}
