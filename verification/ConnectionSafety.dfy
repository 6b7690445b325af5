/** What holds of both ends in every reachable state of a connection. */
module ConnectionSafety {
  import opened Words
  import opened WrappingIntegers
  import opened TinyReassembler
  import opened ReassemblyTheorems
  import opened TcpReceiver
  import opened TcpSender
  import opened SenderInvariant
  import opened Connection
  import Sending = SenderTheorems

  /** The state some legal run of a new connection ends in. */
  ghost predicate Reaches(g: Configuration, run: seq<Action>, c: State) {
    FitsCounters(0, g.receiveCapacity) && Legal(NewConnection(g), run) && Connection.Run(NewConnection(g), run) == c
  }

  ghost predicate Reachable(c: State) {
    exists g, run :: Reaches(g, run, c)
  }

  lemma ReachableSatisfiesInv(c: State)
    requires Reachable(c)
    ensures Inv(c)
  {
    var g, run :| Reaches(g, run, c);
    NewConnectionSatisfiesInv(g);
    RunKeepsInv(NewConnection(g), run);
  }

  /**
   * End-to-end safety: what the reading application has taken plus what waits for it is a prefix of
   * what the writing application wrote, and the receiving stream is closed only when the writer has
   * closed and all of it has arrived.
   */
  lemma DeliveredIsPrefixOfWritten(c: State)
    requires Reachable(c)
    ensures var written, received := c.sender.stream, c.receiver.assembly.output;
            && received.Valid()
            && received.accepted[..received.popped] + received.Unread() <= written.accepted
            && (received.closed ==> written.closed && received.accepted == written.accepted)
  {
    ReachableSatisfiesInv(c);
    var written, received := c.sender.stream, c.receiver.assembly.output;
    DeliveredIsPrefix(c.receiver.assembly, SentBytes(c.sender), c.sender.finSent);
    assert received.accepted[..received.popped] + received.Unread() == received.accepted;
    assert SentBytes(c.sender) <= written.accepted;
  }

  /**
   * The ACK sandwich: acknowledged <= the receiver's ACK <= next; so every segment no longer
   * outstanding is held by the receiver in full.
   */
  lemma FreedSegmentsWereReceived(c: State)
    requires Reachable(c)
    ensures c.sender.acknowledged <= c.receiver.AbsoluteAck() <= c.sender.next
    ensures forall i {:trigger c.sender.log[i]} :: 0 <= i < |c.sender.log| - |c.sender.outstanding| ==>
              && PayloadEnd(c.sender.log[i]) <= c.receiver.assembly.Next()
              && (c.sender.log[i].segment.fin ==> c.receiver.assembly.output.closed)
  {
    ReachableSatisfiesInv(c);
    AckIsBetween(c.receiver, c.sender);
    forall i | 0 <= i < |c.sender.log| - |c.sender.outstanding|
      ensures PayloadEnd(c.sender.log[i]) <= c.receiver.assembly.Next()
      ensures c.sender.log[i].segment.fin ==> c.receiver.assembly.output.closed
    {
      LogEntryIsFaithful(c.sender, i);
      FreedEndsBeforeAck(c.sender, i);
      HeldInFull(c.receiver, c.sender, c.sender.log[i]);
    }
  }

  lemma FreedEndsBeforeAck(s: SenderState, i: nat)
    requires Invariant(s) && i < |s.log| - |s.outstanding|
    ensures s.log[i].End() <= s.acknowledged
  {
    var k := |s.log| - |s.outstanding|;
    if s.outstanding != [] {
      assert s.outstanding[0] == s.log[k];
      Sending.EarlierEndsBefore(s.log, s.next, i, k);
    } else {
      Sending.EarlierEndsBefore(s.log, s.next, i, |s.log| - 1);
    }
  }

  lemma HeldInFull(r: ReceiverState, s: SenderState, e: OutstandingSegment)
    requires Counted(s) && ReceiverInvariant(r, s) && Faithful(e, s) && e.End() <= r.AbsoluteAck()
    ensures PayloadEnd(e) <= r.assembly.Next()
    ensures e.segment.fin ==> r.assembly.output.closed
  {
    AckIsBetween(r, s);
    DeliveredIsPrefix(r.assembly, SentBytes(s), s.finSent);
  }

  lemma ActionExtendsSender(c: State, action: Action)
    requires Enabled(c, action)
    ensures Sending.Extends(c.sender, Apply(c, action).sender)
  {
    match action
    case Local(step) => Sending.StepOnlyExtends(c.sender, step);
    case DeliverAck(index) => Sending.StepOnlyExtends(c.sender, Sending.Hear(c.acks[index].message));
    case _ =>
  }

  /** No action takes the receiver's ACK, the delivered bytes, the acceptance edge or any history back. */
  ghost predicate Onward(c: State, c': State) {
    && c.receiver.AbsoluteAck() <= c'.receiver.AbsoluteAck()
    && c.receiver.assembly.output.popped <= c'.receiver.assembly.output.popped
    && c'.receiver.assembly.output.capacity == c.receiver.assembly.output.capacity
    && Sending.Extends(c.sender, c'.sender)
    && c.acks <= c'.acks
  }

  lemma ActionIsOnward(c: State, action: Action)
    requires c.receiver.WellFormed() && Enabled(c, action)
    ensures Onward(c, Apply(c, action))
  {
    ActionExtendsSender(c, action);
  }

  /** Over any run the receiver's ACK and its acceptance edge, popped + capacity, never move left. */
  lemma {:induction false} RunIsOnward(c: State, run: seq<Action>)
    requires Inv(c) && Legal(c, run)
    ensures Inv(Connection.Run(c, run)) && Onward(c, Connection.Run(c, run))
    ensures c.receiver.assembly.Edge() <= Connection.Run(c, run).receiver.assembly.Edge()
    decreases |run|
  {
    RunKeepsInv(c, run);
    if run != [] {
      ActionKeepsInv(c, run[0]);
      ActionIsOnward(c, run[0]);
      RunIsOnward(Apply(c, run[0]), run[1..]);
    }
  }

  ghost predicate Leads(c: State, c': State) {
    exists run :: Legal(c, run) && Connection.Run(c, run) == c'
  }

  lemma LeadsIsOnward(c: State, c': State)
    requires Inv(c) && Leads(c, c')
    ensures Inv(c') && Onward(c, c') && c.receiver.assembly.Edge() <= c'.receiver.assembly.Edge()
  {
    var run :| Legal(c, run) && Connection.Run(c, run) == c';
    RunIsOnward(c, run);
  }

  /** While the whole stream fits in half the 32-bit space, nothing on the network is ever too old. */
  lemma ShortStreamsStayFresh(c: State)
    requires Inv(c) && |c.sender.stream.accepted| + 2 <= HALF32
    ensures forall segment :: segment in c.wire ==> Enabled(c, Deliver(segment))
    ensures forall j :: 0 <= j < |c.acks| ==> Enabled(c, DeliverAck(j))
  {
    AckIsBetween(c.receiver, c.sender);
    forall segment | segment in c.wire
      ensures Enabled(c, Deliver(segment))
    {
      assert WasSent(segment, c.sender.log);
      var i :| 0 <= i < |c.sender.log| && c.sender.log[i].segment == segment;
      LogEntryIsFaithful(c.sender, i);
      assert Fresh(c, c.sender.log[i].start);
    }
  }

  /** No 64-bit counter or sum of the two ends ever wraps. */
  lemma CountersFit(c: State)
    requires Reachable(c)
    ensures c.sender.next < MOD64 && c.sender.WindowRight() < MOD64
    ensures c.receiver.assembly.output.Valid() && c.receiver.AbsoluteAck() < MOD64
    ensures c.receiver.assembly.Right() == c.receiver.assembly.Edge() < MOD64
    ensures 0 <= c.sender.next - c.sender.acknowledged <= MAX_WINDOW
  {
    ReachableSatisfiesInv(c);
    AckIsBetween(c.receiver, c.sender);
    EdgeFits(c);
  }
}
