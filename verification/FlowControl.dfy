/** Flow control: what an open window admits, the receiver has room for (RFC 9293, section 3.8.6). */
module FlowControl {
  import opened Words
  import opened WrappingIntegers
  import opened TinyReassembler
  import opened ReassemblyTheorems
  import opened TcpReceiver
  import opened TcpSender
  import opened SenderInvariant
  import opened Connection
  import opened ConnectionSafety
  import Sending = SenderTheorems

  /**
   * A connection with three histories: one more than the index of the ACK heard last (0 before the
   * first), whether no ACK heard was older than the ACK point, and which log entries were probes.
   */
  datatype Watched = Watched(c: State, heard: nat, neverOld: bool, probes: set<OutstandingSegment>)

  /** The ACK tells the sender at least what it already knows. */
  predicate NotOld(c: State, index: nat)
    requires index < |c.acks|
  {
    c.sender.acknowledged <= c.acks[index].absolute
  }

  ghost function Watch(w: Watched, action: Action): Watched
    requires Enabled(w.c, action)
  {
    var c' := Apply(w.c, action);
    Watched(c',
            if action.DeliverAck? then action.index + 1 else w.heard,
            w.neverOld && (action.DeliverAck? ==> NotOld(w.c, action.index)),
            w.probes + NewProbes(w.c.sender, c'.sender))
  }

  /** The segments first sent by a step that left the advertised window at zero. */
  function NewProbes(s: SenderState, s': SenderState): set<OutstandingSegment> {
    if s'.window == 0 && |s.log| <= |s'.log| then set e | e in s'.log[|s.log|..] else {}
  }

  ghost function WatchAll(w: Watched, run: seq<Action>): Watched
    requires Legal(w.c, run)
    decreases |run|
  {
    if run == [] then w else WatchAll(Watch(w, run[0]), run[1..])
  }

  /** The grant of an ACK ends inside the acceptance window of the receiver. */
  ghost predicate GrantInside(ack: Ack, r: ReceiverState)
    requires r.assembly.output.Valid()
  {
    ack.absolute + ack.message.window <= 1 + r.assembly.Edge() + Flag(r.assembly.output.closed)
  }

  /** The sender works with exactly the grant of the ACK it heard last. */
  ghost predicate Current(w: Watched) {
    if w.heard == 0 then w.c.sender.acknowledged == 0 && w.c.sender.window == 1
    else
      && w.heard <= |w.c.acks|
      && w.c.sender.acknowledged == w.c.acks[w.heard - 1].absolute
      && w.c.sender.window == w.c.acks[w.heard - 1].message.window
  }

  /** The payload of e lies left of the acceptance edge. */
  ghost predicate Fits(e: OutstandingSegment, r: ReceiverState)
    requires r.assembly.output.Valid()
  {
    PayloadEnd(e) <= r.assembly.Edge()
  }

  ghost predicate FlowInv(w: Watched) {
    && Inv(w.c)
    && w.heard <= |w.c.acks|
    && (forall j {:trigger GrantInside(w.c.acks[j], w.c.receiver)} ::
          0 <= j < |w.c.acks| ==> GrantInside(w.c.acks[j], w.c.receiver))
    && (w.neverOld ==> Current(w))
    && (w.neverOld ==> forall i {:trigger Fits(w.c.sender.log[i], w.c.receiver)} ::
          0 <= i < |w.c.sender.log| && w.c.sender.log[i] !in w.probes ==> Fits(w.c.sender.log[i], w.c.receiver))
  }

  lemma GrantsStayInside(acks: seq<Ack>, r: ReceiverState, r': ReceiverState)
    requires r.assembly.output.Valid() && r'.assembly.output.Valid()
    requires r.assembly.Edge() <= r'.assembly.Edge() && (r.assembly.output.closed ==> r'.assembly.output.closed)
    requires forall j {:trigger GrantInside(acks[j], r)} :: 0 <= j < |acks| ==> GrantInside(acks[j], r)
    ensures forall j {:trigger GrantInside(acks[j], r')} :: 0 <= j < |acks| ==> GrantInside(acks[j], r')
  {
    forall j | 0 <= j < |acks|
      ensures GrantInside(acks[j], r')
    {
      assert GrantInside(acks[j], r);
    }
  }

  lemma ReportGrantsInside(r: ReceiverState)
    requires r.WellFormed() && r.isn.Some?
    ensures GrantInside(Report(r), r)
  {
    WindowStaysInsideEdge(r);
  }

  lemma EdgeOnlyRises(c: State, action: Action)
    requires Inv(c) && Enabled(c, action)
    ensures var r, r' := c.receiver, Apply(c, action).receiver;
            && r'.assembly.output.Valid()
            && r.assembly.Edge() <= r'.assembly.Edge() && (r.assembly.output.closed ==> r'.assembly.output.closed)
  {
    EdgeIsPoppedPlusCapacity(c.receiver.assembly);
    EdgeIsPoppedPlusCapacity(Apply(c, action).receiver.assembly);
  }

  lemma ActionKeepsGrants(w: Watched, action: Action)
    requires FlowInv(w) && Enabled(w.c, action)
    ensures var c' := Apply(w.c, action);
            && c'.receiver.assembly.output.Valid()
            && (forall j {:trigger GrantInside(c'.acks[j], c'.receiver)} ::
                  0 <= j < |c'.acks| ==> GrantInside(c'.acks[j], c'.receiver))
  {
    EdgeOnlyRises(w.c, action);
    var c' := Apply(w.c, action);
    GrantsStayInside(w.c.acks, w.c.receiver, c'.receiver);
    if action.Acknowledge? && w.c.receiver.isn.Some? {
      ReportGrantsInside(w.c.receiver);
    }
  }

  /** Only an ACK changes what the sender works with, and one that is not old is then current. */
  lemma ActionKeepsCurrent(w: Watched, action: Action)
    requires FlowInv(w) && Enabled(w.c, action) && Watch(w, action).neverOld
    ensures Current(Watch(w, action))
  {
    if action.DeliverAck? {
      NewAckIsCurrent(w.c, action.index);
    } else {
      OtherActionsKeepGrant(w.c, action);
    }
  }

  lemma OtherActionsKeepGrant(c: State, action: Action)
    requires Enabled(c, action) && !action.DeliverAck?
    ensures var c' := Apply(c, action);
            && c'.sender.acknowledged == c.sender.acknowledged && c'.sender.window == c.sender.window
            && c.acks <= c'.acks
  {
    if action.Local? {
      LocalStepKeepsGrant(c.sender, action.step);
    }
  }

  lemma NewAckIsCurrent(c: State, index: nat)
    requires Inv(c) && Enabled(c, DeliverAck(index)) && NotOld(c, index)
    ensures var c' := Apply(c, DeliverAck(index));
            && c'.acks == c.acks
            && c'.sender.acknowledged == c.acks[index].absolute && c'.sender.window == c.acks[index].message.window
  {
    AckDecodes(c, index);
    HearMovesAckPoint(c.sender, c.acks[index].message);
  }

  lemma LocalStepKeepsGrant(s: SenderState, step: Sending.Step)
    requires s.stream.Valid() && !step.Hear?
    ensures var s' := Sending.Apply(s, step);
            s'.acknowledged == s.acknowledged && s'.window == s.window
  {
    PushKeepsFrame(s);
  }

  /** Whatever push adds to the log ends inside the window. */
  lemma PushedEndInsideWindow(s: SenderState, i: nat)
    requires Invariant(s) && |s.log| <= i < |s.Push().log|
    ensures s.Push().log[i].End() <= s.WindowRight()
  {
    PushKeepsInvariant(s);
    PushKeepsFrame(s);
    LogEntryIsFaithful(s.Push(), i);
  }

  /** The step's log growth comes from a push under the final ACK point and window. */
  lemma SentEndInsideWindow(c: State, action: Action, i: nat)
    requires Inv(c) && Enabled(c, action)
    requires |c.sender.log| <= i < |Apply(c, action).sender.log|
    ensures var s' := Apply(c, action).sender;
            s'.log[i].End() <= s'.WindowRight()
  {
    match action
    case Local(step) =>
      LocalEndInsideWindow(c.sender, step, i);
    case DeliverAck(index) =>
      AckDecodes(c, index);
      HeardEndInsideWindow(c.sender, c.acks[index].message, i);
  }

  lemma LocalEndInsideWindow(s: SenderState, step: Sending.Step, i: nat)
    requires Invariant(s) && !step.Hear? && |s.log| <= i < |Sending.Apply(s, step).log|
    ensures Sending.Apply(s, step).log[i].End() <= Sending.Apply(s, step).WindowRight()
  {
    PushedEndInsideWindow(s, i);
    PushKeepsFrame(s);
  }

  lemma HeardEndInsideWindow(s: SenderState, message: ReceiverMessage, i: nat)
    requires Invariant(s) && |s.log| <= i < |s.Receive(message).log|
    ensures s.Receive(message).log[i].End() <= s.Receive(message).WindowRight()
  {
    var absolute := Unwrap(message.ackno.value, s.isn, s.next);
    var updated := s.(window := message.window);
    WindowKeepsInvariant(s, message.window);
    var before := if absolute > s.acknowledged then updated.Advance(absolute) else updated;
    if absolute > s.acknowledged {
      AdvanceKeepsInvariant(updated, absolute);
    }
    PushedEndInsideWindow(before, i);
    PushKeepsFrame(before);
  }

  /** What the sender works with ends inside the acceptance window of the receiver. */
  ghost predicate WorksInside(s: SenderState, r: ReceiverState)
    requires r.assembly.output.Valid()
  {
    s.acknowledged + s.window <= 1 + r.assembly.Edge() + Flag(r.assembly.output.closed)
  }

  lemma CurrentGrantIsInside(w: Watched)
    requires Current(w) && w.c.receiver.assembly.output.Valid()
    requires forall j {:trigger GrantInside(w.c.acks[j], w.c.receiver)} ::
               0 <= j < |w.c.acks| ==> GrantInside(w.c.acks[j], w.c.receiver)
    ensures WorksInside(w.c.sender, w.c.receiver)
  {
    if w.heard > 0 {
      assert GrantInside(w.c.acks[w.heard - 1], w.c.receiver);
    }
  }

  lemma ActionKeepsFits(w: Watched, action: Action, i: nat)
    requires FlowInv(w) && Enabled(w.c, action) && Watch(w, action).neverOld
    requires i < |Watch(w, action).c.sender.log| && Watch(w, action).c.sender.log[i] !in Watch(w, action).probes
    ensures Apply(w.c, action).receiver.assembly.output.Valid()
    ensures Fits(Watch(w, action).c.sender.log[i], Watch(w, action).c.receiver)
  {
    var w' := Watch(w, action);
    EdgeOnlyRises(w.c, action);
    ActionExtendsSender(w.c, action);
    if i < |w.c.sender.log| {
      assert Fits(w.c.sender.log[i], w.c.receiver);
    } else {
      assert w'.c.sender.log[i] in w'.c.sender.log[|w.c.sender.log|..];
      ActionKeepsInv(w.c, action);
      ActionKeepsGrants(w, action);
      ActionKeepsCurrent(w, action);
      SentEndInsideWindow(w.c, action, i);
      LogEntryIsFaithful(w'.c.sender, i);
      CurrentGrantIsInside(w');
    }
  }

  lemma ActionKeepsFlowInv(w: Watched, action: Action)
    requires FlowInv(w) && Enabled(w.c, action)
    ensures FlowInv(Watch(w, action))
  {
    var w' := Watch(w, action);
    ActionKeepsInv(w.c, action);
    ActionKeepsGrants(w, action);
    if w'.neverOld {
      ActionKeepsCurrent(w, action);
      forall i | 0 <= i < |w'.c.sender.log| && w'.c.sender.log[i] !in w'.probes
        ensures Fits(w'.c.sender.log[i], w'.c.receiver)
      {
        ActionKeepsFits(w, action, i);
      }
    }
  }

  lemma {:induction false} RunKeepsFlowInv(w: Watched, run: seq<Action>)
    requires FlowInv(w) && Legal(w.c, run)
    ensures FlowInv(WatchAll(w, run))
    decreases |run|
  {
    if run != [] {
      ActionKeepsFlowInv(w, run[0]);
      RunKeepsFlowInv(Watch(w, run[0]), run[1..]);
    }
  }

  lemma NewConnectionSatisfiesFlowInv(g: Configuration)
    requires FitsCounters(0, g.receiveCapacity)
    ensures FlowInv(Watched(NewConnection(g), 0, true, {}))
  {
  }

  /** A fragment left of the acceptance edge is kept in full: each of its bytes is delivered or pending. */
  lemma FittingFragmentIsKept(a: Assembly, f: Fragment, p: nat)
    requires a.WellFormed() && f.first + |f.data| <= a.Edge() < MOD64
    requires f.first <= p < f.first + |f.data|
    ensures p in Take(a, f).Known()
  {
    InsertAddsExactlyTheWindow(a, f.first, f.data, f.isLast);
    var clip := Clip(f.first, f.data, a.AcceptedBegin(f.first), a.AcceptedEnd(f.first, |f.data|));
    assert p in clip || p in a.Known();
    assert p in clip + a.Known();
  }

  ghost predicate Observed(g: Configuration, run: seq<Action>, w: Watched) {
    FitsCounters(0, g.receiveCapacity) && Legal(NewConnection(g), run)
    && WatchAll(Watched(NewConnection(g), 0, true, {}), run) == w
  }

  /** A connection watched from its start over some legal run. */
  ghost predicate WatchedRun(w: Watched) {
    exists g, run :: Observed(g, run, w)
  }

  lemma WatchedRunSatisfiesFlowInv(w: Watched)
    requires WatchedRun(w)
    ensures FlowInv(w)
  {
    var g, run :| Observed(g, run, w);
    NewConnectionSatisfiesFlowInv(g);
    RunKeepsFlowInv(Watched(NewConnection(g), 0, true, {}), run);
  }

  lemma FittingSegmentIsKept(c: State, e: OutstandingSegment, p: nat)
    requires Inv(c) && Faithful(e, c.sender) && e.start < c.sender.next && Fresh(c, e.start) && Fits(e, c.receiver)
    requires c.receiver.isn.Some? || e.segment.syn
    requires PayloadIndex(e) <= p < PayloadEnd(e)
    ensures |e.segment.payload| < MOD64 && p in c.receiver.Receive(e.segment).assembly.Known()
  {
    DeliverIsTake(c, e);
    EdgeFits(c);
    FittingFragmentIsKept(c.receiver.assembly, AsFragment(e), p);
  }

  /**
   * Flow control: in any run in which no ACK heard was old, take a segment first sent under a non-zero
   * window and any later state of the connection. If the segment arrives there, past the SYN and not
   * older than half the 32-bit space, the receiver keeps every byte of it.
   */
  lemma NothingGrantedIsClipped(w: Watched, c': State, i: nat, p: nat)
    requires WatchedRun(w) && w.neverOld && i < |w.c.sender.log| && w.c.sender.log[i] !in w.probes
    requires Leads(w.c, c') && Fresh(c', w.c.sender.log[i].start)
    requires c'.receiver.isn.Some? || w.c.sender.log[i].segment.syn
    requires PayloadIndex(w.c.sender.log[i]) <= p < PayloadEnd(w.c.sender.log[i])
    ensures var e := w.c.sender.log[i];
            && c'.receiver.assembly.output.Valid() && |e.segment.payload| < MOD64
            && p in c'.receiver.Receive(e.segment).assembly.Known()
  {
    WatchedRunSatisfiesFlowInv(w);
    var e := w.c.sender.log[i];
    assert Fits(e, w.c.receiver);
    LeadsIsOnward(w.c, c');
    assert e == c'.sender.log[i];
    LogEntryIsFaithful(c'.sender, i);
    FittingSegmentIsKept(c', e, p);
  }

  /**
   * Where an old ACK breaks the claim: after a legal ACK with a non-zero window the sender's right
   * edge is the one the receiver granted if and only if the ACK is not older than the ACK point.
   */
  lemma GrantIsHonouredIffNotOld(s: SenderState, message: ReceiverMessage)
    requires s.stream.Valid() && message.ackno.Some? && message.window > 0
    requires Unwrap(message.ackno.value, s.isn, s.next) <= s.next
    ensures s.Receive(message).WindowRight() == Unwrap(message.ackno.value, s.isn, s.next) + message.window
       <==> s.acknowledged <= Unwrap(message.ackno.value, s.isn, s.next)
  {
    HearMovesAckPoint(s, message);
  }
}
