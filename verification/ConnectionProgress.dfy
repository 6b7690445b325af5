/** One exchange of a segment and its ACK moves the connection forward. */
module ConnectionProgress {
  import opened Words
  import opened WrappingIntegers
  import opened TinyReassembler
  import opened ReassemblyTheorems
  import opened TcpReceiver
  import opened TcpSender
  import opened SenderInvariant
  import opened Connection
  import opened ConnectionSafety
  import Sending = SenderTheorems

  // Proofs about many actions in a row use the invariant and single actions folded: a Seen or a Shown
  // in a proof is what unfolds them.

  predicate Seen(c: State) { true }

  predicate Shown(c: State, c': State) { true }

  /** Inv, folded. */
  ghost predicate Sound(c: State) {
    forall d {:trigger Seen(d)} :: Seen(d) && d == c ==> Inv(d)
  }

  /** The action is enabled in c and takes it to c', folded. */
  ghost predicate Does(c: State, action: Action, c': State) {
    forall d, d' {:trigger Shown(d, d')} ::
      Shown(d, d') && d == c && d' == c' ==> Enabled(d, action) && d' == Apply(d, action)
  }

  lemma SoundIsInv(c: State)
    ensures Sound(c) <==> Inv(c)
  {
    assert Seen(c);
  }

  lemma DoesIsApply(c: State, action: Action, c': State)
    ensures Does(c, action, c') <==> Enabled(c, action) && c' == Apply(c, action)
  {
    assert Shown(c, c');
  }

  lemma DoesKeepsSound(c: State, action: Action, c': State)
    requires Sound(c) && Does(c, action, c')
    ensures Sound(c')
  {
    SoundIsInv(c);
    DoesIsApply(c, action, c');
    ActionKeepsInv(c, action);
    SoundIsInv(c');
  }

  /** The next byte the receiver waits for has been sent, but its buffer has no room for it. */
  predicate BlockedByFullBuffer(r: ReceiverState, s: SenderState)
    requires r.assembly.output.Valid()
  {
    r.isn.Some? && r.assembly.Next() < s.stream.popped && r.assembly.output.Available() == 0
  }

  /** e is the segment that contains the position the receiver waits for. */
  ghost predicate Awaited(e: OutstandingSegment, r: ReceiverState, s: SenderState) {
    Faithful(e, s) && e.start < s.next && e.start <= r.AbsoluteAck() < e.End()
  }

  /** A byte that arrives with room for it, at the very position awaited, is delivered. */
  lemma AwaitedByteIsDelivered(a: Assembly, f: Fragment, source: seq<byte>, done: bool)
    requires Refines(a, source, done) && CutFrom(f, source, done)
    requires f.first <= a.Next() < f.first + |f.data| && a.output.Available() > 0 && a.Edge() < MOD64
    ensures Take(a, f).Next() > a.Next()
  {
  }

  lemma FullBufferTakesNothing(a: Assembly, f: Fragment, source: seq<byte>, done: bool)
    requires Refines(a, source, done) && CutFrom(f, source, done)
    requires a.output.Available() == 0 && a.Next() < |source|
    ensures Take(a, f).Next() == a.Next() && Take(a, f).output.closed == a.output.closed
  {
  }

  lemma AwaitedFinCloses(a: Assembly, f: Fragment, source: seq<byte>, done: bool)
    requires Refines(a, source, done) && CutFrom(f, source, done)
    requires f.isLast && a.Next() == |source|
    ensures Take(a, f).output.closed && Take(a, f).Next() == a.Next()
  {
    InsertRefines(a, f, source, done);
    DeliveredIsPrefix(Take(a, f), source, done);
    InsertMarksAndCloses(a, f.first, f.data, f.isLast);
  }

  /**
   * The awaited segment, when it arrives, moves the receiver's ACK, unless exactly this: its next
   * byte is data and the receive buffer is full.
   */
  lemma AwaitedArrivalMovesAck(c: State, e: OutstandingSegment)
    requires Inv(c) && Awaited(e, c.receiver, c.sender) && |e.segment.payload| < MOD64
    ensures c.receiver.Receive(e.segment).AbsoluteAck() > c.receiver.AbsoluteAck()
       <==> !BlockedByFullBuffer(c.receiver, c.sender)
  {
    var r := c.receiver;
    if r.isn.Some? || e.segment.syn {
      DeliverIsTake(c, e);
      FaithfulIsCut(e, c.sender);
      AbsoluteAckGrows(r, e.segment);
    }
    if r.isn.Some? {
      AckIsBetween(r, c.sender);
      if r.assembly.Next() < c.sender.stream.popped {
        if r.assembly.output.Available() > 0 {
          AwaitedByteIsDelivered(r.assembly, AsFragment(e), SentBytes(c.sender), c.sender.finSent);
        } else {
          FullBufferTakesNothing(r.assembly, AsFragment(e), SentBytes(c.sender), c.sender.finSent);
        }
      } else {
        AwaitedFinCloses(r.assembly, AsFragment(e), SentBytes(c.sender), c.sender.finSent);
      }
    }
  }

  lemma DeliverAckReaches(c: State, index: nat)
    requires Inv(c) && Enabled(c, DeliverAck(index))
    ensures c.acks[index].absolute <= Apply(c, DeliverAck(index)).sender.acknowledged
  {
    AckDecodes(c, index);
    HearMovesAckPoint(c.sender, c.acks[index].message);
  }

  /** A segment that contained the ACK point earlier is awaited as long as the receiver's ACK is still there. */
  lemma OldestStaysAwaited(c0: State, c1: State, e: OutstandingSegment)
    requires Inv(c0) && Inv(c1) && Onward(c0, c1)
    requires c0.sender.outstanding != [] && e == c0.sender.outstanding[0]
    requires c1.receiver.AbsoluteAck() == c0.sender.acknowledged
    ensures Awaited(e, c1.receiver, c1.sender) && |e.segment.payload| < MOD64
  {
    var i := |c0.sender.log| - |c0.sender.outstanding|;
    assert e == c0.sender.log[i] == c1.sender.log[i];
    LogEntryIsFaithful(c1.sender, i);
  }

  lemma OldestArrivalPassesAckPoint(c0: State, c1: State, e: OutstandingSegment)
    requires Inv(c0) && Inv(c1) && Onward(c0, c1)
    requires c0.sender.outstanding != [] && e == c0.sender.outstanding[0]
    requires Enabled(c1, Deliver(e.segment)) && !BlockedByFullBuffer(c1.receiver, c1.sender)
    ensures Apply(c1, Deliver(e.segment)).receiver.AbsoluteAck() > c0.sender.acknowledged
  {
    if c1.receiver.AbsoluteAck() == c0.sender.acknowledged {
      OldestStaysAwaited(c0, c1, e);
      AwaitedArrivalMovesAck(c1, e);
    } else {
      assert c0.sender.acknowledged <= c1.sender.acknowledged <= c1.receiver.AbsoluteAck();
      AbsoluteAckGrows(c1.receiver, e.segment);
    }
  }

  // Traces

  ghost predicate Next(c: State, c': State) {
    exists action :: Does(c, action, c')
  }

  /** The states of a run, one action apart. */
  ghost predicate Trace(states: seq<State>) {
    forall i, j {:trigger Next(states[i], states[j])} :: 0 <= i && j == i + 1 < |states| ==> Next(states[i], states[j])
  }

  lemma NextIsOnward(c: State, c': State)
    requires Sound(c) && Next(c, c')
    ensures Sound(c') && Onward(c, c')
  {
    var action :| Does(c, action, c');
    DoesKeepsSound(c, action, c');
    SoundIsInv(c);
    DoesIsApply(c, action, c');
    ActionIsOnward(c, action);
  }

  lemma NextKeepsOnward(c0: State, c: State, c': State)
    requires Onward(c0, c) && Sound(c) && Next(c, c')
    ensures Sound(c') && Onward(c0, c')
  {
    NextIsOnward(c, c');
  }

  lemma {:induction false} TraceIsOnward(states: seq<State>, i: nat, j: nat)
    requires Trace(states) && i <= j < |states| && Sound(states[i])
    ensures Sound(states[j]) && Onward(states[i], states[j])
    decreases j
  {
    if i < j {
      TraceIsOnward(states, i, j - 1);
      NextKeepsOnward(states[i], states[j - 1], states[j]);
    } else {
      SoundIsInv(states[i]);
    }
  }

  lemma ArrivalPassesAckPoint(c0: State, c: State, c': State)
    requires Sound(c0) && Sound(c) && Onward(c0, c) && c0.sender.outstanding != []
    requires Does(c, Deliver(c0.sender.outstanding[0].segment), c')
    requires c.receiver.assembly.output.Valid() && !BlockedByFullBuffer(c.receiver, c.sender)
    ensures c'.receiver.AbsoluteAck() > c0.sender.acknowledged
  {
    var e := c0.sender.outstanding[0];
    SoundIsInv(c0);
    SoundIsInv(c);
    DoesIsApply(c, Deliver(e.segment), c');
    OldestArrivalPassesAckPoint(c0, c, e);
  }

  lemma AcknowledgeRecords(c: State, c': State)
    requires Does(c, Acknowledge, c') && c.receiver.AbsoluteAck() > 0
    ensures |c'.acks| == |c.acks| + 1
    ensures c'.acks[|c.acks|].absolute == c'.receiver.AbsoluteAck() == c.receiver.AbsoluteAck()
  {
    DoesIsApply(c, Acknowledge, c');
  }

  lemma AckMovesAckPoint(c: State, index: nat, c': State)
    requires Sound(c) && index < |c.acks| && Does(c, DeliverAck(index), c')
    ensures c'.sender.acknowledged >= c.acks[index].absolute
  {
    SoundIsInv(c);
    DoesIsApply(c, DeliverAck(index), c');
    DeliverAckReaches(c, index);
  }

  lemma TracedExchangeAdvances(states: seq<State>, i: nat, j: nat, k: nat)
    requires Trace(states) && i < j < k < |states| - 1
    requires Sound(states[0]) && states[0].sender.outstanding != []
    requires Does(states[i], Deliver(states[0].sender.outstanding[0].segment), states[i + 1])
    requires states[i].receiver.assembly.output.Valid() && !BlockedByFullBuffer(states[i].receiver, states[i].sender)
    requires Does(states[j], Acknowledge, states[j + 1])
    requires Does(states[k], DeliverAck(|states[j].acks|), states[k + 1])
    ensures states[k + 1].sender.acknowledged > states[0].sender.acknowledged
  {
    TraceIsOnward(states, 0, i);
    ArrivalPassesAckPoint(states[0], states[i], states[i + 1]);
    TraceIsOnward(states, 0, i + 1);
    TraceIsOnward(states, i + 1, j);
    AcknowledgeRecords(states[j], states[j + 1]);
    TraceIsOnward(states, 0, j + 1);
    TraceIsOnward(states, j + 1, k);
    AckMovesAckPoint(states[k], |states[j].acks|, states[k + 1]);
  }

  // Runs

  /** The states a run goes through, the first and the last included. */
  ghost function States(c: State, run: seq<Action>): (states: seq<State>)
    requires Legal(c, run)
    ensures |states| == |run| + 1 && states[0] == c
    decreases |run|
  {
    if run == [] then [c] else [c] + States(Apply(c, run[0]), run[1..])
  }

  lemma {:induction false} StatesAreSteps(c: State, run: seq<Action>, i: nat)
    requires Legal(c, run) && i < |run|
    ensures Does(States(c, run)[i], run[i], States(c, run)[i + 1])
    decreases i
  {
    if i == 0 {
      DoesIsApply(c, run[0], Apply(c, run[0]));
    } else {
      StatesAreSteps(Apply(c, run[0]), run[1..], i - 1);
    }
  }

  lemma {:induction false} StatesEndInRun(c: State, run: seq<Action>)
    requires Legal(c, run)
    ensures States(c, run)[|run|] == Connection.Run(c, run)
    decreases |run|
  {
    if run != [] {
      StatesEndInRun(Apply(c, run[0]), run[1..]);
    }
  }

  lemma StatesAreTrace(c: State, run: seq<Action>)
    requires Legal(c, run)
    ensures Trace(States(c, run))
  {
    var states := States(c, run);
    forall i, j | 0 <= i && j == i + 1 < |states|
      ensures Next(states[i], states[j])
    {
      StatesAreSteps(c, run, i);
    }
  }

  /**
   * Progress: take the segment that is the oldest outstanding one at the start of any run. Whatever
   * else happens, once that segment arrives with room for its next byte, and an ACK made after that
   * arrives too, the sender's ACK point has strictly moved.
   */
  lemma ExchangeAdvances(c: State, run: seq<Action>, i: nat, j: nat, k: nat)
    requires Inv(c) && c.sender.outstanding != [] && Legal(c, run) && i < j < k < |run|
    requires run[i] == Deliver(c.sender.outstanding[0].segment)
    requires var before := States(c, run)[i];
             before.receiver.assembly.output.Valid() && !BlockedByFullBuffer(before.receiver, before.sender)
    requires run[j] == Acknowledge && run[k] == DeliverAck(|States(c, run)[j].acks|)
    ensures States(c, run)[k + 1].sender.acknowledged > c.sender.acknowledged
  {
    SoundIsInv(c);
    StatesAreTrace(c, run);
    StatesAreSteps(c, run, i);
    StatesAreSteps(c, run, j);
    StatesAreSteps(c, run, k);
    TracedExchangeAdvances(States(c, run), i, j, k);
  }

  // Runs, folded

  /** The run is legal from c and ends in c', folded. */
  ghost predicate Goes(c: State, run: seq<Action>, c': State) {
    forall d, d' {:trigger Shown(d, d')} ::
      Shown(d, d') && d == c && d' == c' ==> Legal(d, run) && d' == Connection.Run(d, run)
  }

  lemma GoesIsRun(c: State, run: seq<Action>, c': State)
    ensures Goes(c, run, c') <==> Legal(c, run) && c' == Connection.Run(c, run)
  {
    assert Shown(c, c');
  }

  lemma GoesOn(c: State, action: Action, c': State, run: seq<Action>, c'': State)
    requires Does(c, action, c') && Goes(c', run, c'')
    ensures Goes(c, [action] + run, c'')
  {
    DoesIsApply(c, action, c');
    GoesIsRun(c', run, c'');
    GoesIsRun(c, [action] + run, c'');
    assert ([action] + run)[1..] == run;
  }

  lemma {:induction false} GoesFurther(c: State, run: seq<Action>, c': State, run': seq<Action>, c'': State)
    requires Goes(c, run, c') && Goes(c', run', c'')
    ensures Goes(c, run + run', c'')
    decreases |run|
  {
    if run == [] {
      GoesIsRun(c, run, c');
      assert run + run' == run';
    } else {
      var next := FirstStep(c, run, c');
      GoesFurther(next, run[1..], c', run', c'');
      GoesOn(c, run[0], next, run[1..] + run', c'');
      assert [run[0]] + (run[1..] + run') == run + run';
    }
  }

  lemma FirstStep(c: State, run: seq<Action>, c': State) returns (next: State)
    requires Goes(c, run, c') && run != []
    ensures Does(c, run[0], next) && Goes(next, run[1..], c')
  {
    GoesIsRun(c, run, c');
    next := Apply(c, run[0]);
    DoesIsApply(c, run[0], next);
    GoesIsRun(next, run[1..], c');
  }
}
