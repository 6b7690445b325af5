/** A driver that drains the receive buffer, fills the window and retries finishes every closed connection. */
module ConnectionDriver {
  import opened Words
  import opened ReassemblyTheorems
  import opened TcpReceiver
  import opened TcpSender
  import opened SenderInvariant
  import opened Connection
  import opened ConnectionSafety
  import opened ConnectionProgress
  import Sending = SenderTheorems

  /** The same job: one closed input, one configuration. */
  predicate SameJob(c: State, c': State) {
    && c'.sender.stream.accepted == c.sender.stream.accepted && c'.sender.stream.closed == c.sender.stream.closed
    && c'.sender.mss == c.sender.mss
    && c'.receiver.assembly.output.capacity == c.receiver.assembly.output.capacity
  }

  predicate LeavesInput(action: Action) {
    action != Local(Sending.CloseWriter) && !(action.Local? && action.step.Write?)
  }

  lemma OtherStepsKeepInput(s: SenderState, step: Sending.Step)
    requires s.stream.Valid() && LeavesInput(Local(step)) && !step.Hear?
    ensures Sending.Apply(s, step).stream.accepted == s.stream.accepted
    ensures Sending.Apply(s, step).stream.closed == s.stream.closed
  {
    PushKeepsFrame(s);
  }

  lemma OtherActionsKeepInput(c: State, action: Action)
    requires Enabled(c, action) && LeavesInput(action)
    ensures Apply(c, action).sender.stream.accepted == c.sender.stream.accepted
    ensures Apply(c, action).sender.stream.closed == c.sender.stream.closed
  {
    match action
    case Local(step) => OtherStepsKeepInput(c.sender, step);
    case DeliverAck(index) => Sending.ReceiveKeepsFrame(c.sender, c.acks[index].message);
    case _ =>
  }

  /** A sound action that leaves the input alone keeps the job and never takes the ACK point back. */
  lemma DoesKeepsJob(c: State, action: Action, c': State)
    requires Sound(c) && Does(c, action, c') && LeavesInput(action)
    ensures Sound(c') && SameJob(c, c') && c.sender.acknowledged <= c'.sender.acknowledged
  {
    SoundIsInv(c);
    DoesIsApply(c, action, c');
    ActionKeepsInv(c, action);
    SoundIsInv(c');
    ActionIsOnward(c, action);
    OtherActionsKeepInput(c, action);
  }

  // The actions of one round

  lemma Reads(c: State) returns (c': State)
    requires Sound(c)
    ensures Does(c, Action.Read(|c.receiver.assembly.output.accepted|), c') && Sound(c') && SameJob(c, c')
    ensures c'.sender == c.sender && c'.acks == c.acks
    ensures c'.receiver.assembly.output.Valid()
    ensures c'.receiver.assembly.output.popped == |c'.receiver.assembly.output.accepted|
  {
    SoundIsInv(c);
    c' := Apply(c, Action.Read(|c.receiver.assembly.output.accepted|));
    DoesIsApply(c, Action.Read(|c.receiver.assembly.output.accepted|), c');
    DoesKeepsJob(c, Action.Read(|c.receiver.assembly.output.accepted|), c');
  }

  /** Filling leaves nothing unsent with nothing outstanding. */
  lemma FillSendsWhatIsLeft(c: State) returns (c': State)
    requires Sound(c) && c.sender.mss > 0
    ensures Does(c, Local(Sending.Fill), c') && Sound(c') && SameJob(c, c')
    ensures c.sender.stream.Valid() && c'.sender == c.sender.Push() && c'.receiver == c.receiver && c'.acks == c.acks
    ensures c'.sender.acknowledged == c.sender.acknowledged <= Sending.Demand(c.sender)
    ensures c'.sender.outstanding == [] <==> c.sender.acknowledged == Sending.Demand(c.sender)
  {
    SoundIsInv(c);
    c' := Apply(c, Local(Sending.Fill));
    DoesIsApply(c, Local(Sending.Fill), c');
    DoesKeepsJob(c, Local(Sending.Fill), c');
    PushKeepsInvariant(c.sender);
    PushKeepsFrame(c.sender);
    Sending.PushFillsWindow(c.sender);
    Sending.OutstandingTilesFlight(c'.sender);
  }

  /** Waiting out the timer queues the oldest segment. */
  lemma Elapses(c: State) returns (wait: nat, c': State)
    requires Sound(c) && c.sender.outstanding != []
    ensures c.sender.elapsed <= c.sender.currentRto && wait == c.sender.currentRto - c.sender.elapsed
    ensures Does(c, Local(Sending.Elapse(wait)), c') && Sound(c') && SameJob(c, c')
    ensures c.sender.outstanding[0].segment in c'.sender.queue && c'.sender.outstanding == c.sender.outstanding
    ensures c'.sender.acknowledged == c.sender.acknowledged && c'.receiver == c.receiver && c'.acks == c.acks
  {
    SoundIsInv(c);
    wait := c.sender.currentRto - c.sender.elapsed;
    c' := Apply(c, Local(Sending.Elapse(wait)));
    DoesIsApply(c, Local(Sending.Elapse(wait)), c');
    DoesKeepsJob(c, Local(Sending.Elapse(wait)), c');
    Sending.TickResendsOldest(c.sender, wait);
  }

  lemma Transmits(c: State, segment: TcpSegment) returns (c': State)
    requires Sound(c) && segment in c.sender.queue
    ensures Does(c, Transmit, c') && Sound(c') && SameJob(c, c')
    ensures segment in c'.wire && c'.sender.outstanding == c.sender.outstanding
    ensures c'.sender.acknowledged == c.sender.acknowledged && c'.receiver == c.receiver && c'.acks == c.acks
  {
    SoundIsInv(c);
    c' := Apply(c, Transmit);
    DoesIsApply(c, Transmit, c');
    DoesKeepsJob(c, Transmit, c');
  }

  lemma OldestIsFresh(c: State)
    requires Inv(c) && c.sender.outstanding != []
    ensures FreshOnWire(c, c.sender.outstanding[0].segment) && |c.sender.outstanding[0].segment.payload| < MOD64
  {
    var i := |c.sender.log| - |c.sender.outstanding|;
    var e := c.sender.log[i];
    assert e == c.sender.outstanding[0];
    LogEntryIsFaithful(c.sender, i);
    AckIsBetween(c.receiver, c.sender);
    assert Fresh(c, e.start);
  }

  /** With room in the receive buffer, the arrival of the oldest segment takes the receiver past the ACK point. */
  lemma DeliversOldest(c: State, segment: TcpSegment) returns (c': State)
    requires Sound(c) && c.sender.outstanding != [] && segment == c.sender.outstanding[0].segment && segment in c.wire
    requires c.receiver.assembly.output.Valid() && c.receiver.assembly.output.Available() > 0
    ensures Does(c, Deliver(segment), c') && Sound(c') && SameJob(c, c')
    ensures c'.receiver.AbsoluteAck() > c.sender.acknowledged && c'.sender == c.sender && c'.acks == c.acks
  {
    SoundIsInv(c);
    OldestIsFresh(c);
    c' := Apply(c, Deliver(segment));
    DoesIsApply(c, Deliver(segment), c');
    DoesKeepsJob(c, Deliver(segment), c');
    OldestArrivalPassesAckPoint(c, c, c.sender.outstanding[0]);
  }

  lemma Acknowledges(c: State) returns (c': State)
    requires Sound(c) && c.receiver.AbsoluteAck() > 0
    ensures Does(c, Acknowledge, c') && Sound(c') && SameJob(c, c')
    ensures |c'.acks| == |c.acks| + 1 && c'.receiver == c.receiver
    ensures c'.acks[|c.acks|].absolute == c.receiver.AbsoluteAck()
  {
    SoundIsInv(c);
    c' := Apply(c, Acknowledge);
    DoesIsApply(c, Acknowledge, c');
    DoesKeepsJob(c, Acknowledge, c');
  }

  lemma HearsNewest(c: State, index: nat) returns (c': State)
    requires Sound(c) && index < |c.acks| && c.acks[index].absolute == c.receiver.AbsoluteAck()
    ensures Does(c, DeliverAck(index), c') && Sound(c') && SameJob(c, c')
    ensures c'.sender.acknowledged >= c.acks[index].absolute
  {
    SoundIsInv(c);
    c' := Apply(c, DeliverAck(index));
    DoesIsApply(c, DeliverAck(index), c');
    DoesKeepsJob(c, DeliverAck(index), c');
    DeliverAckReaches(c, index);
  }

  /** A retry with room in the receive buffer is always possible, and it moves the ACK point. */
  lemma RetryMoves(c: State) returns (c': State)
    requires Sound(c) && c.sender.outstanding != []
    requires c.receiver.assembly.output.Valid() && c.receiver.assembly.output.Available() > 0
    ensures Goes(c, RetryActions(c.sender, |c.acks|), c')
    ensures Sound(c') && SameJob(c, c') && c'.sender.acknowledged > c.sender.acknowledged
  {
    var segment := c.sender.outstanding[0].segment;
    var wait, c3 := Elapses(c);
    var c4 := Transmits(c3, segment);
    var c5 := DeliversOldest(c4, segment);
    var c6 := Acknowledges(c5);
    c' := HearsNewest(c6, |c.acks|);
    var elapse, hear := Local(Sending.Elapse(wait)), DeliverAck(|c.acks|);
    FiveGo(c, elapse, c3, Transmit, c4, Deliver(segment), c5, Acknowledge, c6, hear, c');
  }

  lemma FiveGo(c0: State, a1: Action, c1: State, a2: Action, c2: State, a3: Action, c3: State,
               a4: Action, c4: State, a5: Action, c5: State)
    requires Does(c0, a1, c1) && Does(c1, a2, c2) && Does(c2, a3, c3) && Does(c3, a4, c4) && Does(c4, a5, c5)
    ensures Goes(c0, [a1, a2, a3, a4, a5], c5)
  {
    GoesOn(c4, a5, c5, [], c5);
    GoesOn(c3, a4, c4, [a5] + [], c5);
    GoesOn(c2, a3, c3, [a4] + ([a5] + []), c5);
    GoesOn(c1, a2, c2, [a3] + ([a4] + ([a5] + [])), c5);
    GoesOn(c0, a1, c1, [a2] + ([a3] + ([a4] + ([a5] + []))), c5);
    assert [a1] + ([a2] + ([a3] + ([a4] + ([a5] + [])))) == [a1, a2, a3, a4, a5];
  }

  // The driver of a closed connection

  /** Wait out the timer, transmit, and let the oldest segment and then the ACK for it arrive. */
  function RetryActions(s: SenderState, acks: nat): seq<Action> {
    if s.outstanding == [] || s.elapsed > s.currentRto then []
    else
      [Local(Sending.Elapse(s.currentRto - s.elapsed)), Transmit, Deliver(s.outstanding[0].segment),
       Acknowledge, DeliverAck(acks)]
  }

  /** Read everything that waits and fill the window; then, if anything is outstanding, retry. */
  function RoundActions(c: State): seq<Action>
    requires c.sender.stream.Valid()
  {
    [Action.Read(|c.receiver.assembly.output.accepted|), Local(Sending.Fill)] + RetryActions(c.sender.Push(), |c.acks|)
  }

  /** One round of the driver takes c to c'. */
  ghost predicate RoundStep(c: State, c': State) {
    c.sender.stream.Valid() && Legal(c, RoundActions(c)) && c' == Connection.Run(c, RoundActions(c))
  }

  /** Everything written is acknowledged, FIN included, and read; the receiving stream is finished. */
  predicate Complete(c: State) {
    && c.sender.acknowledged == Sending.Demand(c.sender) && c.sender.outstanding == []
    && c.receiver.assembly.output.accepted == c.sender.stream.accepted
    && c.receiver.assembly.output.Finished()
  }

  /** Everything written so far is acknowledged and read. */
  predicate Idle(c: State) {
    && c.sender.acknowledged == Sending.Demand(c.sender) && c.sender.outstanding == []
    && c.receiver.assembly.output.popped == |c.receiver.assembly.output.accepted|
  }

  /** The sequence positions asked for and not yet acknowledged. */
  function Remaining(c: State): nat {
    var demand := Sending.Demand(c.sender);
    if demand <= c.sender.acknowledged then 0 else demand - c.sender.acknowledged
  }

  /** What a round needs: a usable segment size and a usable receive buffer. */
  ghost predicate Ready(c: State) {
    Sound(c) && c.sender.mss > 0 && c.receiver.assembly.output.capacity > 0
  }

  lemma ClosedAndIdleIsComplete(c: State)
    requires Sound(c) && c.sender.stream.closed && Idle(c)
    ensures Complete(c)
  {
    SoundIsInv(c);
    AckIsBetween(c.receiver, c.sender);
    DeliveredIsPrefix(c.receiver.assembly, SentBytes(c.sender), c.sender.finSent);
  }

  /** A round is always possible; it completes what was written so far or moves the ACK point. */
  lemma CanRound(c: State) returns (c': State)
    requires Ready(c)
    ensures c.sender.stream.Valid() && Goes(c, RoundActions(c), c')
    ensures Ready(c') && SameJob(c, c')
    ensures Idle(c') || c'.sender.acknowledged > c.sender.acknowledged
  {
    var read := Action.Read(|c.receiver.assembly.output.accepted|);
    var c1 := Reads(c);
    var c2 := FillSendsWhatIsLeft(c1);
    var retry := RetryActions(c2.sender, |c2.acks|);
    if c2.sender.outstanding == [] {
      c' := c2;
    } else {
      c' := RetryMoves(c2);
    }
    GoesOn(c1, Local(Sending.Fill), c2, retry, c');
    GoesOn(c, read, c1, [Local(Sending.Fill)] + retry, c');
    assert [read] + ([Local(Sending.Fill)] + retry) == RoundActions(c);
  }

  lemma GoesIsDeterministic(c: State, run: seq<Action>, c': State, c'': State)
    requires Goes(c, run, c') && Goes(c, run, c'')
    ensures c' == c''
  {
    GoesIsRun(c, run, c');
    GoesIsRun(c, run, c'');
  }

  lemma GoesIsRoundStep(c: State, c': State)
    requires c.sender.stream.Valid() && Goes(c, RoundActions(c), c')
    ensures RoundStep(c, c')
  {
    GoesIsRun(c, RoundActions(c), c');
  }

  /** A round completes what was written so far or moves the ACK point. */
  lemma GoingRoundEffect(c: State, c': State)
    requires Ready(c) && c.sender.stream.Valid() && Goes(c, RoundActions(c), c')
    ensures Ready(c') && SameJob(c, c')
    ensures Idle(c') || c'.sender.acknowledged > c.sender.acknowledged
  {
    var c'' := CanRound(c);
    GoesIsDeterministic(c, RoundActions(c), c', c'');
  }

  /** What the driver of a closed connection needs. */
  ghost predicate Drivable(c: State) {
    Inv(c) && c.sender.stream.closed && c.sender.mss > 0 && c.receiver.assembly.output.capacity > 0
  }

  ghost predicate ReadyAndClosed(c: State) {
    Ready(c) && c.sender.stream.closed
  }

  lemma DrivableIsReady(c: State)
    ensures Drivable(c) <==> ReadyAndClosed(c)
  {
    SoundIsInv(c);
  }

  lemma ClosedRoundEffect(c: State, c': State)
    requires ReadyAndClosed(c) && c.sender.stream.Valid() && Goes(c, RoundActions(c), c')
    ensures ReadyAndClosed(c') && SameJob(c, c')
    ensures (Remaining(c') == 0 && Complete(c')) || Remaining(c') < Remaining(c)
  {
    GoingRoundEffect(c, c');
    if Idle(c') {
      ClosedAndIdleIsComplete(c');
    } else {
      AckIsInDemand(c');
    }
  }

  lemma AckIsInDemand(c: State)
    requires Sound(c)
    ensures c.sender.acknowledged <= Sending.Demand(c.sender)
  {
    SoundIsInv(c);
  }

  lemma ReadyRoundEffect(c: State, c': State)
    requires ReadyAndClosed(c) && RoundStep(c, c')
    ensures ReadyAndClosed(c') && SameJob(c, c')
    ensures (Remaining(c') == 0 && Complete(c')) || Remaining(c') < Remaining(c)
  {
    ClosedRoundEffect(c, c');
  }

  /** A round completes a closed connection or moves its ACK point. */
  lemma RoundEffect(c: State, c': State)
    requires Drivable(c) && RoundStep(c, c')
    ensures Drivable(c') && SameJob(c, c')
    ensures (Remaining(c') == 0 && Complete(c')) || Remaining(c') < Remaining(c)
  {
    DrivableIsReady(c);
    ReadyRoundEffect(c, c');
    DrivableIsReady(c');
  }

  /** The states of a driver, each one round after the one before. */
  ghost predicate Driven(states: seq<State>) {
    && states != []
    && forall i, j {:trigger RoundStep(states[i], states[j])} ::
         0 <= i && j == i + 1 < |states| ==> RoundStep(states[i], states[j])
  }

  lemma NextRound(c: State) returns (c': State)
    requires ReadyAndClosed(c)
    ensures RoundStep(c, c') && ReadyAndClosed(c')
  {
    c' := CanRound(c);
    GoesIsRoundStep(c, c');
    ClosedRoundEffect(c, c');
  }

  lemma {:induction false} ReadyDriverRuns(c: State, n: nat) returns (states: seq<State>)
    requires ReadyAndClosed(c)
    ensures Driven(states) && |states| == n + 1 && states[0] == c
    decreases n
  {
    if n == 0 {
      states := [c];
    } else {
      var next := NextRound(c);
      var later := ReadyDriverRuns(next, n - 1);
      states := [c] + later;
    }
  }

  /** The driver never gets stuck. */
  lemma DriverRuns(c: State, n: nat) returns (states: seq<State>)
    requires Drivable(c)
    ensures Driven(states) && |states| == n + 1 && states[0] == c
  {
    DrivableIsReady(c);
    states := ReadyDriverRuns(c, n);
  }

  lemma {:induction false} ReadyDriverFinishes(states: seq<State>)
    requires Driven(states) && ReadyAndClosed(states[0]) && |states| > Remaining(states[0]) + 1
    ensures Complete(states[|states| - 1])
    ensures states[|states| - 1].sender.stream.accepted == states[0].sender.stream.accepted
    decreases |states|
  {
    ReadyRoundEffect(states[0], states[1]);
    if |states| > 2 {
      ReadyDriverFinishes(states[1..]);
    }
  }

  /**
   * Termination: once the writer has closed, from any state at all, a driver that keeps reading and
   * retrying finishes within one round more than there are unacknowledged positions: the reader has
   * read exactly what was written and the FIN is acknowledged.
   */
  lemma DriverFinishes(first: State, later: seq<State>)
    requires Drivable(first) && Driven([first] + later) && |later| > Remaining(first)
    ensures Complete(later[|later| - 1])
    ensures later[|later| - 1].sender.stream.accepted == first.sender.stream.accepted
  {
    DrivableIsReady(first);
    ReadyDriverFinishes([first] + later);
  }
}
