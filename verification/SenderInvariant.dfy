/**
 * The invariant of the sender, which holds of a new sender and is kept by every operation: next counts what
 * was taken (Counted), the first transmissions tile the sequence space (Logged), the outstanding segments are
 * their tail around the ACK point (Tracked), whatever is queued was sent before (Queued), and the timer runs
 * exactly while something is outstanding (Timed).
 */
module SenderInvariant {
  import opened Words
  import opened WrappingIntegers
  import opened TinyStream
  import opened TcpReceiver
  import opened TcpSender

  const MAX_WINDOW: nat := 0xffff

  /** The stream position of the first payload byte of a segment that starts at e.start. */
  function PayloadIndex(e: OutstandingSegment): nat {
    if e.start == 0 then 0 else e.start - 1
  }

  function PayloadEnd(e: OutstandingSegment): nat {
    PayloadIndex(e) + |e.segment.payload|
  }

  function Pow2(n: nat): nat {
    if n == 0 then 1 else 2 * Pow2(n - 1)
  }

  /** The RTO register after n doublings in 64-bit arithmetic. */
  function Backoff(initialRto: uint64, n: nat): uint64 {
    if n == 0 then initialRto else (2 * Backoff(initialRto, n - 1)) % MOD64
  }

  /** next counts the SYN, the bytes taken from the stream and the FIN. */
  ghost predicate Counted(s: SenderState) {
    && s.stream.Valid()
    && s.next == Flag(s.synSent) + s.stream.popped + Flag(s.finSent)
    && (!s.synSent ==> s.stream.popped == 0 && !s.finSent)
    && (s.finSent ==> s.stream.closed && s.stream.popped == |s.stream.accepted|)
    && s.acknowledged <= s.next <= s.acknowledged + MAX_WINDOW
  }

  /** e is the stream's own bytes at e's own place, flagged and numbered accordingly. */
  ghost predicate Faithful(e: OutstandingSegment, s: SenderState) {
    && e.segment.seqno == Wrap(e.start, s.isn)
    && e.length == SequenceLength(e.segment) && 1 <= e.length <= MAX_WINDOW
    && (e.segment.syn <==> e.start == 0)
    && PayloadEnd(e) <= s.stream.popped <= |s.stream.accepted|
    && e.segment.payload == s.stream.accepted[PayloadIndex(e)..PayloadEnd(e)]
    && |e.segment.payload| <= s.mss
    && (e.segment.fin ==> s.finSent && PayloadEnd(e) == s.stream.popped)
  }

  /** Segments that follow one another without gap or overlap up to next. */
  ghost predicate Chained(segments: seq<OutstandingSegment>, next: nat) {
    && (forall i, j {:trigger segments[i], segments[j]} ::
          0 <= i && j == i + 1 < |segments| ==> segments[j].start == segments[i].End())
    && (segments != [] ==> segments[|segments| - 1].End() == next)
  }

  /** The first transmissions tile the sequence space from the SYN up to next. */
  ghost predicate Logged(s: SenderState) {
    && Chained(s.log, s.next)
    && (if s.log == [] then s.next == 0 else s.log[0].start == 0)
    && (forall i {:trigger Faithful(s.log[i], s)} :: 0 <= i < |s.log| ==> Faithful(s.log[i], s))
  }

  /** The outstanding segments are the last of the log, and the first of them contains the ACK point. */
  ghost predicate Tracked(s: SenderState) {
    && |s.outstanding| <= |s.log|
    && s.outstanding == s.log[|s.log| - |s.outstanding|..]
    && CoversAck(s.outstanding, s.acknowledged, s.next)
  }

  ghost predicate CoversAck(outstanding: seq<OutstandingSegment>, acknowledged: nat, next: nat) {
    if outstanding == [] then acknowledged == next
    else outstanding[0].start <= acknowledged < outstanding[0].End()
  }

  ghost predicate WasSent(segment: TcpSegment, log: seq<OutstandingSegment>) {
    exists i :: 0 <= i < |log| && log[i].segment == segment
  }

  ghost predicate Queued(s: SenderState) {
    forall k {:trigger WasSent(s.queue[k], s.log)} :: 0 <= k < |s.queue| ==> WasSent(s.queue[k], s.log)
  }

  /** The timer runs exactly while something is outstanding, and has not reached the current RTO. */
  ghost predicate Timed(s: SenderState) {
    && (s.timerRunning <==> s.outstanding != [])
    && s.currentRto == Backoff(s.initialRto, s.retransmissions)
    && (s.elapsed < s.currentRto || s.elapsed == s.currentRto == 0)
  }

  ghost predicate Invariant(s: SenderState) {
    Counted(s) && Logged(s) && Tracked(s) && Queued(s) && Timed(s)
  }

  // Sending one segment

  ghost predicate CanSend(s: SenderState) {
    Counted(s) && s.next < s.WindowRight() && SequenceLength(s.NextSegment()) > 0
  }

  lemma SendIsFaithful(s: SenderState)
    requires CanSend(s)
    ensures var s' := s.Send(s.NextSegment());
            s'.log != [] && Faithful(s'.log[|s'.log| - 1], s')
  {
  }

  lemma FaithfulPersists(e: OutstandingSegment, s: SenderState, s': SenderState)
    requires Faithful(e, s)
    requires s'.isn == s.isn && s'.mss == s.mss && s.stream.accepted <= s'.stream.accepted
    requires s.stream.popped <= s'.stream.popped <= |s'.stream.accepted|
    requires s.finSent ==> s'.finSent && s'.stream.popped == s.stream.popped
    ensures Faithful(e, s')
  {
  }

  lemma SendKeepsLogged(s: SenderState)
    requires CanSend(s) && Logged(s)
    ensures Logged(s.Send(s.NextSegment()))
  {
    var s' := s.Send(s.NextSegment());
    SendIsFaithful(s);
    forall i | 0 <= i < |s.log|
      ensures Faithful(s.log[i], s')
    {
      FaithfulPersists(s.log[i], s, s');
    }
  }

  lemma WasSentPersists(segment: TcpSegment, log: seq<OutstandingSegment>, log': seq<OutstandingSegment>)
    requires WasSent(segment, log) && log <= log'
    ensures WasSent(segment, log')
  {
  }

  lemma QueueGrows(queue: seq<TcpSegment>, segment: TcpSegment,
                   log: seq<OutstandingSegment>, log': seq<OutstandingSegment>)
    requires forall k :: 0 <= k < |queue| ==> WasSent(queue[k], log)
    requires log <= log' && WasSent(segment, log')
    ensures forall k :: 0 <= k < |queue + [segment]| ==> WasSent((queue + [segment])[k], log')
  {
  }

  lemma SendKeepsQueued(s: SenderState)
    requires CanSend(s) && Queued(s)
    ensures Queued(s.Send(s.NextSegment()))
  {
    var s' := s.Send(s.NextSegment());
    assert s'.log[|s.log|].segment == s.NextSegment();
    QueueGrows(s.queue, s.NextSegment(), s.log, s'.log);
  }

  lemma {:induction false} PushKeepsLogged(s: SenderState)
    requires Counted(s) && Logged(s)
    ensures Counted(s.Push()) && Logged(s.Push())
    decreases s.WindowRight() - s.next
  {
    if CanSend(s) {
      SendKeepsLogged(s);
      PushKeepsLogged(s.Send(s.NextSegment()));
    }
  }

  lemma {:induction false} PushKeepsTracked(s: SenderState)
    requires Counted(s) && Tracked(s)
    ensures Tracked(s.Push())
    decreases s.WindowRight() - s.next
  {
    if CanSend(s) {
      PushKeepsTracked(s.Send(s.NextSegment()));
    }
  }

  lemma {:induction false} PushKeepsQueued(s: SenderState)
    requires Counted(s) && Queued(s)
    ensures Queued(s.Push())
    decreases s.WindowRight() - s.next
  {
    if CanSend(s) {
      SendKeepsQueued(s);
      PushKeepsQueued(s.Send(s.NextSegment()));
    }
  }

  lemma {:induction false} PushKeepsTimed(s: SenderState)
    requires Counted(s) && Timed(s)
    ensures Timed(s.Push())
    decreases s.WindowRight() - s.next
  {
    if CanSend(s) {
      PushKeepsTimed(s.Send(s.NextSegment()));
    }
  }

  lemma {:induction false} PushKeepsInvariant(s: SenderState)
    requires Invariant(s)
    ensures Invariant(s.Push())
  {
    PushKeepsLogged(s);
    PushKeepsTracked(s);
    PushKeepsQueued(s);
    PushKeepsTimed(s);
  }

  // Acknowledgement

  lemma {:induction false} DropCoveredIsSuffix(outstanding: seq<OutstandingSegment>, absoluteAck: nat, next: nat)
    requires Chained(outstanding, next) && absoluteAck <= next
    requires if outstanding == [] then absoluteAck == next else outstanding[0].start <= absoluteAck
    ensures var rest := DropCovered(outstanding, absoluteAck);
            && |rest| <= |outstanding| && rest == outstanding[|outstanding| - |rest|..]
            && CoversAck(rest, absoluteAck, next)
    decreases |outstanding|
  {
    if outstanding != [] && outstanding[0].End() <= absoluteAck {
      assert |outstanding| > 1 ==> outstanding[1].start == outstanding[0].End();
      DropCoveredIsSuffix(outstanding[1..], absoluteAck, next);
    }
  }

  /** The log invariant does not depend on ACKs, queue or timer. */
  lemma LoggedPersists(s: SenderState, s': SenderState)
    requires Logged(s) && s'.log == s.log && s'.next == s.next && s'.isn == s.isn && s'.mss == s.mss
    requires s'.stream.popped == s.stream.popped && s.stream.accepted <= s'.stream.accepted && s'.finSent == s.finSent
    ensures Logged(s')
  {
    forall i | 0 <= i < |s.log|
      ensures Faithful(s.log[i], s')
    {
      FaithfulPersists(s.log[i], s, s');
    }
  }

  lemma DropCoveredStaysSuffix(log: seq<OutstandingSegment>, outstanding: seq<OutstandingSegment>,
                               absoluteAck: nat, next: nat)
    requires Chained(log, next) && absoluteAck <= next
    requires |outstanding| <= |log| && outstanding == log[|log| - |outstanding|..]
    requires if outstanding == [] then absoluteAck == next else outstanding[0].start <= absoluteAck
    ensures var rest := DropCovered(outstanding, absoluteAck);
            |rest| <= |log| && rest == log[|log| - |rest|..] && CoversAck(rest, absoluteAck, next)
  {
  }

  lemma AdvanceKeepsTracked(s: SenderState, absoluteAck: nat)
    requires Chained(s.log, s.next) && Tracked(s) && s.acknowledged < absoluteAck <= s.next
    ensures Tracked(s.Advance(absoluteAck))
  {
    DropCoveredStaysSuffix(s.log, s.outstanding, absoluteAck, s.next);
  }

  lemma AdvanceKeepsInvariant(s: SenderState, absoluteAck: nat)
    requires Invariant(s) && s.acknowledged < absoluteAck <= s.next
    ensures Invariant(s.Advance(absoluteAck))
  {
    LoggedPersists(s, s.Advance(absoluteAck));
    AdvanceKeepsTracked(s, absoluteAck);
  }

  lemma WindowKeepsInvariant(s: SenderState, window: uint16)
    requires Invariant(s)
    ensures Invariant(s.(window := window))
  {
    LoggedPersists(s, s.(window := window));
  }

  /** Whatever message arrives, however old or wrong. */
  lemma {:induction false} ReceiveKeepsInvariant(s: SenderState, message: ReceiverMessage)
    requires Counted(s) && Logged(s) && Tracked(s) && Queued(s) && Timed(s)
    ensures Invariant(s.Receive(message))
  {
    if message.ackno.Some? {
      var absoluteAck := Unwrap(message.ackno.value, s.isn, s.next);
      if absoluteAck <= s.next {
        WindowKeepsInvariant(s, message.window);
        var updated := s.(window := message.window);
        if absoluteAck > s.acknowledged {
          AdvanceKeepsInvariant(updated, absoluteAck);
          PushKeepsInvariant(updated.Advance(absoluteAck));
        } else {
          PushKeepsInvariant(updated);
        }
      }
    }
  }

  // Time, the application and the network

  lemma TickKeepsQueued(s: SenderState, elapsedMs: uint64)
    requires Tracked(s) && Queued(s)
    ensures Queued(s.Tick(elapsedMs))
  {
  }

  lemma TickKeepsTimed(s: SenderState, elapsedMs: uint64)
    requires Timed(s)
    ensures Timed(s.Tick(elapsedMs))
  {
  }

  lemma {:induction false} TickKeepsInvariant(s: SenderState, elapsedMs: uint64)
    requires Invariant(s)
    ensures Invariant(s.Tick(elapsedMs))
  {
    LoggedPersists(s, s.Tick(elapsedMs));
    TickKeepsQueued(s, elapsedMs);
    TickKeepsTimed(s, elapsedMs);
  }

  lemma TakeKeepsInvariant(s: SenderState)
    requires Invariant(s)
    ensures Invariant(s.TakeSegments())
  {
    LoggedPersists(s, s.TakeSegments());
  }

  function Write(s: SenderState, data: seq<byte>): (s': SenderState)
    requires s.stream.Valid()
    ensures s'.stream.Valid()
  {
    s.(stream := s.stream.Push(data))
  }

  function CloseWriter(s: SenderState): (s': SenderState)
    requires s.stream.Valid()
    ensures s'.stream.Valid()
  {
    s.(stream := s.stream.Close())
  }

  lemma ApplicationKeepsInvariant(s: SenderState, data: seq<byte>)
    requires Invariant(s)
    ensures Invariant(Write(s, data)) && Invariant(CloseWriter(s))
  {
    LoggedPersists(s, Write(s, data));
    LoggedPersists(s, CloseWriter(s));
  }

  lemma NewSenderSatisfiesInvariant(capacity: uint64, isn: uint32, initialRto: uint64, mss: uint64)
    ensures Invariant(NewSender(capacity, isn, initialRto, mss))
  {
  }

  /** What push leaves alone, and how it extends the rest. */
  lemma {:induction false} PushKeepsFrame(s: SenderState)
    requires s.stream.Valid()
    ensures var s' := s.Push();
            && s'.acknowledged == s.acknowledged && s'.window == s.window
            && s'.isn == s.isn && s'.mss == s.mss && s'.initialRto == s.initialRto
            && s'.currentRto == s.currentRto && s'.retransmissions == s.retransmissions
            && s'.stream.accepted == s.stream.accepted && s'.stream.closed == s.stream.closed
            && s'.stream.capacity == s.stream.capacity
            && s.stream.popped <= s'.stream.popped
            && (s.synSent ==> s'.synSent) && (s.finSent ==> s'.finSent)
            && s.next <= s'.next <= Max(s.next, s.WindowRight())
            && s.log <= s'.log && s.outstanding <= s'.outstanding && s.queue <= s'.queue
    decreases s.WindowRight() - s.next
  {
    if s.next < s.WindowRight() && SequenceLength(s.NextSegment()) > 0 {
      PushKeepsFrame(s.Send(s.NextSegment()));
    }
  }
}
