/** What the sender lets out and when: how full its segments are, what an ACK releases, when the timer fires. */
module SenderResponses {
  import opened Words
  import opened WrappingIntegers
  import opened TinyStream
  import opened TcpReceiver
  import opened TcpSender
  import opened SenderInvariant
  import Sending = SenderTheorems

  // Push

  function Segments(entries: seq<OutstandingSegment>): seq<TcpSegment> {
    seq(|entries|, i requires 0 <= i < |entries| => entries[i].segment)
  }

  /** What push adds goes to the log, to the outstanding segments and to the queue alike, and nowhere else. */
  lemma {:induction false} PushAppends(s: SenderState)
    requires Counted(s)
    ensures s.log <= s.Push().log
    ensures var sent := s.Push().log[|s.log|..];
            s.Push().outstanding == s.outstanding + sent && s.Push().queue == s.queue + Segments(sent)
    decreases s.WindowRight() - s.next
  {
    if CanSend(s) {
      var after := s.Send(s.NextSegment());
      PushAppends(after);
      var copy := OutstandingSegment(s.NextSegment(), s.next, SequenceLength(s.NextSegment()));
      AppendedOneMore(s.log, copy, s.outstanding, s.queue, s.Push().log, s.Push().outstanding, s.Push().queue);
    } else {
      assert Segments(s.log[|s.log|..]) == [];
    }
  }

  lemma AppendedOneMore(log: seq<OutstandingSegment>, e: OutstandingSegment, outstanding: seq<OutstandingSegment>,
                        queue: seq<TcpSegment>, log': seq<OutstandingSegment>,
                        outstanding': seq<OutstandingSegment>, queue': seq<TcpSegment>)
    requires log + [e] <= log'
    requires outstanding' == outstanding + [e] + log'[|log| + 1..]
    requires queue' == queue + [e.segment] + Segments(log'[|log| + 1..])
    ensures log <= log'
    ensures outstanding' == outstanding + log'[|log|..] && queue' == queue + Segments(log'[|log|..])
  {
    var later := log'[|log| + 1..];
    assert log'[|log|] == (log + [e])[|log|] == e;
    assert log'[|log|..] == [e] + later;
    Reassociate(outstanding, [e], later);
    assert Segments([e] + later) == [e.segment] + Segments(later);
    Reassociate(queue, [e.segment], Segments(later));
  }

  /**
   * A segment is as full as it can be when it is sent under the right edge given: it carries mss bytes,
   * or reaches the edge, or takes the last byte granted so far. A FIN it carries takes the last position
   * of a closed stream; and once the last byte of a closed stream is taken, only the edge can hold the FIN back.
   */
  predicate Full(e: OutstandingSegment, right: nat, mss: nat, source: Stream) {
    && (|e.segment.payload| == mss || e.End() == right || PayloadEnd(e) == |source.accepted|)
    && (e.segment.fin ==> source.closed && PayloadEnd(e) == |source.accepted|)
    && (source.closed && PayloadEnd(e) == |source.accepted| ==> e.segment.fin || e.End() == right)
  }

  lemma NextSegmentIsFull(s: SenderState)
    requires CanSend(s)
    ensures Full(OutstandingSegment(s.NextSegment(), s.next, SequenceLength(s.NextSegment())),
                 s.WindowRight(), s.mss, s.stream)
  {
  }

  /** Every segment push sends is full. */
  lemma {:induction false} PushedSegmentsAreFull(s: SenderState, i: nat)
    requires Counted(s) && |s.log| <= i < |s.Push().log|
    ensures var right := s.acknowledged + (if s.window == 0 then 1 else s.window);
            Full(s.Push().log[i], right, s.mss, s.stream)
    decreases s.WindowRight() - s.next
  {
    var after := s.Send(s.NextSegment());
    PushKeepsFrame(after);
    if i == |s.log| {
      NextSegmentIsFull(s);
    } else {
      PushedSegmentsAreFull(after, i);
      assert Full(s.Push().log[i], s.WindowRight(), s.mss, after.stream);
    }
  }

  /** A new sender opens with the SYN alone, whatever was already written to it. */
  lemma FirstPushSendsSyn(capacity: uint64, isn: uint32, rto: uint64, mss: uint64, data: seq<byte>)
    ensures var s := NewSender(capacity, isn, rto, mss);
            var s' := s.(stream := s.stream.Push(data)).Push();
            && s'.queue == [TcpSegment(isn, true, false, [])] && s'.next == 1 && s'.acknowledged == 0
            && s'.stream.capacity == capacity && s'.mss == mss && s'.currentRto == s'.initialRto == rto
  {
  }

  // The timer when something is sent

  /** The timer starts from zero when push sends the first outstanding segment, and is left alone otherwise. */
  lemma {:induction false} PushStartsTimer(s: SenderState)
    requires Counted(s)
    ensures s.outstanding == [] && s.Push().outstanding != [] ==> s.Push().elapsed == 0 && s.Push().timerRunning
    ensures s.outstanding != [] || s.Push().outstanding == [] ==>
              s.Push().elapsed == s.elapsed && s.Push().timerRunning == s.timerRunning
    decreases s.WindowRight() - s.next
  {
    if CanSend(s) {
      var after := s.Send(s.NextSegment());
      PushStartsTimer(after);
      PushKeepsFrame(after);
    }
  }

  // ACKs

  /** The sender when it has taken a legal message over and before it pushes. */
  function Heard(s: SenderState, message: ReceiverMessage, absolute: nat): SenderState {
    var updated := s.(window := message.window);
    if absolute > s.acknowledged then updated.Advance(absolute) else updated
  }

  lemma ReceiveIsHeardAndPush(s: SenderState, message: ReceiverMessage, absolute: nat)
    requires s.stream.Valid() && message.ackno.Some?
    requires Unwrap(message.ackno.value, s.isn, s.next) == absolute <= s.next
    ensures s.Receive(message) == Heard(s, message, absolute).Push()
  {
  }

  lemma HeardIsCounted(s: SenderState, message: ReceiverMessage, absolute: nat)
    requires Counted(s) && absolute <= s.next
    ensures Counted(Heard(s, message, absolute))
    ensures Heard(s, message, absolute).acknowledged == Max(s.acknowledged, absolute)
    ensures Heard(s, message, absolute).next == s.next && Heard(s, message, absolute).stream == s.stream
    ensures Heard(s, message, absolute).log == s.log && Heard(s, message, absolute).queue == s.queue
  {
  }

  /** Every legal ACK, new or not, lets out all that the new window and the stream allow. */
  lemma ReceiveFillsWindow(s: SenderState, message: ReceiverMessage, absolute: nat)
    requires Counted(s) && s.mss > 0 && message.ackno.Some?
    requires Unwrap(message.ackno.value, s.isn, s.next) == absolute <= s.next
    ensures var right := Max(s.acknowledged, absolute) + (if message.window == 0 then 1 else message.window);
            s.Receive(message).next == Max(s.next, Min(right, Sending.Demand(s)))
  {
    ReceiveIsHeardAndPush(s, message, absolute);
    HeardIsCounted(s, message, absolute);
    Sending.PushFillsWindow(Heard(s, message, absolute));
  }

  /** A new ACK frees exactly what it covers, sends exactly what goes to the log, and restarts the timer from zero. */
  lemma NewAckEffect(s: SenderState, message: ReceiverMessage, absolute: nat)
    requires Counted(s) && message.ackno.Some?
    requires Unwrap(message.ackno.value, s.isn, s.next) == absolute && s.acknowledged < absolute <= s.next
    ensures s.log <= s.Receive(message).log
    ensures var sent := s.Receive(message).log[|s.log|..];
            && s.Receive(message).outstanding == DropCovered(s.outstanding, absolute) + sent
            && s.Receive(message).queue == s.queue + Segments(sent)
    ensures s.Receive(message).elapsed == 0
    ensures s.Receive(message).currentRto == s.initialRto && s.Receive(message).retransmissions == 0
  {
    var heard := Heard(s, message, absolute);
    ReceiveIsHeardAndPush(s, message, absolute);
    HeardIsCounted(s, message, absolute);
    PushAppends(heard);
    PushStartsTimer(heard);
    PushKeepsFrame(heard);
  }

  /** An old ACK frees nothing, sends exactly what goes to the log, and queues nothing else. */
  lemma OldAckEffect(s: SenderState, message: ReceiverMessage, absolute: nat)
    requires Counted(s) && message.ackno.Some?
    requires Unwrap(message.ackno.value, s.isn, s.next) == absolute <= s.acknowledged && absolute <= s.next
    ensures s.log <= s.Receive(message).log
    ensures var sent := s.Receive(message).log[|s.log|..];
            s.Receive(message).outstanding == s.outstanding + sent
            && s.Receive(message).queue == s.queue + Segments(sent)
  {
    ReceiveIsHeardAndPush(s, message, absolute);
    HeardIsCounted(s, message, absolute);
    PushAppends(Heard(s, message, absolute));
  }

  /** A message without an ACK changes nothing. */
  lemma NoAckIsIgnored(s: SenderState, window: uint16)
    requires s.stream.Valid()
    ensures s.Receive(ReceiverMessage(None, window)) == s
  {
  }

  // Time

  /** With nothing outstanding time does not count. */
  lemma IdleTickChangesNothing(s: SenderState, elapsedMs: uint64)
    requires s.outstanding == []
    ensures s.Tick(elapsedMs) == s
  {
  }

  /** A tick touches the timer, the queue and the back-off, and nothing else. */
  lemma TickKeepsRest(s: SenderState, elapsedMs: uint64)
    ensures var s' := s.Tick(elapsedMs);
            s == s'.(elapsed := s.elapsed, queue := s.queue,
                     retransmissions := s.retransmissions, currentRto := s.currentRto)
  {
  }

  /** Below the RTO a tick adds to the timer and does nothing else; with a retransmission it starts over. */
  lemma TickAddsUp(s: SenderState, elapsedMs: uint64)
    requires Timed(s) && s.outstanding != []
    ensures s.elapsed + elapsedMs < s.currentRto ==> s.Tick(elapsedMs) == s.(elapsed := s.elapsed + elapsedMs)
    ensures s.Tick(elapsedMs).queue != s.queue ==> s.Tick(elapsedMs).elapsed == 0
    ensures s.Tick(elapsedMs).queue == s.queue ==> s.Tick(elapsedMs).elapsed == (s.elapsed + elapsedMs) % MOD64
  {
  }

  /** The sender after a series of ticks with nothing else in between. */
  function Ticks(s: SenderState, ms: seq<uint64>): SenderState {
    if ms == [] then s else Ticks(s, ms[..|ms| - 1]).Tick(ms[|ms| - 1])
  }

  function Total(ms: seq<uint64>): nat {
    if ms == [] then 0 else Total(ms[..|ms| - 1]) + ms[|ms| - 1]
  }

  /** The last tick of the series retransmits. */
  predicate Retransmits(s: SenderState, ms: seq<uint64>)
    requires ms != []
  {
    Ticks(s, ms).queue != Ticks(s, ms[..|ms| - 1]).queue
  }

  /** The time reported since the timer was last restarted, by a retransmission or before the series. */
  function SinceRestart(s: SenderState, ms: seq<uint64>): nat {
    if ms == [] then s.elapsed
    else if Retransmits(s, ms) then 0
    else SinceRestart(s, ms[..|ms| - 1]) + ms[|ms| - 1]
  }

  lemma {:induction false} TicksKeepTimed(s: SenderState, ms: seq<uint64>)
    requires Timed(s) && s.outstanding != []
    ensures Timed(Ticks(s, ms)) && Ticks(s, ms).outstanding == s.outstanding
    ensures Ticks(s, ms).window == s.window && Ticks(s, ms).initialRto == s.initialRto
    decreases |ms|
  {
    if ms != [] {
      TicksKeepTimed(s, ms[..|ms| - 1]);
      TickKeepsTimed(Ticks(s, ms[..|ms| - 1]), ms[|ms| - 1]);
    }
  }

  lemma AddedModulo(x: nat, y: nat)
    ensures (x % MOD64 + y) % MOD64 == (x + y) % MOD64
  {
    var q := x / MOD64;
    assert x + y == q * MOD64 + (x % MOD64 + y);
  }

  lemma TickMovesTimer(s: SenderState, since: nat, elapsedMs: uint64)
    requires Timed(s) && s.outstanding != [] && s.elapsed == since % MOD64
    ensures s.Tick(elapsedMs).elapsed == if s.Tick(elapsedMs).queue != s.queue then 0 else (since + elapsedMs) % MOD64
  {
    TickAddsUp(s, elapsedMs);
    AddedModulo(since, elapsedMs);
  }

  /** The timer shows the time since the last restart, in 64 bits. */
  lemma {:induction false} TimerIsSinceRestart(s: SenderState, ms: seq<uint64>)
    requires Timed(s) && s.outstanding != []
    ensures Ticks(s, ms).elapsed == SinceRestart(s, ms) % MOD64
    decreases |ms|
  {
    if ms != [] {
      var before := ms[..|ms| - 1];
      TimerIsSinceRestart(s, before);
      TicksKeepTimed(s, before);
      TickMovesTimer(Ticks(s, before), SinceRestart(s, before), ms[|ms| - 1]);
    }
  }

  lemma TickResendsIff(s: SenderState, since: nat, elapsedMs: uint64)
    requires Timed(s) && s.outstanding != [] && s.elapsed == since % MOD64
    ensures s.Tick(elapsedMs).queue != s.queue <==> (since + elapsedMs) % MOD64 >= s.currentRto
  {
    Sending.TickResendsOldest(s, elapsedMs);
    AddedModulo(since, elapsedMs);
  }

  /**
   * After every series of ticks: one more retransmits exactly when the time reported since the last
   * restart, this tick included, reaches the RTO in force; counted in 64 bits, should it ever need more.
   */
  lemma RetransmitsWhenTimeIsUp(s: SenderState, ms: seq<uint64>, last: uint64, before: SenderState, since: nat)
    requires Timed(s) && s.outstanding != []
    requires before == Ticks(s, ms) && since == SinceRestart(s, ms)
    ensures before.Tick(last).queue != before.queue <==> (since + last) % MOD64 >= before.currentRto
  {
    TimerIsSinceRestart(s, ms);
    TicksKeepTimed(s, ms);
    TickResendsIff(before, since, last);
  }

  /** However the time below the RTO is cut into ticks, only the total counts. */
  lemma {:induction false} OnlyTotalCounts(s: SenderState, ms: seq<uint64>)
    requires Timed(s) && s.outstanding != [] && s.elapsed + Total(ms) < s.currentRto
    ensures Ticks(s, ms) == s.(elapsed := s.elapsed + Total(ms))
    decreases |ms|
  {
    if ms != [] {
      OnlyTotalCounts(s, ms[..|ms| - 1]);
      TicksKeepTimed(s, ms[..|ms| - 1]);
      TickAddsUp(Ticks(s, ms[..|ms| - 1]), ms[|ms| - 1]);
    }
  }

  /** The first timeout comes with the tick that brings the total to the RTO, and not before. */
  lemma FirstTimeout(s: SenderState, ms: seq<uint64>, last: uint64, total: nat)
    requires Timed(s) && s.outstanding != []
    requires total == s.elapsed + Total(ms) < s.currentRto && total + last < MOD64
    ensures Ticks(s, ms).queue == s.queue
    ensures Ticks(s, ms).Tick(last).queue
         == if total + last >= s.currentRto then s.queue + [s.outstanding[0].segment] else s.queue
  {
    OnlyTotalCounts(s, ms);
  }
}
