/** What the sender guarantees over all runs, against any messages from the other side. */
module SenderTheorems {
  import opened Words
  import opened WrappingIntegers
  import opened TinyStream
  import opened TcpReceiver
  import opened TcpSender
  import opened SenderInvariant

  datatype Step =
    | Write(data: seq<byte>)
    | CloseWriter
    | Fill
    | Hear(message: ReceiverMessage)
    | Elapse(ms: uint64)
    | Take

  function Apply(s: SenderState, step: Step): (s': SenderState)
    requires s.stream.Valid()
    ensures s'.stream.Valid()
  {
    match step
    case Write(data) => SenderInvariant.Write(s, data)
    case CloseWriter => SenderInvariant.CloseWriter(s)
    case Fill => s.Push()
    case Hear(message) => s.Receive(message)
    case Elapse(ms) => s.Tick(ms)
    case Take => s.TakeSegments()
  }

  function Run(s: SenderState, steps: seq<Step>): (s': SenderState)
    requires s.stream.Valid()
    ensures s'.stream.Valid()
    decreases |steps|
  {
    if steps == [] then s else Run(Apply(s, steps[0]), steps[1..])
  }

  lemma StepKeepsInvariant(s: SenderState, step: Step)
    requires Invariant(s)
    ensures Invariant(Apply(s, step))
  {
    match step
    case Write(data) => ApplicationKeepsInvariant(s, data);
    case CloseWriter => ApplicationKeepsInvariant(s, []);
    case Fill => PushKeepsInvariant(s);
    case Hear(message) => ReceiveKeepsInvariant(s, message);
    case Elapse(ms) => TickKeepsInvariant(s, ms);
    case Take => TakeKeepsInvariant(s);
  }

  /** What never goes back: the configuration stays and every history only grows. */
  ghost predicate Extends(s: SenderState, s': SenderState) {
    && s'.isn == s.isn && s'.mss == s.mss && s'.initialRto == s.initialRto && s'.stream.capacity == s.stream.capacity
    && s.stream.accepted <= s'.stream.accepted && s.stream.popped <= s'.stream.popped
    && (s.stream.closed ==> s'.stream.closed && s'.stream.accepted == s.stream.accepted)
    && (s.synSent ==> s'.synSent) && (s.finSent ==> s'.finSent)
    && s.acknowledged <= s'.acknowledged && s.next <= s'.next && s.log <= s'.log
  }

  lemma StepOnlyExtends(s: SenderState, step: Step)
    requires s.stream.Valid()
    ensures Extends(s, Apply(s, step))
  {
    match step
    case Fill => PushKeepsFrame(s);
    case Hear(message) => ReceiveKeepsFrame(s, message);
    case _ =>
  }

  /** Every run keeps the sender's invariant and only ever extends the log, next and the ACK point. */
  lemma {:induction false} RunKeepsInvariant(s: SenderState, steps: seq<Step>)
    requires Invariant(s)
    ensures var s' := Run(s, steps);
            Invariant(s') && Extends(s, s')
    decreases |steps|
  {
    if steps != [] {
      StepKeepsInvariant(s, steps[0]);
      StepOnlyExtends(s, steps[0]);
      RunKeepsInvariant(Apply(s, steps[0]), steps[1..]);
    }
  }

  // Tiling

  lemma {:induction false} EarlierEndsBefore(segments: seq<OutstandingSegment>, next: nat, i: nat, j: nat)
    requires Chained(segments, next) && i <= j < |segments|
    ensures segments[i].End() <= segments[j].End() && (i < j ==> segments[i].End() <= segments[j].start)
    decreases j
  {
    if i < j {
      EarlierEndsBefore(segments, next, i, j - 1);
    }
  }

  /**
   * The outstanding segments cover exactly the sequence space from the start of the first one to
   * next, one after another; they are none exactly when everything is acknowledged.
   */
  lemma OutstandingTilesFlight(s: SenderState)
    requires Invariant(s)
    ensures Chained(s.outstanding, s.next)
    ensures s.outstanding == [] <==> s.acknowledged == s.next
    ensures s.outstanding != [] ==> s.outstanding[0].start <= s.acknowledged < s.outstanding[0].End() <= s.next
    ensures forall i :: 0 <= i < |s.outstanding| ==> s.outstanding[i].length > 0
    ensures s.next - s.acknowledged <= MAX_WINDOW
  {
    var k := |s.log| - |s.outstanding|;
    forall i | 0 <= i < |s.outstanding|
      ensures s.outstanding[i].length > 0
    {
      assert Faithful(s.log[k + i], s);
    }
    if s.outstanding != [] {
      EarlierEndsBefore(s.log, s.next, k, |s.log| - 1);
    }
  }

  // Segmentation preserves the stream

  function Payloads(log: seq<OutstandingSegment>): seq<byte> {
    if log == [] then [] else Payloads(log[..|log| - 1]) + log[|log| - 1].segment.payload
  }

  lemma {:induction false} PayloadsArePrefix(s: SenderState, k: nat)
    requires Counted(s) && Logged(s) && k <= |s.log|
    ensures var end := if k == 0 then 0 else PayloadEnd(s.log[k - 1]);
            end <= |s.stream.accepted| && Payloads(s.log[..k]) == s.stream.accepted[..end]
    decreases k
  {
    if k > 0 {
      var e := s.log[k - 1];
      assert Faithful(e, s);
      var before := if k == 1 then 0 else PayloadEnd(s.log[k - 2]);
      if k > 1 {
        FollowingIndex(s, k - 1);
      }
      PayloadsArePrefix(s, k - 1);
      PayloadsExtend(s.log[..k], s.log[..k - 1], e, s.stream.accepted, before);
    }
  }

  lemma PayloadsExtend(log: seq<OutstandingSegment>, init: seq<OutstandingSegment>, e: OutstandingSegment,
                       source: seq<byte>, index: nat)
    requires log == init + [e] && index <= index + |e.segment.payload| <= |source|
    requires Payloads(init) == source[..index] && e.segment.payload == source[index..index + |e.segment.payload|]
    ensures Payloads(log) == source[..index + |e.segment.payload|]
  {
  }

  /** A segment's payload begins where the payload of the one before it ended; that one has no FIN. */
  lemma FollowingIndex(s: SenderState, i: nat)
    requires Counted(s) && Logged(s) && 0 < i < |s.log|
    ensures PayloadIndex(s.log[i]) == PayloadEnd(s.log[i - 1]) && !s.log[i - 1].segment.fin
  {
    var e, f := s.log[i - 1], s.log[i];
    assert Faithful(e, s) && Faithful(f, s);
    assert f.start == e.End();
    EarlierEndsBefore(s.log, s.next, i, |s.log| - 1);
  }

  /**
   * First transmissions carry exactly the bytes taken from the stream, in order and once; SYN is
   * on the first only, FIN on the last only; and everything queued, retransmissions included, is
   * one of them.
   */
  lemma SegmentationPreservesStream(s: SenderState)
    requires Invariant(s)
    ensures Payloads(s.log) == s.stream.accepted[..s.stream.popped]
    ensures forall i :: 0 <= i < |s.log| ==> (s.log[i].segment.syn <==> i == 0)
    ensures forall i :: 0 <= i < |s.log| && s.log[i].segment.fin ==> i == |s.log| - 1 && s.finSent
    ensures s.next == Flag(s.synSent) + s.stream.popped + Flag(s.finSent)
    ensures forall k :: 0 <= k < |s.queue| ==> WasSent(s.queue[k], s.log)
  {
    PayloadsArePrefix(s, |s.log|);
    assert s.log[..|s.log|] == s.log;
    if s.log != [] {
      LastPayloadEnd(s);
    }
    forall i | 0 <= i < |s.log|
      ensures s.log[i].segment.syn <==> i == 0
      ensures s.log[i].segment.fin ==> i == |s.log| - 1 && s.finSent
    {
      assert Faithful(s.log[i], s) && Faithful(s.log[0], s);
      EarlierEndsBefore(s.log, s.next, 0, i);
      if i < |s.log| - 1 {
        FollowingIndex(s, i + 1);
      }
    }
  }

  /** The FIN, if sent, is on the last segment, so the last payload ends where the reader of the stream stands. */
  lemma LastPayloadEnd(s: SenderState)
    requires Invariant(s) && s.log != []
    ensures PayloadEnd(s.log[|s.log| - 1]) == s.stream.popped
  {
    assert Faithful(s.log[|s.log| - 1], s);
  }

  // Window filling

  /** Every sequence position the stream can ask for so far: SYN, each byte granted, FIN once closed. */
  function Demand(s: SenderState): nat {
    1 + |s.stream.accepted| + Flag(s.stream.closed)
  }

  /** With a usable segment size, push sends everything that the window and the stream allow. */
  lemma {:induction false} PushFillsWindow(s: SenderState)
    requires Counted(s) && s.mss > 0
    ensures s.Push().next == Max(s.next, Min(s.WindowRight(), Demand(s)))
    decreases s.WindowRight() - s.next
  {
    if s.next < s.WindowRight() && SequenceLength(s.NextSegment()) > 0 {
      PushUnfolds(s);
      var sent := s.Send(s.NextSegment());
      assert s.next < sent.next && sent.WindowRight() == s.WindowRight() && Demand(sent) == Demand(s);
      PushFillsWindow(sent);
      assert s.Push().next == sent.Push().next;
    }
  }

  lemma PushOfZeroSize(s: SenderState)
    requires s.stream.Valid() && s.mss == 0
    ensures s.Push().stream.popped == s.stream.popped
    decreases s.WindowRight() - s.next
  {
  }

  lemma StepOfZeroSize(s: SenderState, step: Step)
    requires s.stream.Valid() && s.mss == 0
    ensures Apply(s, step).stream.popped == s.stream.popped && Apply(s, step).mss == 0
  {
    StepOnlyExtends(s, step);
    match step
    case Fill => PushOfZeroSize(s);
    case Hear(message) =>
      if message.ackno.Some? {
        var updated := s.(window := message.window);
        PushOfZeroSize(updated);
        PushOfZeroSize(updated.Advance(Unwrap(message.ackno.value, s.isn, s.next)));
      }
    case _ =>
  }

  /** With segment size zero no payload byte ever leaves the stream, in any run. */
  lemma {:induction false} ZeroSegmentSizeStalls(s: SenderState, steps: seq<Step>)
    requires s.stream.Valid() && s.mss == 0
    ensures Run(s, steps).stream.popped == s.stream.popped
    decreases |steps|
  {
    if steps != [] {
      StepOfZeroSize(s, steps[0]);
      ZeroSegmentSizeStalls(Apply(s, steps[0]), steps[1..]);
    }
  }

  // Acknowledgements

  /** Every ACK for a position in flight is decoded to that very position. */
  lemma AckInFlightIsDecoded(s: SenderState, absolute: nat)
    requires Invariant(s) && s.acknowledged <= absolute <= s.next < MOD64
    ensures Unwrap(Wrap(absolute, s.isn), s.isn, s.next) == absolute
  {
    UnwrapOfWrap(absolute, s.isn, s.next);
  }

  /** An ACK in flight moves the ACK point to itself and frees exactly the segments it covers in full. */
  lemma AckFreesCoveredSegments(s: SenderState, absolute: nat, window: uint16)
    requires Invariant(s) && s.acknowledged < absolute <= s.next < MOD64
    ensures var s' := s.Receive(ReceiverMessage(Some(Wrap(absolute, s.isn)), window));
            && s'.acknowledged == absolute && s'.window == window
            && DropCovered(s.outstanding, absolute) <= s'.outstanding
            && s'.currentRto == s.initialRto && s'.retransmissions == 0
  {
    AckInFlightIsDecoded(s, absolute);
    PushKeepsFrame(s.(window := window).Advance(absolute));
  }

  lemma {:induction false} PushKeepsClock(s: SenderState)
    requires Counted(s)
    ensures s.outstanding != [] ==> s.Push().elapsed == s.elapsed && s.Push().timerRunning == s.timerRunning
    decreases s.WindowRight() - s.next
  {
    if CanSend(s) {
      PushKeepsClock(s.Send(s.NextSegment()));
    }
  }

  /** A repeated or older ACK frees nothing and leaves the running timer and its back-off alone. */
  lemma OldAckKeepsTimer(s: SenderState, message: ReceiverMessage)
    requires Counted(s) && Timed(s) && message.ackno.Some?
    requires Unwrap(message.ackno.value, s.isn, s.next) <= s.acknowledged
    ensures s.Receive(message).acknowledged == s.acknowledged && s.Receive(message).window == message.window
    ensures s.outstanding <= s.Receive(message).outstanding
    ensures s.Receive(message).currentRto == s.currentRto && s.Receive(message).retransmissions == s.retransmissions
    ensures s.outstanding != [] ==> s.Receive(message).elapsed == s.elapsed && s.Receive(message).timerRunning
  {
    var updated := s.(window := message.window);
    PushKeepsFrame(updated);
    PushKeepsClock(updated);
  }

  /** An ACK beyond everything sent changes nothing, not even the window. */
  lemma ImpossibleAckIsIgnored(s: SenderState, message: ReceiverMessage)
    requires s.stream.Valid() && message.ackno.Some? && Unwrap(message.ackno.value, s.isn, s.next) > s.next
    ensures s.Receive(message) == s
  {
  }

  lemma ReceiveKeepsFrame(s: SenderState, message: ReceiverMessage)
    requires s.stream.Valid()
    ensures Extends(s, s.Receive(message)) && s.queue <= s.Receive(message).queue
    ensures s.Receive(message).stream.accepted == s.stream.accepted
    ensures s.Receive(message).stream.closed == s.stream.closed
  {
    if message.ackno.Some? {
      var absoluteAck := Unwrap(message.ackno.value, s.isn, s.next);
      var updated := s.(window := message.window);
      PushKeepsFrame(updated);
      PushKeepsFrame(updated.Advance(absoluteAck));
    }
  }

  // Timer

  /**
   * A tick emits at most one segment, the oldest outstanding, and only when the RTO has run out. It
   * counts as a retransmission, and so backs off, unless it probes a closed window.
   */
  lemma TickResendsOldest(s: SenderState, elapsedMs: uint64)
    requires Timed(s)
    ensures var s' := s.Tick(elapsedMs);
            && (s'.retransmissions == s.retransmissions + if s'.queue != s.queue && s.window != 0 then 1 else 0)
            && (s'.queue == s.queue || (s.outstanding != [] && s'.queue == s.queue + [s.outstanding[0].segment]))
            && (s'.queue != s.queue <==> s.outstanding != [] && (s.elapsed + elapsedMs) % MOD64 >= s.currentRto)
            && s'.outstanding == s.outstanding && s'.next == s.next && s'.log == s.log
  {
  }

  /** The segment that is due when elapsedMs have passed, in unbounded arithmetic. */
  predicate Due(s: SenderState, elapsedMs: uint64) {
    s.outstanding != [] && s.elapsed + elapsedMs >= s.currentRto
  }

  /**
   * A tick retransmits exactly what is due if and only if the 64-bit sum of the timer does not roll
   * over, or rolls over to no less than the RTO.
   */
  lemma TickIsOnTimeIff(s: SenderState, elapsedMs: uint64)
    requires Timed(s)
    ensures (s.Tick(elapsedMs).queue != s.queue <==> Due(s, elapsedMs))
       <==> s.outstanding == [] || s.elapsed + elapsedMs < MOD64 || s.elapsed + elapsedMs - MOD64 >= s.currentRto
  {
    TickResendsOldest(s, elapsedMs);
  }

  /** One tick of nearly 2^64 ms rolls the timer over: it is far past the RTO and sends nothing. */
  lemma HugeTickSendsNothing(s: SenderState)
    requires Timed(s) && s.outstanding != [] && s.elapsed > 0
    ensures Due(s, MOD64 - s.elapsed) && s.Tick(MOD64 - s.elapsed).queue == s.queue
  {
    TickResendsOldest(s, MOD64 - s.elapsed);
  }

  lemma {:induction false} Pow2Splits(m: nat, n: nat)
    ensures Pow2(m + n) == Pow2(m) * Pow2(n)
    decreases m
  {
    if m > 0 {
      Pow2Splits(m - 1, n);
      assert Pow2(m + n) == 2 * (Pow2(m - 1) * Pow2(n)) == Pow2(m) * Pow2(n);
    }
  }

  lemma DoubleModulo(x: nat)
    ensures (2 * (x % MOD64)) % MOD64 == (2 * x) % MOD64
  {
    var q := x / MOD64;
    assert x == q * MOD64 + x % MOD64;
    assert 2 * x == (2 * q) * MOD64 + 2 * (x % MOD64);
  }

  lemma DoubleProduct(x: nat, y: nat)
    ensures 2 * (x * y) == x * (2 * y)
  {
  }

  /** The RTO is the initial one times 2^n, in 64-bit arithmetic. */
  lemma {:induction false} BackoffIsPow2(initialRto: uint64, n: nat)
    ensures Backoff(initialRto, n) == (initialRto * Pow2(n)) % MOD64
    decreases n
  {
    if n > 0 {
      BackoffIsPow2(initialRto, n - 1);
      DoubleModulo(initialRto * Pow2(n - 1));
      DoubleProduct(initialRto, Pow2(n - 1));
    }
  }

  /** Back-off is exponential exactly as long as the product still fits 64 bits. */
  lemma BackoffIsExponential(s: SenderState)
    requires Timed(s)
    ensures s.currentRto == s.initialRto * Pow2(s.retransmissions) <==> s.initialRto * Pow2(s.retransmissions) < MOD64
  {
    BackoffIsPow2(s.initialRto, s.retransmissions);
  }

  lemma MultipleIsZero(k: nat)
    ensures (k * MOD64) % MOD64 == 0
  {
  }

  lemma Pow2Of64()
    ensures Pow2(64) == MOD64
  {
    assert Pow2(8) == 0x100;
    Pow2Splits(8, 8);
    Pow2Splits(16, 16);
    Pow2Splits(32, 32);
  }

  lemma {:induction false} ZeroStaysZero(initialRto: uint64, m: nat, n: nat)
    requires m <= n && Backoff(initialRto, m) == 0
    ensures Backoff(initialRto, n) == 0
    decreases n
  {
    if m < n {
      ZeroStaysZero(initialRto, m, n - 1);
    }
  }

  lemma BackoffEndsAtZero(initialRto: uint64, n: nat)
    requires n >= 64
    ensures Backoff(initialRto, n) == 0
  {
    Pow2Of64();
    BackoffIsPow2(initialRto, 64);
    MultipleIsZero(initialRto);
    ZeroStaysZero(initialRto, 64, n);
  }

  /** The tick that just reaches the RTO. */
  function Timeout(s: SenderState): SenderState {
    if s.elapsed <= s.currentRto then s.Tick(s.currentRto - s.elapsed) else s
  }

  /** n timeouts in a row with nothing heard from the other side. */
  function Timeouts(s: SenderState, n: nat): SenderState {
    if n == 0 then s else Timeout(Timeouts(s, n - 1))
  }

  lemma OneTimeout(s: SenderState)
    requires Timed(s) && s.outstanding != [] && s.window != 0
    ensures var t := Timeout(s);
            && t.retransmissions == s.retransmissions + 1 && t.queue == s.queue + [s.outstanding[0].segment]
            && t.outstanding == s.outstanding && t.window == s.window && t.initialRto == s.initialRto
            && Timed(t)
  {
  }

  /**
   * After 64 unanswered timeouts the RTO register is zero for every initial RTO, and from then on
   * every tick retransmits, however short.
   */
  lemma {:induction false} BackoffCollapses(s: SenderState, n: nat)
    requires Timed(s) && s.outstanding != [] && s.window != 0 && s.retransmissions == 0
    ensures var t := Timeouts(s, n);
            && t.outstanding == s.outstanding && t.window == s.window && t.initialRto == s.initialRto
            && t.retransmissions == n && Timed(t)
            && (n >= 64 ==> && t.currentRto == 0
                            && forall ms: uint64 {:trigger t.Tick(ms)} ::
                                 t.Tick(ms).queue == t.queue + [s.outstanding[0].segment])
    decreases n
  {
    if n > 0 {
      BackoffCollapses(s, n - 1);
      OneTimeout(Timeouts(s, n - 1));
    }
    if n >= 64 {
      BackoffEndsAtZero(s.initialRto, n);
    }
  }

  lemma Pow2Of60(n: nat)
    requires n == 60
    ensures Pow2(n) == 0x1000_0000_0000_0000
  {
    assert Pow2(4) == 0x10;
    assert Pow2(8) == 0x100;
    Pow2Splits(8, 8);
    Pow2Splits(16, 16);
    Pow2Splits(8, 16);
    Pow2Splits(4, 24);
    Pow2Splits(28, 32);
  }

  lemma OneSecondAround61(n: nat)
    requires Pow2(n) == 0x1000_0000_0000_0000
    ensures Backoff(1000, n) == 0x8000_0000_0000_0000 && Backoff(1000, n + 1) == 0
  {
    BackoffIsPow2(1000, n);
  }

  /** An initial RTO of one second collapses with its 61st unanswered timeout. */
  lemma OneSecondCollapsesAt61(n: nat)
    ensures Backoff(1000, n) == 0 <==> n >= 61
  {
    var m: nat := 60;
    Pow2Of60(m);
    OneSecondAround61(m);
    if n >= 61 {
      ZeroStaysZero(1000, m + 1, n);
    } else if Backoff(1000, n) == 0 {
      ZeroStaysZero(1000, n, m);
    }
  }
}
