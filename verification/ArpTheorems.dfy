/** What the ARP interface keeps over every run: nothing is lost or reordered, requests stay five seconds apart. */
module ArpTheorems {
  import opened Words
  import opened TinyArp

  datatype Event =
    | Send(datagram: Datagram, hop: IpAddress)
    | Receive(frame: EthernetFrame)
    | Tick(elapsedMs: nat)
    | Take

  predicate Legal(n: Interface, e: Event) {
    e.Receive? ==> n.Receivable(e.frame)
  }

  function Step(n: Interface, e: Event): Interface
    requires Legal(n, e)
  {
    match e
    case Send(datagram, hop) => n.SendDatagram(datagram, hop)
    case Receive(frame) => n.RecvFrame(frame)
    case Tick(elapsedMs) => n.Tick(elapsedMs)
    case Take => n.TakeFrames()
  }

  predicate Runs(n: Interface, events: seq<Event>)
    decreases |events|
  {
    events == [] || (Legal(n, events[0]) && Runs(Step(n, events[0]), events[1..]))
  }

  function Run(n: Interface, events: seq<Event>): Interface
    requires Runs(n, events)
    decreases |events|
  {
    if events == [] then n else Run(Step(n, events[0]), events[1..])
  }

  /** The datagrams submitted for one hop, oldest first. */
  function SubmittedFor(submitted: seq<Submission>, hop: IpAddress): seq<Datagram> {
    if submitted == [] then []
    else
      var last := submitted[|submitted| - 1];
      SubmittedFor(submitted[..|submitted| - 1], hop) + if last.hop == hop then [last.datagram] else []
  }

  /** The datagrams carried by the IPv4 frames emitted for one hop, oldest first. */
  function EmittedFor(trace: seq<Emission>, hop: IpAddress): seq<Datagram> {
    if trace == [] then []
    else
      var last := trace[|trace| - 1];
      EmittedFor(trace[..|trace| - 1], hop)
      + if last.hop == hop && last.frame.kind.Ipv4? && last.frame.datagram.Some?
        then [last.frame.datagram.value] else []
  }

  function Frames(trace: seq<Emission>): seq<EthernetFrame> {
    seq(|trace|, i requires 0 <= i < |trace| => trace[i].frame)
  }

  predicate IsRequest(e: Emission) {
    e.frame.kind.ArpRequest?
  }

  ghost predicate CacheIsLive(n: Interface) {
    forall h :: h in n.cache ==> n.now < n.cache[h].expiresAt <= n.now + CACHE_LIFETIME_MS
  }

  ghost predicate WaitingIsUnresolved(n: Interface) {
    forall h :: h in n.waiting ==> h !in n.cache && n.waiting[h] != [] && h in n.lastRequest
  }

  /** A past request is still awaited, or its answer is cached for long enough, or it is long ago. */
  predicate Accounted(n: Interface, h: IpAddress)
    requires h in n.lastRequest
  {
    && n.lastRequest[h] <= n.now
    && (|| h in n.waiting
        || (h in n.cache && n.cache[h].expiresAt >= n.lastRequest[h] + CACHE_LIFETIME_MS)
        || n.now >= n.lastRequest[h] + CACHE_LIFETIME_MS)
  }

  ghost predicate RequestsAreAccounted(n: Interface) {
    forall h :: h in n.lastRequest ==> Accounted(n, h)
  }

  ghost predicate RequestsAreSpaced(n: Interface) {
    && (forall i :: 0 <= i < |n.trace| && IsRequest(n.trace[i]) ==>
          && n.trace[i].frame == n.RequestFrame(n.trace[i].hop)
          && n.trace[i].hop in n.lastRequest
          && n.trace[i].time <= n.lastRequest[n.trace[i].hop])
    && (forall i, j :: 0 <= i < j < |n.trace| && IsRequest(n.trace[i]) && IsRequest(n.trace[j])
                       && n.trace[i].hop == n.trace[j].hop ==>
          n.trace[i].time + REQUEST_SUPPRESSION_MS <= n.trace[j].time)
  }

  /** The recorded time of the last request for a hop is the time of a request that was emitted. */
  ghost predicate RequestRecorded(n: Interface, h: IpAddress) {
    h in n.lastRequest ==>
      exists i :: && 0 <= i < |n.trace| && IsRequest(n.trace[i])
                  && n.trace[i].hop == h && n.trace[i].time == n.lastRequest[h]
  }

  predicate ConservedFor(n: Interface, h: IpAddress) {
    SubmittedFor(n.submitted, h) == EmittedFor(n.trace, h) + n.WaitingFor(h)
  }

  ghost predicate Conserved(n: Interface) {
    forall h :: ConservedFor(n, h)
  }

  ghost predicate Timing(n: Interface) {
    CacheIsLive(n) && WaitingIsUnresolved(n) && RequestsAreAccounted(n)
  }

  ghost predicate Invariant(n: Interface) {
    Timing(n) && RequestsAreSpaced(n) && (forall h :: RequestRecorded(n, h)) && Conserved(n)
  }

  // Timing: the cache lifetime covers the request suppression window.

  lemma SendKeepsTiming(n: Interface, datagram: Datagram, hop: IpAddress)
    requires Timing(n)
    ensures Timing(n.SendDatagram(datagram, hop))
  {
  }

  lemma LearnKeepsTiming(n: Interface, hop: IpAddress, mac: MacAddress)
    requires Timing(n)
    ensures Timing(n.Learn(hop, mac).Flush(hop))
  {
  }

  lemma TickKeepsTiming(n: Interface, elapsedMs: nat)
    requires Timing(n)
    ensures Timing(n.Tick(elapsedMs))
  {
  }

  lemma StepKeepsTiming(n: Interface, e: Event)
    requires Timing(n) && Legal(n, e)
    ensures Timing(Step(n, e))
  {
    match e
    case Send(datagram, hop) => SendKeepsTiming(n, datagram, hop);
    case Receive(frame) =>
      if n.Accepts(frame) && !frame.kind.Ipv4? {
        var message := frame.arp.value;
        LearnKeepsTiming(n, message.senderIp, message.senderMac);
        TimingIgnoresFrames(n.Learn(message.senderIp, message.senderMac).Flush(message.senderIp), n.RecvFrame(frame));
      }
    case Tick(elapsedMs) => TickKeepsTiming(n, elapsedMs);
    case Take => TimingIgnoresFrames(n, n.TakeFrames());
  }

  lemma TimingIgnoresFrames(n: Interface, m: Interface)
    requires Timing(n)
    requires m.now == n.now && m.cache == n.cache && m.waiting == n.waiting && m.lastRequest == n.lastRequest
    ensures Timing(m)
  {
  }

  /**
   * When a datagram is the first to wait for its hop, a request for that hop goes out in the same
   * step: suppression can only apply while an older datagram is still waiting.
   */
  lemma FirstWaitingDatagramSendsRequest(n: Interface, e: Event, h: IpAddress)
    requires Timing(n) && Legal(n, e)
    requires h !in n.waiting && h in Step(n, e).waiting
    ensures e.Send? && e.hop == h
    ensures Step(n, e).trace == n.trace + [Emission(n.RequestFrame(h), h, n.now)]
    ensures Step(n, e).frames == n.frames + [n.RequestFrame(h)]
    ensures Step(n, e).lastRequest == n.lastRequest[h := n.now]
  {
  }

  // Spacing of requests.

  lemma SendKeepsSpacing(n: Interface, datagram: Datagram, hop: IpAddress)
    requires Timing(n) && RequestsAreSpaced(n)
    ensures RequestsAreSpaced(n.SendDatagram(datagram, hop))
  {
    var next := n.SendDatagram(datagram, hop);
    assert |n.trace| <= |next.trace| <= |n.trace| + 1;
    assert forall i :: 0 <= i < |n.trace| ==> next.trace[i] == n.trace[i];
  }

  lemma ReceiveKeepsSpacing(n: Interface, frame: EthernetFrame)
    requires RequestsAreSpaced(n) && n.Receivable(frame)
    ensures RequestsAreSpaced(n.RecvFrame(frame))
  {
    var next := n.RecvFrame(frame);
    assert forall i :: 0 <= i < |n.trace| ==> next.trace[i] == n.trace[i];
    assert forall i :: |n.trace| <= i < |next.trace| ==> !IsRequest(next.trace[i]);
  }

  lemma StepKeepsSpacing(n: Interface, e: Event)
    requires Timing(n) && RequestsAreSpaced(n) && Legal(n, e)
    ensures RequestsAreSpaced(Step(n, e))
  {
    match e
    case Send(datagram, hop) => SendKeepsSpacing(n, datagram, hop);
    case Receive(frame) => ReceiveKeepsSpacing(n, frame);
    case Tick(elapsedMs) =>
    case Take =>
  }

  lemma StepKeepsRecord(n: Interface, e: Event, h: IpAddress)
    requires Legal(n, e) && RequestRecorded(n, h)
    ensures RequestRecorded(Step(n, e), h)
  {
    var next := Step(n, e);
    if h in n.lastRequest && next.lastRequest == n.lastRequest {
      var i :| && 0 <= i < |n.trace| && IsRequest(n.trace[i])
               && n.trace[i].hop == h && n.trace[i].time == n.lastRequest[h];
      assert next.trace[i] == n.trace[i];
    } else if h in next.lastRequest {
      SendRecords(n, e, h);
    }
  }

  lemma SendRecords(n: Interface, e: Event, h: IpAddress)
    requires Legal(n, e) && RequestRecorded(n, h)
    requires Step(n, e).lastRequest != n.lastRequest
    ensures RequestRecorded(Step(n, e), h)
  {
    var next := Step(n, e);
    assert next.trace == n.trace + [Emission(n.RequestFrame(e.hop), e.hop, n.now)];
    if h == e.hop {
      assert IsRequest(next.trace[|n.trace|]);
    } else if h in n.lastRequest {
      var i :| && 0 <= i < |n.trace| && IsRequest(n.trace[i])
               && n.trace[i].hop == h && n.trace[i].time == n.lastRequest[h];
      assert next.trace[i] == n.trace[i];
    }
  }

  ghost predicate EmitsRequest(n: Interface, e: Event, h: IpAddress)
    requires Legal(n, e)
  {
    exists i :: |n.trace| <= i < |Step(n, e).trace| && IsRequest(Step(n, e).trace[i]) && Step(n, e).trace[i].hop == h
  }

  ghost predicate QuietFor(n: Interface, h: IpAddress) {
    forall i :: 0 <= i < |n.trace| && IsRequest(n.trace[i]) && n.trace[i].hop == h ==>
      n.trace[i].time + 5_000 <= n.now
  }

  lemma QuietIsMayRequest(n: Interface, h: IpAddress)
    requires RequestsAreSpaced(n) && RequestRecorded(n, h)
    ensures QuietFor(n, h) <==> n.MayRequest(h)
  {
  }

  /**
   * A request for a hop goes out exactly when a datagram is submitted for it, its address is not
   * cached, and every request emitted for it so far is at least five seconds old.
   */
  lemma RequestEmittedIff(n: Interface, e: Event, h: IpAddress)
    requires Invariant(n) && Legal(n, e)
    ensures EmitsRequest(n, e, h) <==> e.Send? && e.hop == h && h !in n.cache && QuietFor(n, h)
  {
    assert RequestRecorded(n, h);
    QuietIsMayRequest(n, h);
    var next := Step(n, e);
    if e.Send? && e.hop == h && h !in n.cache && n.MayRequest(h) {
      assert next.trace[|n.trace|] == Emission(n.RequestFrame(h), h, n.now);
      assert IsRequest(next.trace[|n.trace|]);
    } else if EmitsRequest(n, e, h) {
      OnlyUnresolvedSendsRequest(n, e, h);
      assert false;
    }
  }

  lemma OnlyUnresolvedSendsRequest(n: Interface, e: Event, h: IpAddress)
    requires CacheIsLive(n) && Legal(n, e) && EmitsRequest(n, e, h)
    ensures e.Send? && e.hop == h && h !in n.cache && n.MayRequest(h)
  {
  }

  /** An ARP reply goes out exactly for an accepted request that asks for this interface, to whoever asked. */
  lemma ReplyEmittedIff(n: Interface, e: Event)
    requires Legal(n, e)
    ensures (exists i :: |n.trace| <= i < |Step(n, e).trace| && Step(n, e).trace[i].frame.kind.ArpReply?)
       <==> e.Receive? && n.Accepts(e.frame) && e.frame.kind.ArpRequest? && e.frame.arp.value.targetIp == n.ip
    ensures e.Receive? && n.Accepts(e.frame) && e.frame.kind.ArpRequest? && e.frame.arp.value.targetIp == n.ip ==>
              var asked := e.frame.arp.value;
              var answer := ArpMessage(n.ip, n.mac, asked.senderIp);
              var reply := EthernetFrame(asked.senderMac, n.mac, ArpReply, None, Some(answer), true);
              |Step(n, e).frames| > 0 && Step(n, e).frames[|Step(n, e).frames| - 1] == reply
  {
    var next := Step(n, e);
    if e.Receive? && n.Accepts(e.frame) && e.frame.kind.ArpRequest? && e.frame.arp.value.targetIp == n.ip {
      assert |n.trace| < |next.trace| && next.trace[|next.trace| - 1].frame.kind.ArpReply?;
    }
  }

  // The life of a cache entry.

  /** Time passes the same whether it is reported at once or in parts. */
  lemma TicksAdd(n: Interface, a: nat, b: nat)
    ensures n.Tick(a).Tick(b) == n.Tick(a + b)
  {
  }

  /** A learned address is used for exactly 30 seconds. */
  lemma LearnedEntryLives(n: Interface, hop: IpAddress, mac: MacAddress, elapsedMs: nat)
    ensures n.Learn(hop, mac).Tick(elapsedMs).HasLiveEntry(hop) <==> elapsedMs < 30_000
    ensures hop in n.Learn(hop, mac).Tick(elapsedMs).cache <==> elapsedMs < 30_000
  {
  }

  // Conservation per hop.

  lemma SubmittedAppends(submitted: seq<Submission>, s: Submission, h: IpAddress)
    ensures SubmittedFor(submitted + [s], h)
         == SubmittedFor(submitted, h) + if s.hop == h then [s.datagram] else []
  {
  }

  lemma EmittedAppends(trace: seq<Emission>, e: Emission, h: IpAddress)
    ensures EmittedFor(trace + [e], h)
         == EmittedFor(trace, h)
          + if e.hop == h && e.frame.kind.Ipv4? && e.frame.datagram.Some? then [e.frame.datagram.value] else []
  {
  }

  lemma DrainStep(n: Interface, queue: seq<Datagram>, k: nat, mac: MacAddress, hop: IpAddress, h: IpAddress)
    requires k < |queue|
    ensures EmittedFor(n.EmitAll(queue[..k + 1], mac, hop).trace, h)
         == EmittedFor(n.EmitAll(queue[..k], mac, hop).trace, h) + if h == hop then [queue[k]] else []
  {
    EmitAllGrows(n, queue, k, mac, hop);
    EmittedAppends(n.EmitAll(queue[..k], mac, hop).trace, Emission(n.Ipv4Frame(queue[k], mac), hop, n.now), h);
  }

  lemma DrainNothing(n: Interface, mac: MacAddress, hop: IpAddress)
    ensures n.EmitAll([], mac, hop).trace == n.trace
  {
  }

  lemma PrefixGrows<T>(base: seq<T>, s: seq<T>, k: nat)
    requires k < |s|
    ensures base + s[..k + 1] == base + s[..k] + [s[k]]
  {
  }

  lemma {:induction false} DrainEmitsPrefix(n: Interface, queue: seq<Datagram>, k: nat,
                                            mac: MacAddress, hop: IpAddress, h: IpAddress)
    requires k <= |queue|
    ensures EmittedFor(n.EmitAll(queue[..k], mac, hop).trace, h)
         == EmittedFor(n.trace, h) + if h == hop then queue[..k] else []
  {
    if k == 0 {
      DrainNothing(n, mac, hop);
    } else {
      DrainEmitsPrefix(n, queue, k - 1, mac, hop, h);
      DrainStep(n, queue, k - 1, mac, hop, h);
      PrefixGrows(EmittedFor(n.trace, h), queue, k - 1);
    }
  }

  /** Draining a queue emits exactly its datagrams, in order, and nothing for any other hop. */
  lemma DrainEmitsQueue(n: Interface, queue: seq<Datagram>, mac: MacAddress, hop: IpAddress, h: IpAddress)
    ensures EmittedFor(n.EmitAll(queue, mac, hop).trace, h) == EmittedFor(n.trace, h) + if h == hop then queue else []
  {
    DrainEmitsPrefix(n, queue, |queue|, mac, hop, h);
    assert queue[..|queue|] == queue;
  }

  lemma SendConserves(n: Interface, datagram: Datagram, hop: IpAddress, h: IpAddress)
    requires Timing(n) && ConservedFor(n, h)
    ensures ConservedFor(n.SendDatagram(datagram, hop), h)
  {
    if n.HasLiveEntry(hop) {
      assert hop !in n.waiting;
      LiveSendConserves(n, datagram, hop, h);
    } else {
      QueuedSendConserves(n, datagram, hop, h);
    }
  }

  lemma LiveSendConserves(n: Interface, datagram: Datagram, hop: IpAddress, h: IpAddress)
    requires n.HasLiveEntry(hop) && hop !in n.waiting && ConservedFor(n, h)
    ensures ConservedFor(n.SendDatagram(datagram, hop), h)
  {
    SubmittedAppends(n.submitted, Submission(hop, datagram), h);
    EmittedAppends(n.trace, Emission(n.Ipv4Frame(datagram, n.cache[hop].mac), hop, n.now), h);
    var emitted := EmittedFor(n.trace, h);
    assert emitted + [] == emitted;
    if h == hop {
      assert emitted + [datagram] + [] == emitted + [datagram];
    } else {
      assert emitted + n.WaitingFor(h) + [] == emitted + n.WaitingFor(h);
    }
  }

  lemma QueuedSendConserves(n: Interface, datagram: Datagram, hop: IpAddress, h: IpAddress)
    requires !n.HasLiveEntry(hop) && ConservedFor(n, h)
    ensures ConservedFor(n.SendDatagram(datagram, hop), h)
  {
    SubmittedAppends(n.submitted, Submission(hop, datagram), h);
    QueueingEmitsNothing(n, datagram, hop, h);
    QueueingAppends(n, datagram, hop, h);
    Reassociate(EmittedFor(n.trace, h), n.WaitingFor(h), if h == hop then [datagram] else []);
  }

  lemma QueueingEmitsNothing(n: Interface, datagram: Datagram, hop: IpAddress, h: IpAddress)
    requires !n.HasLiveEntry(hop)
    ensures EmittedFor(n.SendDatagram(datagram, hop).trace, h) == EmittedFor(n.trace, h)
  {
    EmittedAppends(n.trace, Emission(n.RequestFrame(hop), hop, n.now), h);
  }

  lemma QueueingAppends(n: Interface, datagram: Datagram, hop: IpAddress, h: IpAddress)
    requires !n.HasLiveEntry(hop)
    ensures n.SendDatagram(datagram, hop).WaitingFor(h) == n.WaitingFor(h) + if h == hop then [datagram] else []
  {
  }

  lemma FlushConserves(n: Interface, hop: IpAddress, h: IpAddress)
    requires ConservedFor(n, h)
    ensures ConservedFor(n.Flush(hop), h)
  {
    if hop in n.waiting && hop in n.cache {
      DrainEmitsQueue(n, n.waiting[hop], n.cache[hop].mac, hop, h);
    }
  }

  lemma ReceiveConserves(n: Interface, frame: EthernetFrame, h: IpAddress)
    requires ConservedFor(n, h) && n.Receivable(frame)
    ensures ConservedFor(n.RecvFrame(frame), h)
  {
    if n.Accepts(frame) && !frame.kind.Ipv4? {
      var message := frame.arp.value;
      var learned := n.Learn(message.senderIp, message.senderMac);
      assert ConservedFor(learned, h);
      FlushConserves(learned, message.senderIp, h);
      var flushed := learned.Flush(message.senderIp);
      EmittedAppends(flushed.trace, Emission(n.ReplyFrame(message), message.senderIp, n.now), h);
    }
  }

  lemma StepConserves(n: Interface, e: Event, h: IpAddress)
    requires Timing(n) && ConservedFor(n, h) && Legal(n, e)
    ensures ConservedFor(Step(n, e), h)
  {
    match e
    case Send(datagram, hop) => SendConserves(n, datagram, hop, h);
    case Receive(frame) => ReceiveConserves(n, frame, h);
    case Tick(elapsedMs) =>
    case Take =>
  }

  // Every run.

  lemma StepKeepsInvariant(n: Interface, e: Event)
    requires Invariant(n) && Legal(n, e)
    ensures Invariant(Step(n, e))
  {
    StepKeepsTiming(n, e);
    StepKeepsSpacing(n, e);
    forall h
      ensures RequestRecorded(Step(n, e), h)
    {
      StepKeepsRecord(n, e, h);
    }
    forall h
      ensures ConservedFor(Step(n, e), h)
    {
      assert ConservedFor(n, h);
      StepConserves(n, e, h);
    }
  }

  lemma {:induction false} RunKeepsInvariant(n: Interface, events: seq<Event>)
    requires Invariant(n) && Runs(n, events)
    ensures Invariant(Run(n, events))
    decreases |events|
  {
    if events != [] {
      StepKeepsInvariant(n, events[0]);
      RunKeepsInvariant(Step(n, events[0]), events[1..]);
    }
  }

  /** Once an ARP message from a hop is accepted, all that was ever submitted for the hop has been emitted. */
  lemma AnswerDrainsQueue(n: Interface, frame: EthernetFrame)
    requires Invariant(n) && n.Receivable(frame)
    requires n.Accepts(frame) && !frame.kind.Ipv4?
    ensures var next := n.RecvFrame(frame);
            var hop := frame.arp.value.senderIp;
            && EmittedFor(next.trace, hop) == SubmittedFor(n.submitted, hop)
            && next.HasLiveEntry(hop)
            && next.cache[hop].mac == frame.arp.value.senderMac
  {
    var hop := frame.arp.value.senderIp;
    StepKeepsInvariant(n, Receive(frame));
    var next := Step(n, Receive(frame));
    assert ConservedFor(next, hop);
    assert hop !in next.waiting;
    assert EmittedFor(next.trace, hop) + [] == EmittedFor(next.trace, hop);
  }

  /** A step only adds to what was emitted, and queues for the link exactly what it adds. */
  lemma StepExtendsTrace(n: Interface, e: Event)
    requires Legal(n, e)
    ensures n.trace <= Step(n, e).trace
    ensures Step(n, e).frames == (if e.Take? then [] else n.frames) + Frames(Step(n, e).trace[|n.trace|..])
  {
    match e
    case Send(datagram, hop) => SendExtendsTrace(n, datagram, hop);
    case Receive(frame) => ReceiveExtendsTrace(n, frame);
    case Tick(elapsedMs) =>
    case Take =>
  }

  lemma SendExtendsTrace(n: Interface, datagram: Datagram, hop: IpAddress)
    ensures n.trace <= n.SendDatagram(datagram, hop).trace
    ensures n.SendDatagram(datagram, hop).frames == n.frames + Frames(n.SendDatagram(datagram, hop).trace[|n.trace|..])
  {
  }

  lemma ReceiveExtendsTrace(n: Interface, frame: EthernetFrame)
    requires n.Receivable(frame)
    ensures n.trace <= n.RecvFrame(frame).trace
    ensures n.RecvFrame(frame).frames == n.frames + Frames(n.RecvFrame(frame).trace[|n.trace|..])
  {
  }

  /** Each IPv4 frame is addressed to the MAC address cached for its hop at the time it is emitted. */
  lemma Ipv4FramesUseCachedMac(n: Interface, e: Event, i: nat)
    requires Legal(n, e)
    requires |n.trace| <= i < |Step(n, e).trace| && Step(n, e).trace[i].frame.kind.Ipv4?
    ensures var next := Step(n, e);
            var hop := next.trace[i].hop;
            && next.HasLiveEntry(hop)
            && next.trace[i].frame.destination == next.cache[hop].mac
            && next.trace[i].frame.source == n.mac
            && next.trace[i].time == n.now
  {
  }

  /** The frames a run hands to the link, in order. */
  function Output(n: Interface, events: seq<Event>): seq<EthernetFrame>
    requires Runs(n, events)
    decreases |events|
  {
    if events == [] then []
    else (if events[0].Take? then n.frames else []) + Output(Step(n, events[0]), events[1..])
  }

  lemma FramesExtend(a: seq<Emission>, b: seq<Emission>)
    requires a <= b
    ensures Frames(b) == Frames(a) + Frames(b[|a|..])
  {
  }

  lemma HandOver(handed: seq<EthernetFrame>, queued: seq<EthernetFrame>, take: bool, added: seq<EthernetFrame>)
    ensures handed + (if take then queued else []) + ((if take then [] else queued) + added) == handed + queued + added
  {
  }

  /** Frames handed over plus frames still queued are exactly the emitted frames, in order. */
  lemma {:induction false} OutputIsTrace(n: Interface, events: seq<Event>, handed: seq<EthernetFrame>)
    requires Runs(n, events)
    requires handed + n.frames == Frames(n.trace)
    ensures handed + Output(n, events) + Run(n, events).frames == Frames(Run(n, events).trace)
    decreases |events|
  {
    if events == [] {
      assert handed + [] == handed;
    } else {
      var next := Step(n, events[0]);
      var more := if events[0].Take? then n.frames else [];
      StepExtendsTrace(n, events[0]);
      FramesExtend(n.trace, next.trace);
      HandOver(handed, n.frames, events[0].Take?, Frames(next.trace[|n.trace|..]));
      OutputIsTrace(next, events[1..], handed + more);
      Reassociate(handed, more, Output(next, events[1..]));
    }
  }

  /** The submissions an event sequence makes, in order. */
  function Sends(events: seq<Event>): seq<Submission> {
    if events == [] then []
    else (if events[0].Send? then [Submission(events[0].hop, events[0].datagram)] else []) + Sends(events[1..])
  }

  lemma {:induction false} SubmittedIsSends(n: Interface, events: seq<Event>)
    requires Runs(n, events)
    ensures Run(n, events).submitted == n.submitted + Sends(events)
    decreases |events|
  {
    if events == [] {
      assert n.submitted + [] == n.submitted;
    } else {
      var next := Step(n, events[0]);
      SubmittedIsSends(next, events[1..]);
      var first := if events[0].Send? then [Submission(events[0].hop, events[0].datagram)] else [];
      assert next.submitted == n.submitted + first;
      assert n.submitted + (first + Sends(events[1..])) == n.submitted + first + Sends(events[1..]);
    }
  }

  /**
   * Over every run of a fresh interface: for each hop, what was submitted is what was emitted followed
   * by what still waits; the frames handed to the link and those still queued are all that was emitted;
   * and two requests for one hop are never less than five seconds apart.
   */
  lemma EveryRunConserves(ip: IpAddress, mac: MacAddress, events: seq<Event>)
    requires Runs(NewInterface(ip, mac), events)
    ensures var last := Run(NewInterface(ip, mac), events);
            && Invariant(last)
            && (forall h :: SubmittedFor(Sends(events), h) == EmittedFor(last.trace, h) + last.WaitingFor(h))
            && Output(NewInterface(ip, mac), events) + last.frames == Frames(last.trace)
  {
    var idle := NewInterface(ip, mac);
    var last := Run(idle, events);
    assert forall h :: ConservedFor(idle, h);
    RunKeepsInvariant(idle, events);
    SubmittedIsSends(idle, events);
    assert [] + Sends(events) == Sends(events);
    forall h
      ensures SubmittedFor(Sends(events), h) == EmittedFor(last.trace, h) + last.WaitingFor(h)
    {
      assert ConservedFor(last, h);
    }
    OutputIsTrace(idle, events, []);
    assert [] + Output(idle, events) == Output(idle, events);
  }
}
