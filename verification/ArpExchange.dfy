/** What ARP interfaces on one link do for each other: what frames say, who takes them, what a reply sets free. */
module ArpExchange {
  import opened Words
  import opened TinyArp
  import opened ArpTheorems

  // Frames, written out

  /** A request goes to everyone and asks who has the hop, to be told to this interface's own addresses. */
  function Question(ip: IpAddress, mac: MacAddress, hop: IpAddress): EthernetFrame {
    EthernetFrame("FF:FF:FF:FF:FF:FF", mac, ArpRequest, None, Some(ArpMessage(ip, mac, hop)), true)
  }

  /** A reply goes to the asker alone and says where the answering interface is. */
  function Answer(ip: IpAddress, mac: MacAddress, askerIp: IpAddress, askerMac: MacAddress): EthernetFrame {
    EthernetFrame(askerMac, mac, ArpReply, None, Some(ArpMessage(ip, mac, askerIp)), true)
  }

  lemma RequestsAreWrittenOut(n: Interface, e: Event, i: nat)
    requires Legal(n, e)
    requires |n.trace| <= i < |Step(n, e).trace| && Step(n, e).trace[i].frame.kind.ArpRequest?
    ensures Step(n, e).trace[i].frame == Question(n.ip, n.mac, Step(n, e).trace[i].hop)
    ensures Step(n, e).trace[i].time == n.now
    ensures e == Send(e.datagram, Step(n, e).trace[i].hop)
    ensures Step(n, e).frames == n.frames + [Step(n, e).trace[i].frame]
  {
  }

  predicate AddressedTo(frame: EthernetFrame, mac: MacAddress) {
    frame.destination == mac || frame.destination == "FF:FF:FF:FF:FF:FF"
  }

  /** A datagram comes out of exactly the intact IPv4 frames for this interface or for everyone. */
  lemma DeliveredIff(n: Interface, frame: EthernetFrame, d: Datagram)
    ensures n.Delivered(frame) == Some(d)
       <==> AddressedTo(frame, n.mac) && frame.fcsOk && frame.kind.Ipv4? && frame.datagram == Some(d)
  {
  }

  /** Frames for others, damaged frames and IPv4 frames leave the interface as it is. */
  lemma OtherFramesChangeNothing(n: Interface, frame: EthernetFrame)
    requires !AddressedTo(frame, n.mac) || !frame.fcsOk || frame.kind.Ipv4?
    ensures n.Receivable(frame) && n.RecvFrame(frame) == n
  {
  }

  /** Every other frame teaches its sender's mapping for 30 seconds, and sends what waited for the sender. */
  lemma ArpFrameTeaches(n: Interface, frame: EthernetFrame, m: ArpMessage)
    requires AddressedTo(frame, n.mac) && frame.fcsOk && !frame.kind.Ipv4? && frame.arp == Some(m)
    ensures n.Receivable(frame)
    ensures n.RecvFrame(frame).cache == n.cache[m.senderIp := CacheEntry(m.senderMac, n.now + 30_000)]
    ensures n.RecvFrame(frame).waiting == n.waiting - {m.senderIp} && n.RecvFrame(frame).lastRequest == n.lastRequest
    ensures n.RecvFrame(frame).frames
         == n.frames + Carriers(n.WaitingFor(m.senderIp), n.mac, m.senderMac)
          + if frame.kind.ArpRequest? && m.targetIp == n.ip then [Answer(n.ip, n.mac, m.senderIp, m.senderMac)] else []
  {
    var next := n.RecvFrame(frame);
    assert n.waiting - {m.senderIp} == next.waiting;
    if m.senderIp in n.waiting {
      var sent := n.Learn(m.senderIp, m.senderMac).Flush(m.senderIp);
      assert sent.frames == n.frames + Carriers(n.waiting[m.senderIp], n.mac, m.senderMac);
    }
  }

  /** One IPv4 frame for each datagram, in order. */
  function Carriers(datagrams: seq<Datagram>, source: MacAddress, destination: MacAddress): seq<EthernetFrame> {
    seq(|datagrams|, i requires 0 <= i < |datagrams| =>
      EthernetFrame(destination, source, Ipv4, Some(datagrams[i]), None, true))
  }

  // From one interface to the next

  /**
   * Each IPv4 frame a step emits carries a datagram, and an interface takes that datagram out of it exactly
   * if its MAC address is the one cached for the hop (or what is cached is the broadcast address).
   */
  lemma Ipv4FrameIsDelivered(n: Interface, e: Event, i: nat, peer: Interface)
    requires Legal(n, e)
    requires |n.trace| <= i < |Step(n, e).trace| && Step(n, e).trace[i].frame.kind.Ipv4?
    ensures var sent := Step(n, e).trace[i];
            && sent.frame.datagram.Some? && sent.hop in Step(n, e).cache
            && var mac := Step(n, e).cache[sent.hop].mac;
               peer.Delivered(sent.frame)
               == if peer.mac == mac || mac == "FF:FF:FF:FF:FF:FF" then sent.frame.datagram else None
  {
    var sent := Step(n, e).trace[i];
    Ipv4FramesUseCachedMac(n, e, i);
    DeliveredIff(peer, sent.frame, sent.frame.datagram.value);
  }

  /** A datagram for a cached hop goes out at once, and the interface behind the cached address takes it. */
  lemma CachedHopIsReached(a: Interface, d: Datagram, b: Interface)
    requires b.ip in a.cache && a.cache[b.ip].mac == b.mac && a.cache[b.ip].expiresAt > a.now
    ensures var frame := EthernetFrame(b.mac, a.mac, Ipv4, Some(d), None, true);
            && a.SendDatagram(d, b.ip).frames == a.frames + [frame]
            && a.SendDatagram(d, b.ip).waiting == a.waiting
            && b.Delivered(frame) == Some(d)
  {
  }

  /** The interface that has the address asked for learns where the asker is, and its last frame is the answer. */
  lemma QuestionIsAnswered(ip: IpAddress, mac: MacAddress, b: Interface)
    ensures b.Receivable(Question(ip, mac, b.ip))
    ensures var b' := b.RecvFrame(Question(ip, mac, b.ip));
            && b'.cache == b.cache[ip := CacheEntry(mac, b.now + 30_000)]
            && b'.frames == b.frames + Carriers(b.WaitingFor(ip), b.mac, mac) + [Answer(b.ip, b.mac, ip, mac)]
            && b'.ip == b.ip && b'.mac == b.mac
  {
    ArpFrameTeaches(b, Question(ip, mac, b.ip), ArpMessage(ip, mac, b.ip));
  }

  /** A new interface knows nobody: the first datagram for any hop waits, and its request goes out at once. */
  lemma NewInterfaceAsks(ip: IpAddress, mac: MacAddress, d: Datagram, h: IpAddress)
    ensures NewInterface(ip, mac).SendDatagram(d, h).frames == [Question(ip, mac, h)]
    ensures NewInterface(ip, mac).SendDatagram(d, h).waiting == map[h := [d]]
  {
    assert [] + [d] == [d];
  }

  /** No other interface answers. */
  lemma OnlyTheTargetAnswers(ip: IpAddress, mac: MacAddress, hop: IpAddress, b: Interface)
    requires b.ip != hop
    ensures b.Receivable(Question(ip, mac, hop))
    ensures var b' := b.RecvFrame(Question(ip, mac, hop));
            b'.frames == b.frames + Carriers(b.WaitingFor(ip), b.mac, mac)
  {
    ArpFrameTeaches(b, Question(ip, mac, hop), ArpMessage(ip, mac, hop));
    assert b.frames + Carriers(b.WaitingFor(ip), b.mac, mac) + [] == b.frames + Carriers(b.WaitingFor(ip), b.mac, mac);
  }

  lemma AnswerSetsQueueFree(a: Interface, b: Interface)
    requires Invariant(a)
    ensures a.Receivable(Answer(b.ip, b.mac, a.ip, a.mac))
    ensures var a' := a.RecvFrame(Answer(b.ip, b.mac, a.ip, a.mac));
            && a'.cache == a.cache[b.ip := CacheEntry(b.mac, a.now + 30_000)]
            && b.ip !in a'.waiting
            && a'.frames == a.frames + Carriers(a.WaitingFor(b.ip), a.mac, b.mac)
            && EmittedFor(a'.trace, b.ip) == SubmittedFor(a.submitted, b.ip)
  {
    var answer := Answer(b.ip, b.mac, a.ip, a.mac);
    ArpFrameTeaches(a, answer, ArpMessage(b.ip, b.mac, a.ip));
    AnswerDrainsQueue(a, answer);
    var sent := a.frames + Carriers(a.WaitingFor(b.ip), a.mac, b.mac);
    assert sent + [] == sent;
  }

  // Over runs

  lemma {:induction false} RunKeepsAddresses(n: Interface, events: seq<Event>)
    requires Runs(n, events)
    ensures Run(n, events).ip == n.ip && Run(n, events).mac == n.mac
    decreases |events|
  {
    if events != [] {
      RunKeepsAddresses(Step(n, events[0]), events[1..]);
    }
  }

  lemma FirstRequestGoesOut(a: Interface, d: Datagram, hop: IpAddress)
    requires hop !in a.cache && a.MayRequest(hop)
    ensures a.SendDatagram(d, hop).frames == a.frames + [Question(a.ip, a.mac, hop)]
    ensures a.SendDatagram(d, hop).ip == a.ip && a.SendDatagram(d, hop).mac == a.mac
    ensures Invariant(a) ==> Invariant(a.SendDatagram(d, hop))
  {
    if Invariant(a) {
      StepKeepsInvariant(a, Send(d, hop));
    }
  }

  /**
   * b's answer is accepted by a and resolves b's address: everything ever submitted to a for b has been emitted,
   * and b takes each datagram that had to wait out of the frame that now carries it, in order.
   */
  ghost predicate AnswerResolves(a: Interface, b: Interface) {
    && a.Receivable(Answer(b.ip, b.mac, a.ip, a.mac))
    && var a' := a.RecvFrame(Answer(b.ip, b.mac, a.ip, a.mac));
       var waiting := a.WaitingFor(b.ip);
       && a'.cache == a.cache[b.ip := CacheEntry(b.mac, a.now + 30_000)]
       && b.ip !in a'.waiting && EmittedFor(a'.trace, b.ip) == SubmittedFor(a.submitted, b.ip)
       && |a'.frames| == |a.frames| + |waiting| && a.frames <= a'.frames
       && forall k :: 0 <= k < |waiting| ==> b.Delivered(a'.frames[|a.frames| + k]) == Some(waiting[k])
  }

  lemma AnswerAlwaysResolves(a: Interface, b: Interface)
    requires Invariant(a)
    ensures AnswerResolves(a, b)
  {
    AnswerSetsQueueFree(a, b);
  }

  /**
   * Address resolution from end to end. A datagram for b makes interface a ask for b's address, and a goes on in
   * any way to a2; b, whatever state it is in, answers, and goes on in any way to b2; and when that answer
   * reaches a2, it resolves b's address.
   */
  lemma ResolutionDeliversQueue(a: Interface, d: Datagram, meanwhile: seq<Event>, a2: Interface,
                                b: Interface, later: seq<Event>, b2: Interface)
    requires Invariant(a) && b.ip !in a.cache && a.MayRequest(b.ip)
    requires Runs(a.SendDatagram(d, b.ip), meanwhile) && a2 == Run(a.SendDatagram(d, b.ip), meanwhile)
    requires Runs(b.RecvFrame(Question(a.ip, a.mac, b.ip)), later)
    requires b2 == Run(b.RecvFrame(Question(a.ip, a.mac, b.ip)), later)
    ensures a.SendDatagram(d, b.ip).frames == a.frames + [Question(a.ip, a.mac, b.ip)]
    ensures var b1 := b.RecvFrame(Question(a.ip, a.mac, b.ip));
            && b1.frames != [] && b1.frames[|b1.frames| - 1] == Answer(b2.ip, b2.mac, a2.ip, a2.mac)
            && b1.cache == b.cache[a.ip := CacheEntry(a.mac, b.now + 30_000)]
    ensures b2.ip == b.ip && AnswerResolves(a2, b2)
  {
    FirstRequestGoesOut(a, d, b.ip);
    QuestionIsAnswered(a.ip, a.mac, b);
    RunKeepsAddresses(b.RecvFrame(Question(a.ip, a.mac, b.ip)), later);
    RunKeepsAddresses(a.SendDatagram(d, b.ip), meanwhile);
    RunKeepsInvariant(a.SendDatagram(d, b.ip), meanwhile);
    AnswerAlwaysResolves(a2, b2);
  }

  // What the cache holds

  predicate Teaches(mac: MacAddress, frame: EthernetFrame, h: IpAddress) {
    AddressedTo(frame, mac) && frame.fcsOk && !frame.kind.Ipv4? && frame.arp.Some? && frame.arp.value.senderIp == h
  }

  function Duration(e: Event): nat {
    if e.Tick? then e.elapsedMs else 0
  }

  function Elapsed(events: seq<Event>): nat {
    if events == [] then 0 else Duration(events[0]) + Elapsed(events[1..])
  }

  /** The mapping last heard from h, and when it expires, after one more event. */
  function HeardAfter(mac: MacAddress, e: Event, h: IpAddress, now: nat, heard: Option<CacheEntry>):
    Option<CacheEntry>
  {
    if e.Receive? && Teaches(mac, e.frame, h) then Some(CacheEntry(e.frame.arp.value.senderMac, now + 30_000))
    else heard
  }

  function LastHeard(mac: MacAddress, events: seq<Event>, h: IpAddress, now: nat, heard: Option<CacheEntry>):
    Option<CacheEntry>
    decreases |events|
  {
    if events == [] then heard
    else LastHeard(mac, events[1..], h, now + Duration(events[0]), HeardAfter(mac, events[0], h, now, heard))
  }

  /** The cache entry for h is the mapping last heard from h, until that expires. */
  predicate Remembers(n: Interface, h: IpAddress, heard: Option<CacheEntry>) {
    && (h in n.cache <==> heard.Some? && n.now < heard.value.expiresAt)
    && (h in n.cache ==> n.cache[h] == heard.value)
  }

  lemma StepRemembers(n: Interface, e: Event, h: IpAddress, heard: Option<CacheEntry>)
    requires Legal(n, e) && Remembers(n, h, heard)
    ensures Remembers(Step(n, e), h, HeardAfter(n.mac, e, h, n.now, heard))
    ensures Step(n, e).now == n.now + Duration(e)
  {
    if e.Receive? && AddressedTo(e.frame, n.mac) && e.frame.fcsOk && !e.frame.kind.Ipv4? {
      ArpFrameTeaches(n, e.frame, e.frame.arp.value);
    }
  }

  lemma {:induction false} RunRemembers(n: Interface, events: seq<Event>, h: IpAddress, heard: Option<CacheEntry>)
    requires Runs(n, events) && Remembers(n, h, heard)
    ensures Remembers(Run(n, events), h, LastHeard(n.mac, events, h, n.now, heard))
    ensures Run(n, events).now == n.now + Elapsed(events)
    decreases |events|
  {
    if events != [] {
      StepRemembers(n, events[0], h, heard);
      RunRemembers(Step(n, events[0]), events[1..], h, HeardAfter(n.mac, events[0], h, n.now, heard));
    }
  }

  /**
   * Over every run of a new interface: a hop is cached exactly while less than 30 seconds have passed since the
   * last accepted ARP message from it, with the MAC address that message gave.
   */
  lemma CacheIsLastHeard(ip: IpAddress, mac: MacAddress, events: seq<Event>, h: IpAddress)
    requires Runs(NewInterface(ip, mac), events)
    ensures var last := Run(NewInterface(ip, mac), events);
            var heard := LastHeard(mac, events, h, 0, None);
            && (h in last.cache <==> heard.Some? && Elapsed(events) < heard.value.expiresAt)
            && (h in last.cache ==> last.cache[h] == heard.value)
  {
    RunRemembers(NewInterface(ip, mac), events, h, None);
  }
}
