/** The ARP interface: datagrams wait while a request is out (RFC 826; RFC 1122, sections 2.3.2.1 and 2.3.2.2). */
module TinyArp {
  import opened Words

  type IpAddress = string
  type MacAddress = string

  const BROADCAST_MAC: MacAddress := "FF:FF:FF:FF:FF:FF"
  const CACHE_LIFETIME_MS: nat := 30_000
  const REQUEST_SUPPRESSION_MS: nat := 5_000

  datatype Datagram = Datagram(id: string, finalDestination: IpAddress)

  datatype FrameType = Ipv4 | ArpRequest | ArpReply

  datatype ArpMessage = ArpMessage(senderIp: IpAddress, senderMac: MacAddress, targetIp: IpAddress)

  datatype EthernetFrame = EthernetFrame(
    destination: MacAddress,
    source: MacAddress,
    kind: FrameType,
    datagram: Option<Datagram>,
    arp: Option<ArpMessage>,
    fcsOk: bool)

  datatype CacheEntry = CacheEntry(mac: MacAddress, expiresAt: nat)

  /** A frame together with the neighbour it was made for and the time it was made. */
  datatype Emission = Emission(frame: EthernetFrame, hop: IpAddress, time: nat)

  datatype Submission = Submission(hop: IpAddress, datagram: Datagram)

  /** The fields of the interface, with two histories: everything submitted and everything emitted. */
  datatype Interface = Interface(
    ip: IpAddress,
    mac: MacAddress,
    now: nat,
    cache: map<IpAddress, CacheEntry>,
    waiting: map<IpAddress, seq<Datagram>>,
    lastRequest: map<IpAddress, nat>,
    frames: seq<EthernetFrame>,
    submitted: seq<Submission>,
    trace: seq<Emission>)
  {
    function Ipv4Frame(datagram: Datagram, destination: MacAddress): EthernetFrame {
      EthernetFrame(destination, mac, Ipv4, Some(datagram), None, true)
    }

    function RequestFrame(target: IpAddress): EthernetFrame {
      EthernetFrame(BROADCAST_MAC, mac, ArpRequest, None, Some(ArpMessage(ip, mac, target)), true)
    }

    function ReplyFrame(message: ArpMessage): EthernetFrame {
      EthernetFrame(message.senderMac, mac, ArpReply, None, Some(ArpMessage(ip, mac, message.senderIp)), true)
    }

    function Emit(frame: EthernetFrame, hop: IpAddress): Interface {
      this.(frames := frames + [frame], trace := trace + [Emission(frame, hop, now)])
    }

    function EmitAll(datagrams: seq<Datagram>, destination: MacAddress, hop: IpAddress): Interface {
      this.(frames := frames + seq(|datagrams|, i requires 0 <= i < |datagrams| =>
                                     Ipv4Frame(datagrams[i], destination)),
            trace := trace + seq(|datagrams|, i requires 0 <= i < |datagrams| =>
                                   Emission(Ipv4Frame(datagrams[i], destination), hop, now)))
    }

    predicate HasLiveEntry(hop: IpAddress) {
      hop in cache && cache[hop].expiresAt > now
    }

    function WaitingFor(hop: IpAddress): seq<Datagram> {
      if hop in waiting then waiting[hop] else []
    }

    predicate MayRequest(hop: IpAddress) {
      hop !in lastRequest || now - lastRequest[hop] >= REQUEST_SUPPRESSION_MS
    }

    function Submit(datagram: Datagram, hop: IpAddress): Interface {
      this.(submitted := submitted + [Submission(hop, datagram)])
    }

    function SendDatagram(datagram: Datagram, hop: IpAddress): Interface {
      var n := Submit(datagram, hop);
      if HasLiveEntry(hop) then n.Emit(Ipv4Frame(datagram, cache[hop].mac), hop)
      else
        var queued := n.(waiting := waiting[hop := WaitingFor(hop) + [datagram]]);
        if MayRequest(hop) then queued.Emit(RequestFrame(hop), hop).(lastRequest := lastRequest[hop := now])
        else queued
    }

    function Learn(hop: IpAddress, learned: MacAddress): Interface {
      this.(cache := cache[hop := CacheEntry(learned, now + CACHE_LIFETIME_MS)])
    }

    /** Send everything that waits for a cached hop, in order, and forget its queue. */
    function Flush(hop: IpAddress): Interface {
      if hop !in waiting || hop !in cache then this
      else EmitAll(waiting[hop], cache[hop].mac, hop).(waiting := waiting - {hop})
    }

    predicate Accepts(frame: EthernetFrame) {
      (frame.destination == mac || frame.destination == BROADCAST_MAC) && frame.fcsOk
    }

    /** An accepted ARP frame must carry its ARP message; the source dereferences it unchecked. */
    predicate Receivable(frame: EthernetFrame) {
      Accepts(frame) && !frame.kind.Ipv4? ==> frame.arp.Some?
    }

    function RecvFrame(frame: EthernetFrame): Interface
      requires Receivable(frame)
    {
      if !Accepts(frame) || frame.kind.Ipv4? then this
      else
        var message := frame.arp.value;
        var flushed := Learn(message.senderIp, message.senderMac).Flush(message.senderIp);
        if message.targetIp == ip && frame.kind.ArpRequest? then flushed.Emit(ReplyFrame(message), message.senderIp)
        else flushed
    }

    function Delivered(frame: EthernetFrame): Option<Datagram> {
      if Accepts(frame) && frame.kind.Ipv4? then frame.datagram else None
    }

    function Tick(elapsedMs: nat): Interface {
      var later := now + elapsedMs;
      this.(now := later, cache := map h | h in cache && cache[h].expiresAt > later :: cache[h])
    }

    function TakeFrames(): Interface {
      this.(frames := [])
    }
  }

  function NewInterface(ip: IpAddress, mac: MacAddress): Interface {
    Interface(ip, mac, 0, map[], map[], map[], [], [], [])
  }

  class NetworkInterface {
    const ip: IpAddress
    const mac: MacAddress
    var now: nat
    var cache: map<IpAddress, CacheEntry>
    var waiting: map<IpAddress, seq<Datagram>>
    var lastRequest: map<IpAddress, nat>
    var framesToSend: seq<EthernetFrame>
    ghost var submitted: seq<Submission>
    ghost var trace: seq<Emission>

    ghost function View(): Interface
      reads this
    {
      Interface(ip, mac, now, cache, waiting, lastRequest, framesToSend, submitted, trace)
    }

    constructor (ip: IpAddress, mac: MacAddress)
      ensures View() == NewInterface(ip, mac)
    {
      this.ip, this.mac, now := ip, mac, 0;
      cache, waiting, lastRequest := map[], map[], map[];
      framesToSend, submitted, trace := [], [], [];
    }

    predicate CacheHasLiveEntry(hop: IpAddress)
      reads this
    {
      hop in cache && cache[hop].expiresAt > now
    }

    method SendIpv4Frame(datagram: Datagram, destination: MacAddress, ghost hop: IpAddress)
      modifies this`framesToSend, this`trace
      ensures View() == old(View()).Emit(old(View()).Ipv4Frame(datagram, destination), hop)
    {
      var frame := EthernetFrame(destination, mac, Ipv4, Some(datagram), None, true);
      framesToSend := framesToSend + [frame];
      trace := trace + [Emission(frame, hop, now)];
    }

    method SendArpRequest(target: IpAddress)
      modifies this`framesToSend, this`trace
      ensures View() == old(View()).Emit(old(View()).RequestFrame(target), target)
    {
      var frame := EthernetFrame(BROADCAST_MAC, mac, ArpRequest, None, Some(ArpMessage(ip, mac, target)), true);
      framesToSend := framesToSend + [frame];
      trace := trace + [Emission(frame, target, now)];
    }

    method LearnArpMapping(hop: IpAddress, learned: MacAddress)
      modifies this`cache
      ensures View() == old(View()).Learn(hop, learned)
    {
      cache := cache[hop := CacheEntry(learned, now + CACHE_LIFETIME_MS)];
    }

    method FlushWaitingDatagrams(hop: IpAddress)
      modifies this`waiting, this`framesToSend, this`trace
      ensures View() == old(View()).Flush(hop)
    {
      if hop !in waiting || hop !in cache {
        return;
      }
      ghost var before := View();
      ghost var all := waiting[hop];
      ghost var sent := 0;
      while waiting[hop] != []
        invariant 0 <= sent <= |all|
        invariant hop in waiting && waiting == before.waiting[hop := all[sent..]]
        invariant View().(waiting := before.waiting) == before.EmitAll(all[..sent], cache[hop].mac, hop)
        decreases |all| - sent
      {
        var datagram := waiting[hop][0];
        waiting := waiting[hop := waiting[hop][1..]];
        SendIpv4Frame(datagram, cache[hop].mac, hop);
        EmitAllGrows(before, all, sent, cache[hop].mac, hop);
        sent := sent + 1;
      }
      assert all[..sent] == all;
      waiting := waiting - {hop};
      assert waiting == before.waiting - {hop};
    }

    method SendDatagram(datagram: Datagram, hop: IpAddress)
      modifies this
      ensures View() == old(View()).SendDatagram(datagram, hop)
    {
      submitted := submitted + [Submission(hop, datagram)];
      if CacheHasLiveEntry(hop) {
        SendIpv4Frame(datagram, cache[hop].mac, hop);
      } else {
        waiting := waiting[hop := (if hop in waiting then waiting[hop] else []) + [datagram]];
        if hop !in lastRequest || now - lastRequest[hop] >= REQUEST_SUPPRESSION_MS {
          SendArpRequest(hop);
          lastRequest := lastRequest[hop := now];
        }
      }
    }

    method RecvFrame(frame: EthernetFrame) returns (delivered: Option<Datagram>)
      requires View().Receivable(frame)
      modifies this
      ensures View() == old(View()).RecvFrame(frame)
      ensures delivered == old(View()).Delivered(frame)
    {
      if frame.destination != mac && frame.destination != BROADCAST_MAC {
        return None;
      }
      if !frame.fcsOk {
        return None;
      }
      if frame.kind.Ipv4? && frame.datagram.Some? {
        return frame.datagram;
      } else if frame.kind.ArpRequest? || frame.kind.ArpReply? {
        var message := frame.arp.value;
        LearnArpMapping(message.senderIp, message.senderMac);
        FlushWaitingDatagrams(message.senderIp);
        if message.targetIp == ip && frame.kind.ArpRequest? {
          var answer := ArpMessage(ip, mac, message.senderIp);
          var reply := EthernetFrame(message.senderMac, mac, ArpReply, None, Some(answer), true);
          framesToSend := framesToSend + [reply];
          trace := trace + [Emission(reply, message.senderIp, now)];
        }
      }
      return None;
    }

    method Tick(elapsedMs: nat)
      modifies this
      ensures View() == old(View()).Tick(elapsedMs)
    {
      now := now + elapsedMs;
      var unvisited := cache.Keys;
      while unvisited != {}
        invariant unvisited <= old(cache.Keys)
        invariant cache == map h | h in old(cache) && (h in unvisited || old(cache)[h].expiresAt > now) :: old(cache)[h]
        decreases unvisited
        modifies this`cache
      {
        var hop :| hop in unvisited;
        unvisited := unvisited - {hop};
        if cache[hop].expiresAt <= now {
          cache := cache - {hop};
        }
      }
    }

    method TakeFramesToSend() returns (result: seq<EthernetFrame>)
      modifies this
      ensures View() == old(View()).TakeFrames()
      ensures result == old(framesToSend) && framesToSend == []
    {
      result := [];
      while framesToSend != []
        invariant result + framesToSend == old(framesToSend)
        decreases |framesToSend|
        modifies this`framesToSend
      {
        result := result + [framesToSend[0]];
        framesToSend := framesToSend[1..];
      }
    }

    /** The cached address, exactly while the entry is usable. */
    function CachedMac(hop: IpAddress): (found: Option<MacAddress>)
      reads this
      ensures found.Some? <==> View().HasLiveEntry(hop)
      ensures found.Some? ==> found.value == View().cache[hop].mac
    {
      if hop !in cache || cache[hop].expiresAt <= now then None else Some(cache[hop].mac)
    }
  }

  lemma EmitAllGrows(n: Interface, all: seq<Datagram>, sent: nat, destination: MacAddress, hop: IpAddress)
    requires sent < |all|
    ensures n.EmitAll(all[..sent + 1], destination, hop)
         == n.EmitAll(all[..sent], destination, hop).Emit(n.Ipv4Frame(all[sent], destination), hop)
  {
  }
}
