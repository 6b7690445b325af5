/**
 * The sender: fills the advertised window with segments cut from its byte stream, keeps a copy of
 * every segment not yet acknowledged in full, and retransmits the oldest one on a timer
 * (RFC 9293, section 3.8; RFC 6298, section 5).
 */
module TcpSender {
  import opened Words
  import opened WrappingIntegers
  import opened TinyStream
  import opened TcpReceiver

  /** The number of sequence positions a segment occupies. */
  function SequenceLength(segment: TcpSegment): nat {
    |segment.payload| + Flag(segment.syn) + Flag(segment.fin)
  }

  datatype OutstandingSegment = OutstandingSegment(segment: TcpSegment, start: nat, length: nat) {
    function End(): nat { start + length }
  }

  datatype ReceiverMessage = ReceiverMessage(ackno: Option<uint32>, window: uint16)

  /**
   * The fields of the sender, with log added: every segment at its first transmission, in order.
   */
  datatype SenderState = SenderState(
    stream: Stream,
    isn: uint32,
    initialRto: uint64,
    currentRto: uint64,
    mss: uint64,
    next: nat,
    acknowledged: nat,
    window: uint16,
    elapsed: uint64,
    retransmissions: nat,
    synSent: bool,
    finSent: bool,
    timerRunning: bool,
    outstanding: seq<OutstandingSegment>,
    queue: seq<TcpSegment>,
    log: seq<OutstandingSegment>)
  {
    /** A zero window still admits one position, to probe it. */
    function EffectiveWindow(): nat {
      if window == 0 then 1 else window
    }

    function WindowRight(): nat {
      acknowledged + EffectiveWindow()
    }

    /** The segment one round of push would send next: SYN, then payload, then FIN, as far as they fit. */
    function NextSegment(): TcpSegment
      requires stream.Valid() && next < WindowRight()
    {
      var room := WindowRight() - next - Flag(!synSent);
      var size := Min(mss, Min(room, stream.Buffered()));
      TcpSegment(Wrap(next, isn), !synSent,
                 stream.closed && size < room && size == stream.Buffered() && !finSent,
                 stream.Unread()[..size])
    }

    /** Take the segment's bytes out of the stream and note its flags as sent. */
    function Cut(segment: TcpSegment): (s: SenderState)
      requires stream.Valid()
      ensures s.stream.Valid()
    {
      this.(stream := stream.Pop(|segment.payload|),
            synSent := synSent || segment.syn,
            finSent := finSent || segment.fin)
    }

    /** Give the segment its place in the sequence space, keep a copy, and start an idle timer. */
    function Enqueue(segment: TcpSegment): SenderState {
      var copy := OutstandingSegment(segment, next, SequenceLength(segment));
      this.(next := next + SequenceLength(segment),
            outstanding := outstanding + [copy],
            queue := queue + [segment],
            log := log + [copy],
            timerRunning := timerRunning || outstanding == [],
            elapsed := if outstanding == [] then 0 else elapsed)
    }

    function Send(segment: TcpSegment): (s: SenderState)
      requires stream.Valid()
      ensures s.stream.Valid()
    {
      Cut(segment).Enqueue(segment)
    }

    function Push(): (s: SenderState)
      requires stream.Valid()
      ensures s.stream.Valid()
      decreases WindowRight() - next
    {
      if next >= WindowRight() || SequenceLength(NextSegment()) == 0 then this
      else Send(NextSegment()).Push()
    }

    function Advance(absoluteAck: nat): (s: SenderState) {
      var remaining := DropCovered(outstanding, absoluteAck);
      this.(acknowledged := absoluteAck,
            outstanding := remaining,
            currentRto := initialRto,
            retransmissions := 0,
            elapsed := 0,
            timerRunning := remaining != [])
    }

    function Receive(message: ReceiverMessage): (s: SenderState)
      requires stream.Valid()
      ensures s.stream.Valid()
    {
      if message.ackno.None? then this
      else
        var absoluteAck := Unwrap(message.ackno.value, isn, next);
        if absoluteAck > next then this
        else
          var updated := this.(window := message.window);
          (if absoluteAck > acknowledged then updated.Advance(absoluteAck) else updated).Push()
    }

    function Tick(elapsedMs: uint64): SenderState {
      if outstanding == [] || !timerRunning then this
      else
        var total := (elapsed + elapsedMs) % MOD64;
        if total < currentRto then this.(elapsed := total)
        else
          var resent := this.(queue := queue + [outstanding[0].segment], elapsed := 0);
          if window == 0 then resent
          else resent.(retransmissions := retransmissions + 1, currentRto := (currentRto * 2) % MOD64)
    }

    function TakeSegments(): SenderState {
      this.(queue := [])
    }
  }

  /** The outstanding segments left once those that end at or before absoluteAck leave the front. */
  function DropCovered(outstanding: seq<OutstandingSegment>, absoluteAck: nat): seq<OutstandingSegment> {
    if outstanding == [] || outstanding[0].End() > absoluteAck then outstanding
    else DropCovered(outstanding[1..], absoluteAck)
  }

  function NewSender(capacity: uint64, isn: uint32, initialRto: uint64, mss: uint64): (s: SenderState)
    ensures s.stream.Valid()
  {
    SenderState(EmptyStream(capacity), isn, initialRto, initialRto, mss, 0, 0, 1, 0, 0, false, false, false, [], [], [])
  }

  lemma PushUnfolds(s: SenderState)
    requires s.stream.Valid() && s.next < s.WindowRight()
    ensures SequenceLength(s.NextSegment()) == 0 ==> s.Push() == s && s.Cut(s.NextSegment()) == s
    ensures SequenceLength(s.NextSegment()) > 0 ==> s.Push() == s.Cut(s.NextSegment()).Enqueue(s.NextSegment()).Push()
  {
  }

  class Sender {
    const stream: ByteStream
    const isn: uint32
    const initialRto: uint64
    const mss: uint64
    var currentRto: uint64
    var nextSeqno: nat
    var acknowledged: nat
    var advertisedWindow: uint16
    var timerElapsed: uint64
    var consecutiveRetransmissions: nat
    var synSent: bool
    var finSent: bool
    var timerRunning: bool
    var outstanding: seq<OutstandingSegment>
    var segmentsToSend: seq<TcpSegment>
    ghost var log: seq<OutstandingSegment>

    ghost predicate Valid()
      reads this, stream
    {
      stream.Valid()
    }

    ghost function View(): (s: SenderState)
      reads this, stream
      requires Valid()
      ensures s.stream.Valid()
    {
      SenderState(stream.View(), isn, initialRto, currentRto, mss, nextSeqno, acknowledged, advertisedWindow,
                  timerElapsed, consecutiveRetransmissions, synSent, finSent, timerRunning,
                  outstanding, segmentsToSend, log)
    }

    constructor (capacity: uint64, isn: uint32, initialRto: uint64, mss: uint64)
      ensures Valid() && View() == NewSender(capacity, isn, initialRto, mss)
    {
      stream := new ByteStream(capacity);
      this.isn, this.initialRto, this.mss, currentRto := isn, initialRto, mss, initialRto;
      nextSeqno, acknowledged, advertisedWindow := 0, 0, 1;
      timerElapsed, consecutiveRetransmissions := 0, 0;
      synSent, finSent, timerRunning := false, false, false;
      outstanding, segmentsToSend, log := [], [], [];
    }

    method Push()
      requires Valid()
      modifies this, stream
      ensures Valid() && View() == old(View()).Push()
    {
      var effectiveWindow := if advertisedWindow == 0 then 1 else advertisedWindow;
      var windowRight := acknowledged + effectiveWindow;
      while windowRight > nextSeqno
        invariant Valid() && View().Push() == old(View()).Push()
        invariant windowRight == View().WindowRight()
        decreases windowRight - nextSeqno
      {
        ghost var before := View();
        var segment := MakeSegment(windowRight);
        PushUnfolds(before);
        if SequenceLength(segment) == 0 {
          return;
        }
        Enqueue(segment);
      }
    }

    /** The head of push's loop: take what fits of SYN, payload and FIN, in that order. */
    method MakeSegment(windowRight: nat) returns (segment: TcpSegment)
      requires Valid() && nextSeqno < windowRight == View().WindowRight()
      modifies this, stream
      ensures segment == old(View()).NextSegment()
      ensures Valid() && View() == old(View()).Cut(segment)
    {
      var available := windowRight - nextSeqno;
      var syn := false;
      if !synSent {
        syn := true;
        synSent := true;
        available := available - 1;
      }
      var payloadSize := Min(mss, Min(available, stream.BytesBuffered()));
      var payload := TakePayload(payloadSize);
      available := available - payloadSize;
      var fin := false;
      if stream.closed && available > 0 && stream.BytesBuffered() == 0 && !finSent {
        fin := true;
        finSent := true;
        available := available - 1;
      }
      segment := TcpSegment(Wrap(nextSeqno, isn), syn, fin, payload);
    }

    method TakePayload(payloadSize: nat) returns (payload: seq<byte>)
      requires stream.Valid() && payloadSize <= stream.View().Buffered()
      modifies stream
      ensures payload == old(stream.View()).Unread()[..payloadSize]
      ensures stream.Valid() && stream.View() == old(stream.View()).Pop(payloadSize)
    {
      payload := [];
      if payloadSize > 0 {
        payload := stream.Peek(payloadSize);
        var popped := stream.Pop(payloadSize);
      }
    }

    /** The tail of push's loop: keep a copy, queue the segment, and start an idle timer. */
    method Enqueue(segment: TcpSegment)
      requires Valid()
      modifies this
      ensures Valid() && View() == old(View()).Enqueue(segment)
    {
      var wasEmpty := outstanding == [];
      var copy := OutstandingSegment(segment, nextSeqno, SequenceLength(segment));
      segmentsToSend := segmentsToSend + [segment];
      outstanding := outstanding + [copy];
      log := log + [copy];
      nextSeqno := nextSeqno + SequenceLength(segment);
      if wasEmpty {
        timerRunning := true;
        timerElapsed := 0;
      }
    }

    method Receive(message: ReceiverMessage)
      requires Valid()
      modifies this, stream
      ensures Valid() && View() == old(View()).Receive(message)
    {
      if message.ackno.None? {
        return;
      }
      var absoluteAck := Unwrap(message.ackno.value, isn, nextSeqno);
      if absoluteAck > nextSeqno {
        return;
      }
      advertisedWindow := message.window;
      if absoluteAck > acknowledged {
        Advance(absoluteAck);
      }
      Push();
    }

    /** The part of receive for an ACK that makes progress: drop what it covers, restart the timer. */
    method Advance(absoluteAck: nat)
      requires Valid()
      modifies this
      ensures Valid() && View() == old(View()).Advance(absoluteAck)
    {
      acknowledged := absoluteAck;
      while outstanding != []
        invariant DropCovered(outstanding, absoluteAck) == DropCovered(old(outstanding), absoluteAck)
        decreases |outstanding|
        modifies this`outstanding
      {
        var segmentEnd := outstanding[0].start + outstanding[0].length;
        if segmentEnd > acknowledged {
          break;
        }
        outstanding := outstanding[1..];
      }
      currentRto := initialRto;
      consecutiveRetransmissions := 0;
      timerElapsed := 0;
      timerRunning := outstanding != [];
    }

    method Tick(elapsedMs: uint64)
      requires Valid()
      modifies this
      ensures Valid() && View() == old(View()).Tick(elapsedMs)
    {
      if outstanding == [] || !timerRunning {
        return;
      }
      timerElapsed := (timerElapsed + elapsedMs) % MOD64;
      if timerElapsed >= currentRto {
        segmentsToSend := segmentsToSend + [outstanding[0].segment];
        timerElapsed := 0;
        if advertisedWindow != 0 {
          consecutiveRetransmissions := consecutiveRetransmissions + 1;
          currentRto := (currentRto * 2) % MOD64;
        }
      }
    }

    method TakeSegmentsToSend() returns (result: seq<TcpSegment>)
      requires Valid()
      modifies this
      ensures Valid() && View() == old(View()).TakeSegments()
      ensures result == old(segmentsToSend) && segmentsToSend == []
    {
      result := [];
      while segmentsToSend != []
        invariant result + segmentsToSend == old(segmentsToSend)
        decreases |segmentsToSend|
        modifies this`segmentsToSend
      {
        result := result + [segmentsToSend[0]];
        segmentsToSend := segmentsToSend[1..];
      }
    }
  }
}
