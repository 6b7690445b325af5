/** The receiver: wire sequence numbers to stream positions, and the ACK and window it reports. */
module TcpReceiver {
  import opened Words
  import opened WrappingIntegers
  import opened TinyStream
  import opened TinyReassembler

  datatype TcpSegment = TcpSegment(seqno: uint32, syn: bool, fin: bool, payload: seq<byte>)

  function Flag(b: bool): nat { if b then 1 else 0 }

  /** The zero point is None until the first SYN arrives. */
  datatype ReceiverState = ReceiverState(assembly: Assembly, isn: Option<uint32>) {
    ghost predicate WellFormed() {
      assembly.WellFormed() && (isn.None? ==> assembly == EmptyAssembly(assembly.output.capacity))
    }

    /** The position after the next one awaited, as the 64-bit sum that can wrap. */
    function Checkpoint(): uint64 {
      (assembly.Next() + 1) % MOD64
    }

    /** The stream position of the segment's first byte, as the 64-bit difference that can wrap. */
    function FirstIndex(segment: TcpSegment, zeroPoint: uint32): uint64 {
      var segmentAbsolute := Unwrap(segment.seqno, zeroPoint, Checkpoint());
      var payloadAbsolute := (segmentAbsolute + Flag(segment.syn)) % MOD64;
      (payloadAbsolute - 1) % MOD64
    }

    function ZeroPoint(segment: TcpSegment): uint32 {
      if isn.Some? then isn.value else segment.seqno
    }

    function Receive(segment: TcpSegment): (r: ReceiverState)
      requires assembly.output.Valid() && |segment.payload| < MOD64
      ensures r.assembly.output.Valid()
    {
      if isn.None? && !segment.syn then this
      else
        ReceiverState(assembly.Insert(FirstIndex(segment, ZeroPoint(segment)), segment.payload, segment.fin),
                      Some(ZeroPoint(segment)))
    }

    function Read(maxLen: nat): (r: ReceiverState)
      requires assembly.output.Valid()
      ensures r.assembly.output.Valid()
    {
      this.(assembly := assembly.Read(maxLen))
    }

    /** Everything received in order so far, counting the SYN and a reached FIN as one position each. */
    function AbsoluteAck(): nat {
      if isn.None? then 0 else 1 + assembly.Next() + Flag(assembly.output.closed)
    }

    function Ackno(): Option<uint32> {
      if isn.None? then None else Some(Wrap(1 + assembly.Next() + Flag(assembly.output.closed), isn.value))
    }

    /** The 64-bit subtraction that would wrap if the shared capacity were ever exceeded. */
    function WindowSize(): uint64
      requires assembly.output.Valid()
    {
      (assembly.output.capacity - |assembly.pending| - assembly.output.Buffered()) % MOD64
    }
  }

  function NewReceiver(capacity: uint64): (r: ReceiverState)
    ensures r.WellFormed()
  {
    ReceiverState(EmptyAssembly(capacity), None)
  }

  class Receiver {
    const capacity: uint64
    const reassembler: Reassembler
    var isn: Option<uint32>

    ghost predicate Valid()
      reads this, reassembler, reassembler.output
    {
      && reassembler.Valid() && View().WellFormed()
      && capacity == reassembler.output.capacity
    }

    ghost function View(): (r: ReceiverState)
      reads this, reassembler, reassembler.output
      requires reassembler.output.Valid()
      ensures r.assembly.output.Valid()
    {
      ReceiverState(reassembler.View(), isn)
    }

    constructor (capacity: uint64)
      ensures Valid() && View() == NewReceiver(capacity)
    {
      this.capacity := capacity;
      reassembler := new Reassembler(capacity);
      isn := None;
    }

    method Receive(segment: TcpSegment)
      requires Valid() && |segment.payload| < MOD64
      modifies this, reassembler, reassembler.output
      ensures Valid() && View() == old(View()).Receive(segment)
    {
      ghost var before := View();
      if isn.None? {
        if !segment.syn {
          return;
        }
        isn := Some(segment.seqno);
      }
      var checkpoint := (reassembler.FirstUnassembled() + 1) % MOD64;
      var segmentAbsolute := Unwrap(segment.seqno, isn.value, checkpoint);
      var payloadAbsolute := (segmentAbsolute + if segment.syn then 1 else 0) % MOD64;
      var firstIndex := (payloadAbsolute - 1) % MOD64;
      assert firstIndex == before.FirstIndex(segment, isn.value);
      ReceiveKeepsWellFormed(before, segment);
      ReceiveInSteps(before, segment);
      reassembler.Insert(firstIndex, segment.payload, segment.fin);
    }

    function Ackno(): (ackno: Option<uint32>)
      reads this, reassembler, reassembler.output
      requires Valid()
      ensures ackno == View().Ackno()
    {
      if isn.None? then None
      else Some(Wrap(1 + reassembler.output.bytesPushed + (if reassembler.output.closed then 1 else 0), isn.value))
    }

    function WindowSize(): (window: uint64)
      reads this, reassembler, reassembler.output
      requires Valid()
      ensures window == View().WindowSize()
    {
      (capacity - reassembler.BytesPending() - reassembler.output.BytesBuffered()) % MOD64
    }
  }

  lemma ReceiveKeepsWellFormed(r: ReceiverState, segment: TcpSegment)
    requires r.WellFormed() && |segment.payload| < MOD64
    ensures r.Receive(segment).WellFormed()
  {
    if r.isn.Some? || segment.syn {
      InsertKeepsWellFormed(r.assembly, r.FirstIndex(segment, r.ZeroPoint(segment)), segment.payload, segment.fin);
    }
  }

  /**
   * The advertised window never wraps, and the right edge it grants, ACK + window, never exceeds
   * popped + capacity (one more once the FIN is counted). That is the edge the reassembler compares
   * with if and only if the sum fits 64 bits.
   */
  lemma WindowStaysInsideEdge(r: ReceiverState)
    requires r.WellFormed()
    ensures r.WindowSize() == r.assembly.output.capacity - |r.assembly.pending| - r.assembly.output.Buffered()
    ensures r.isn.Some? ==>
              r.AbsoluteAck() + r.WindowSize() <= 1 + r.assembly.Edge() + Flag(r.assembly.output.closed)
    ensures r.assembly.Right() == r.assembly.Edge() <==> r.assembly.output.popped + r.assembly.output.capacity < MOD64
  {
    RightIsEdgeIff(r.assembly);
    BytesHeldFitCapacity(r.assembly);
  }

  lemma ReadMovesWindowNotAck(r: ReceiverState, maxLen: nat)
    requires r.WellFormed()
    ensures var r' := r.Read(maxLen);
            && r'.Ackno() == r.Ackno()
            && r'.WindowSize() == r.WindowSize() + Min(maxLen, r.assembly.output.Buffered())
            && r'.assembly.Edge() == r.assembly.Edge() + Min(maxLen, r.assembly.output.Buffered())
            && (r'.assembly.Right() == r'.assembly.Edge() <==> r'.assembly.Edge() < MOD64)
  {
    WindowStaysInsideEdge(r);
    ReadKeepsWellFormed(r.assembly, maxLen);
    WindowStaysInsideEdge(r.Read(maxLen));
  }

  lemma ReceiveInSteps(r: ReceiverState, segment: TcpSegment)
    requires r.assembly.output.Valid() && |segment.payload| < MOD64 && (r.isn.Some? || segment.syn)
    ensures var zero := r.ZeroPoint(segment);
            r.Receive(segment)
            == ReceiverState(r.assembly.Insert(r.FirstIndex(segment, zero), segment.payload, segment.fin), Some(zero))
  {
  }

  /** The first SYN opens the stream, and data or a FIN it carries are the stream's first positions. */
  lemma FirstSynIsInserted(r: ReceiverState, segment: TcpSegment)
    requires r.WellFormed() && r.isn.None? && segment.syn && |segment.payload| < MOD64
    ensures r.Receive(segment)
         == ReceiverState(r.assembly.Insert(0, segment.payload, segment.fin), Some(segment.seqno))
  {
    SynHasIndexZero(r, segment);
    ReceiveInSteps(r, segment);
  }

  /** The segment claims the SYN's own position, 0, although it carries no SYN. */
  predicate AtSynPosition(r: ReceiverState, segment: TcpSegment) {
    r.isn.Some? && !segment.syn && Unwrap(segment.seqno, r.isn.value, r.Checkpoint()) == 0
  }

  lemma SynPositionOnlyMarks(r: ReceiverState, segment: TcpSegment)
    requires r.assembly.output.Valid() && |segment.payload| < MOD64
    requires AtSynPosition(r, segment)
    ensures r.Receive(segment)
         == r.(assembly := r.assembly.Mark(MOD64 - 1, |segment.payload|, segment.fin).CloseIfComplete())
  {
    var first := r.FirstIndex(segment, r.isn.value);
    assert first == MOD64 - 1;
    InsertInSteps(r.assembly, first, segment.payload, segment.fin);
    ReceiveInSteps(r, segment);
  }

  /**
   * A segment without SYN at the SYN's own position has no stream position. The receiver
   * does not guard against it: the data is harmlessly out of the window, but a FIN on it records
   * a wrong end. It leaves a connected receiver unchanged exactly when it has no FIN, or repeats
   * the end already recorded.
   */
  lemma SynPositionWithoutSyn(r: ReceiverState, segment: TcpSegment)
    requires r.WellFormed() && |segment.payload| < MOD64
    requires AtSynPosition(r, segment)
    ensures r.Receive(segment) == r
       <==> !segment.fin || r.assembly.eof == Some((MOD64 - 1 + |segment.payload|) % MOD64)
  {
    SynPositionOnlyMarks(r, segment);
  }

  lemma IndexWithoutWrap(position: nat)
    requires 0 < position < MOD64
    ensures position % MOD64 == position && (position % MOD64 - 1) % MOD64 == position - 1
  {
  }

  lemma NearbyIndex(r: ReceiverState, p: PlacedSegment, isn: uint32)
    requires p.absolute + Flag(p.syn) > 0 && p.absolute + 1 < MOD64 && r.assembly.Next() + 1 < MOD64
    requires r.assembly.Next() + 1 <= p.absolute + HALF32 && p.absolute < r.assembly.Next() + 1 + HALF32
    ensures r.FirstIndex(OnWire(p, isn), isn) == p.absolute + Flag(p.syn) - 1
  {
    IndexWithoutWrap(r.assembly.Next() + 1);
    UnwrapNearby(p.absolute, isn, r.Checkpoint());
    IndexWithoutWrap(p.absolute + Flag(p.syn));
  }

  /** A segment whose position is within half the 32-bit space of the next one is inserted where its bytes belong. */
  lemma PlacedSegmentIsInserted(r: ReceiverState, p: PlacedSegment, isn: uint32)
    requires r.assembly.output.Valid() && |p.payload| < MOD64 && r.isn == Some(isn)
    requires p.absolute + Flag(p.syn) > 0 && p.absolute + 1 < MOD64 && r.assembly.Next() + 1 < MOD64
    requires r.assembly.Next() + 1 <= p.absolute + HALF32 && p.absolute < r.assembly.Next() + 1 + HALF32
    ensures r.Receive(OnWire(p, isn))
         == ReceiverState(r.assembly.Insert(p.absolute + Flag(p.syn) - 1, p.payload, p.fin), Some(isn))
  {
    NearbyIndex(r, p, isn);
    ReceiveInSteps(r, OnWire(p, isn));
  }

  lemma SynOpensEmptyStream(capacity: uint64, isn: uint32)
    ensures NewReceiver(capacity).Receive(TcpSegment(isn, true, false, []))
         == ReceiverState(EmptyAssembly(capacity), Some(isn))
  {
    SynHasIndexZero(NewReceiver(capacity), TcpSegment(isn, true, false, []));
    InsertInSteps(EmptyAssembly(capacity), 0, [], false);
    ReceiveInSteps(NewReceiver(capacity), TcpSegment(isn, true, false, []));
  }

  lemma SynHasIndexZero(r: ReceiverState, segment: TcpSegment)
    requires segment.syn && r.assembly.Next() == 0
    ensures r.FirstIndex(segment, segment.seqno) == 0
  {
  }

  lemma MarkAtZeroCloses(capacity: uint64)
    ensures var a := EmptyAssembly(capacity).Mark(MOD64 - 1, 1, true).CloseIfComplete();
            a.eof == Some(0) && a.output.closed && a.Next() == 0
  {
    assert FragmentEnd(MOD64 - 1, 1) == 0;
  }

  lemma SynPositionFinCloses(r: ReceiverState, segment: TcpSegment)
    requires r == ReceiverState(EmptyAssembly(r.assembly.output.capacity), Some(segment.seqno))
    requires !segment.syn && segment.fin && |segment.payload| == 1
    ensures var r' := r.Receive(segment);
            r'.assembly.eof == Some(0) && r'.assembly.output.closed && r'.AbsoluteAck() == 2
  {
    SynPositionOnlyMarks(r, segment);
    MarkAtZeroCloses(r.assembly.output.capacity);
  }

  /** For example, one such byte with FIN right after the SYN closes the stream before its first byte. */
  lemma SynPositionFinClosesEarly(capacity: uint64, isn: uint32, b: byte)
    ensures var r := NewReceiver(capacity).Receive(TcpSegment(isn, true, false, []));
            var r' := r.Receive(TcpSegment(isn, false, true, [b]));
            && !r.assembly.output.closed
            && r'.assembly.eof == Some(0) && r'.assembly.output.closed && r'.AbsoluteAck() == 2
  {
    SynOpensEmptyStream(capacity, isn);
    SynPositionFinCloses(ReceiverState(EmptyAssembly(capacity), Some(isn)), TcpSegment(isn, false, true, [b]));
  }

  // ISN independence

  /** A segment before it is given a wire number: its absolute position under the sender's ISN. */
  datatype PlacedSegment = PlacedSegment(absolute: nat, syn: bool, fin: bool, payload: seq<byte>)

  function OnWire(p: PlacedSegment, isn: uint32): TcpSegment {
    TcpSegment(Wrap(p.absolute, isn), p.syn, p.fin, p.payload)
  }

  datatype Step = Arrive(segment: PlacedSegment) | Consume(maxLen: nat)

  ghost predicate Representable(steps: seq<Step>) {
    forall i :: 0 <= i < |steps| && steps[i].Arrive? ==> |steps[i].segment.payload| < MOD64
  }

  function Run(r: ReceiverState, steps: seq<Step>, isn: uint32): (r': ReceiverState)
    requires r.assembly.output.Valid() && Representable(steps)
    ensures r'.assembly.output.Valid()
    decreases |steps|
  {
    if steps == [] then r
    else
      var next := match steps[0]
        case Arrive(p) => r.Receive(OnWire(p, isn))
        case Consume(maxLen) => r.Read(maxLen);
      Run(next, steps[1..], isn)
  }

  /** The first segment with SYN among the steps. */
  function FirstSyn(steps: seq<Step>): Option<PlacedSegment> {
    if steps == [] then None
    else if steps[0].Arrive? && steps[0].segment.syn then Some(steps[0].segment)
    else FirstSyn(steps[1..])
  }

  lemma {:induction false} ZeroPointStays(r: ReceiverState, steps: seq<Step>, isn: uint32)
    requires r.assembly.output.Valid() && Representable(steps) && r.isn.Some?
    ensures Run(r, steps, isn).isn == r.isn
    decreases |steps|
  {
    if steps != [] {
      match steps[0]
      case Arrive(p) => ZeroPointStays(r.Receive(OnWire(p, isn)), steps[1..], isn);
      case Consume(maxLen) => ZeroPointStays(r.Read(maxLen), steps[1..], isn);
    }
  }

  /**
   * The zero point is the number of the first SYN to arrive, for good; until then whatever arrives is ignored
   * and nothing is acknowledged, and the whole capacity is advertised.
   */
  lemma {:induction false} FirstSynSetsZeroPoint(capacity: uint64, steps: seq<Step>, isn: uint32)
    requires Representable(steps)
    ensures var r := Run(NewReceiver(capacity), steps, isn);
            match FirstSyn(steps)
            case Some(p) => r.isn == Some(Wrap(p.absolute, isn))
            case None => r == NewReceiver(capacity) && r.Ackno() == None && r.WindowSize() == capacity
    decreases |steps|
  {
    if steps != [] {
      match steps[0]
      case Arrive(p) =>
        if p.syn {
          ZeroPointStays(NewReceiver(capacity).Receive(OnWire(p, isn)), steps[1..], isn);
        } else {
          FirstSynSetsZeroPoint(capacity, steps[1..], isn);
        }
      case Consume(maxLen) =>
        assert NewReceiver(capacity).Read(maxLen) == NewReceiver(capacity);
        FirstSynSetsZeroPoint(capacity, steps[1..], isn);
    }
  }

  /** The same receiver up to the choice of initial sequence number. */
  ghost predicate SameUpToIsn(r1: ReceiverState, isn1: uint32, r2: ReceiverState, isn2: uint32) {
    && r1.assembly == r2.assembly
    && (r1.isn.None? <==> r2.isn.None?)
    && (r1.isn.Some? ==> Offset(r1.isn.value, isn1) == Offset(r2.isn.value, isn2))
  }

  lemma WireOffsetIgnoresIsn(absolute: nat, isn1: uint32, zero1: uint32, isn2: uint32, zero2: uint32)
    requires Offset(zero1, isn1) == Offset(zero2, isn2)
    ensures Offset(Wrap(absolute, isn1), zero1) == Offset(Wrap(absolute, isn2), zero2)
  {
    OffsetOfWrap(absolute, isn1, zero1);
    OffsetOfWrap(absolute, isn2, zero2);
  }

  lemma AckOffsetIgnoresIsn(absolute: nat, isn1: uint32, zero1: uint32, isn2: uint32, zero2: uint32)
    requires Offset(zero1, isn1) == Offset(zero2, isn2)
    ensures Offset(Wrap(absolute, zero1), isn1) == Offset(Wrap(absolute, zero2), isn2)
  {
    OffsetOfWrap(absolute, zero1, isn1);
    OffsetOfWrap(absolute, zero2, isn2);
  }

  lemma FirstIndexIgnoresIsn(r1: ReceiverState, s1: TcpSegment, zero1: uint32,
                             r2: ReceiverState, s2: TcpSegment, zero2: uint32)
    requires r1.assembly == r2.assembly && s1.syn == s2.syn
    requires Offset(s1.seqno, zero1) == Offset(s2.seqno, zero2)
    ensures r1.FirstIndex(s1, zero1) == r2.FirstIndex(s2, zero2)
  {
    UnwrapShift(s1.seqno, zero1, s2.seqno, zero2, r1.Checkpoint());
  }

  lemma ReceiveIgnoresIsn(r1: ReceiverState, isn1: uint32, r2: ReceiverState, isn2: uint32, p: PlacedSegment)
    requires SameUpToIsn(r1, isn1, r2, isn2)
    requires r1.assembly.output.Valid() && |p.payload| < MOD64
    ensures SameUpToIsn(r1.Receive(OnWire(p, isn1)), isn1, r2.Receive(OnWire(p, isn2)), isn2)
  {
    if r1.isn.Some? || p.syn {
      var s1, s2 := OnWire(p, isn1), OnWire(p, isn2);
      WireOffsetIgnoresIsn(p.absolute, isn1, r1.ZeroPoint(s1), isn2, r2.ZeroPoint(s2));
      FirstIndexIgnoresIsn(r1, s1, r1.ZeroPoint(s1), r2, s2, r2.ZeroPoint(s2));
      ReceiveInSteps(r1, OnWire(p, isn1));
      ReceiveInSteps(r2, OnWire(p, isn2));
    }
  }

  /**
   * The initial sequence number does not matter: the same absolute segments and reads under two
   * ISNs lead to equal reassemblers and windows, and ACKs equally far from their ISNs, even where
   * one numbering wraps past 2^32 and the other does not.
   */
  lemma {:induction false} IsnDoesNotMatter(r1: ReceiverState, isn1: uint32, r2: ReceiverState, isn2: uint32,
                                            steps: seq<Step>)
    requires SameUpToIsn(r1, isn1, r2, isn2) && r1.assembly.output.Valid() && Representable(steps)
    ensures var e1, e2 := Run(r1, steps, isn1), Run(r2, steps, isn2);
            && e1.assembly == e2.assembly
            && e1.WindowSize() == e2.WindowSize()
            && e1.AbsoluteAck() == e2.AbsoluteAck()
            && (e1.Ackno().None? <==> e2.Ackno().None?)
            && (e1.Ackno().Some? ==> Offset(e1.Ackno().value, isn1) == Offset(e2.Ackno().value, isn2))
    decreases |steps|
  {
    if steps == [] {
      if r1.isn.Some? {
        AckOffsetIgnoresIsn(r1.AbsoluteAck(), isn1, r1.isn.value, isn2, r2.isn.value);
      }
    } else {
      match steps[0] {
        case Arrive(p) =>
          ReceiveIgnoresIsn(r1, isn1, r2, isn2, p);
          IsnDoesNotMatter(r1.Receive(OnWire(p, isn1)), isn1, r2.Receive(OnWire(p, isn2)), isn2, steps[1..]);
        case Consume(maxLen) =>
          IsnDoesNotMatter(r1.Read(maxLen), isn1, r2.Read(maxLen), isn2, steps[1..]);
      }
    }
  }
}
