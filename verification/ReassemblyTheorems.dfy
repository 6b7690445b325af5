/** What the reassembler guarantees about fragments that were all cut from one stream. */
module ReassemblyTheorems {
  import opened Words
  import opened TinyStream
  import opened TinyReassembler

  datatype Fragment = Fragment(first: uint64, data: seq<byte>, isLast: bool)

  /** A fragment of the stream source; isLast says that source is complete and ends here. */
  predicate CutFrom(f: Fragment, source: seq<byte>, done: bool) {
    && f.first + |f.data| <= |source| < MOD64
    && f.data == source[f.first..f.first + |f.data|]
    && (f.isLast ==> done && f.first + |f.data| == |source|)
  }

  ghost predicate Agrees(known: map<nat, byte>, source: seq<byte>) {
    forall p :: p in known ==> p < |source| && known[p] == source[p]
  }

  /** The state a may be in when its fragments come from source, complete or not. */
  ghost predicate Refines(a: Assembly, source: seq<byte>, done: bool) {
    && a.WellFormed()
    && Agrees(a.Known(), source)
    && (a.eof.Some? ==> done && a.eof.value == |source|)
    && (a.output.closed ==> a.eof == Some(a.Next()))
  }

  function Take(a: Assembly, f: Fragment): (a': Assembly)
    requires a.output.Valid() && |f.data| < MOD64
    ensures a'.output.Valid()
  {
    a.Insert(f.first, f.data, f.isLast)
  }

  lemma DeliveredIsPrefix(a: Assembly, source: seq<byte>, done: bool)
    requires Refines(a, source, done)
    ensures a.output.accepted <= source
    ensures forall p :: p in a.pending ==> a.Next() <= p < |source| && a.pending[p] == source[p]
    ensures a.output.closed ==> done && a.output.accepted == source
  {
    forall p: nat | p < a.Next()
      ensures p < |source| && a.output.accepted[p] == source[p]
    {
      assert p in a.Known();
    }
    if a.Next() > 0 {
      assert a.Next() - 1 in a.Known();
    }
    forall p | p in a.pending
      ensures p < |source| && a.pending[p] == source[p]
    {
      assert p in a.Known();
    }
  }

  lemma InsertKeepsEnd(a: Assembly, f: Fragment, source: seq<byte>, done: bool)
    requires Refines(a, source, done) && CutFrom(f, source, done)
    ensures var a' := Take(a, f);
            && (a'.eof.Some? ==> done && a'.eof.value == |source|)
            && (a'.output.closed ==> a'.eof == Some(a'.Next()))
            && a'.eof == (if f.isLast then Some(|source|) else a.eof)
  {
    InsertMarksAndCloses(a, f.first, f.data, f.isLast);
  }

  lemma ClipAgrees(f: Fragment, source: seq<byte>, done: bool, lo: nat, hi: nat)
    requires CutFrom(f, source, done) && (lo < hi ==> f.first <= lo && hi <= f.first + |f.data|)
    ensures Agrees(Clip(f.first, f.data, lo, hi), source)
  {
  }

  lemma InsertAgrees(a: Assembly, f: Fragment, source: seq<byte>, done: bool)
    requires a.WellFormed() && Agrees(a.Known(), source) && CutFrom(f, source, done)
    ensures Agrees(Take(a, f).Known(), source)
  {
    var lo, hi := a.AcceptedBegin(f.first), a.AcceptedEnd(f.first, |f.data|);
    InsertAddsExactlyTheWindow(a, f.first, f.data, f.isLast);
    ClipAgrees(f, source, done, lo, hi);
  }

  lemma InsertRefines(a: Assembly, f: Fragment, source: seq<byte>, done: bool)
    requires Refines(a, source, done) && CutFrom(f, source, done)
    ensures Refines(Take(a, f), source, done)
  {
    InsertKeepsWellFormed(a, f.first, f.data, f.isLast);
    InsertAgrees(a, f, source, done);
    InsertKeepsEnd(a, f, source, done);
  }

  datatype Event = Arrive(fragment: Fragment) | Consume(maxLen: nat)

  ghost predicate AllCutFrom(events: seq<Event>, source: seq<byte>, done: bool) {
    forall i :: 0 <= i < |events| && events[i].Arrive? ==> CutFrom(events[i].fragment, source, done)
  }

  function After(a: Assembly, event: Event): (a': Assembly)
    requires a.output.Valid() && (event.Arrive? ==> |event.fragment.data| < MOD64)
    ensures a'.output.Valid()
  {
    match event
    case Arrive(f) => Take(a, f)
    case Consume(maxLen) => a.Read(maxLen)
  }

  /** The state after a run of events on a new reassembler. */
  ghost function Outcome(capacity: uint64, events: seq<Event>, source: seq<byte>, done: bool): (a: Assembly)
    requires AllCutFrom(events, source, done) && |source| < MOD64
    ensures Refines(a, source, done)
    decreases |events|
  {
    if events == [] then
      EmptyAssembly(capacity)
    else
      var before := Outcome(capacity, events[..|events| - 1], source, done);
      StepRefines(before, events[|events| - 1], source, done);
      After(before, events[|events| - 1])
  }

  lemma StepRefines(a: Assembly, event: Event, source: seq<byte>, done: bool)
    requires Refines(a, source, done) && (event.Arrive? ==> CutFrom(event.fragment, source, done))
    ensures Refines(After(a, event), source, done)
  {
    match event
    case Arrive(f) => InsertRefines(a, f, source, done);
    case Consume(maxLen) =>
  }

  /**
   * Over every interleaving of fragments and reads: the delivered bytes are a prefix of the stream,
   * pending bytes are bytes of the stream inside [bytes pushed, bytes popped + capacity), the next
   * byte never sits in pending while the stream is open, and closing happens exactly at the end of
   * a complete stream.
   */
  lemma ReassemblerRefinesStream(capacity: uint64, events: seq<Event>, source: seq<byte>, done: bool)
    requires AllCutFrom(events, source, done) && |source| < MOD64
    ensures var a := Outcome(capacity, events, source, done);
            && a.Next() <= |source| && a.output.accepted == source[..a.Next()]
            && (forall p :: p in a.pending ==>
                  a.Next() <= p < Min(|source|, a.output.popped + a.output.capacity) && a.pending[p] == source[p])
            && (!a.output.closed ==> a.Next() !in a.pending)
            && (a.output.closed <==> a.eof.Some? && a.output.accepted == source)
            && (a.output.closed ==> done)
  {
    var a := Outcome(capacity, events, source, done);
    DeliveredIsPrefix(a, source, done);
    EdgeIsPoppedPlusCapacity(a);
  }

  // Order independence

  predicate Carries(event: Event, p: nat) {
    event.Arrive? && event.fragment.first <= p < event.fragment.first + |event.fragment.data|
  }

  ghost predicate Covered(events: seq<Event>, p: nat) {
    exists i :: 0 <= i < |events| && Carries(events[i], p)
  }

  ghost predicate EndSeen(events: seq<Event>) {
    exists i :: 0 <= i < |events| && events[i].Arrive? && events[i].fragment.isLast
  }

  lemma ClipIsWholeFragment(a: Assembly, f: Fragment, p: nat)
    requires a.output.Valid() && f.first + |f.data| <= a.output.capacity && a.Edge() < MOD64
    ensures p in Clip(f.first, f.data, a.AcceptedBegin(f.first), a.AcceptedEnd(f.first, |f.data|))
       <==> Carries(Arrive(f), p) && a.Next() <= p
  {
  }

  lemma TakeKeepsWholeFragment(a: Assembly, f: Fragment, source: seq<byte>, done: bool, p: nat)
    requires Refines(a, source, done) && CutFrom(f, source, done)
    requires |source| <= a.output.capacity && a.Edge() < MOD64
    ensures p in Take(a, f).Known() <==> p in a.Known() || Carries(Arrive(f), p)
  {
    InsertHolds(a, f.first, f.data, f.isLast, p);
    ClipIsWholeFragment(a, f, p);
    if p < a.Next() {
      assert p in a.Known();
    }
  }

  lemma CoveredSplits(events: seq<Event>, p: nat)
    requires events != []
    ensures Covered(events, p) <==> Covered(events[..|events| - 1], p) || Carries(events[|events| - 1], p)
    ensures EndSeen(events)
       <==> EndSeen(events[..|events| - 1]) || (events[|events| - 1].Arrive? && events[|events| - 1].fragment.isLast)
  {
  }

  lemma TakeKeepsEnd(a: Assembly, f: Fragment, source: seq<byte>, done: bool)
    requires a.output.Valid() && CutFrom(f, source, done)
    ensures Take(a, f).output.capacity == a.output.capacity
    ensures Take(a, f).eof == if f.isLast then Some(|source|) else a.eof
  {
    InsertMarksAndCloses(a, f.first, f.data, f.isLast);
  }

  /** popped + capacity fits 64 bits when a fragment arrives, or the fragment brings nothing new. */
  ghost predicate ArrivesInTime(a: Assembly, event: Event)
    requires a.output.Valid()
  {
    event.Arrive? ==> a.Edge() < MOD64 || forall p: nat :: Carries(event, p) ==> p in a.Known()
  }

  lemma CoverageStep(a: Assembly, event: Event, source: seq<byte>, done: bool, p: nat)
    requires Refines(a, source, done) && |source| <= a.output.capacity
    requires event.Arrive? ==> CutFrom(event.fragment, source, done)
    requires ArrivesInTime(a, event)
    ensures After(a, event).output.capacity == a.output.capacity
    ensures p in After(a, event).Known() <==> p in a.Known() || Carries(event, p)
    ensures After(a, event).eof == if event.Arrive? && event.fragment.isLast then Some(|source|) else a.eof
  {
    match event
    case Arrive(f) =>
      if a.Edge() < MOD64 {
        TakeKeepsWholeFragment(a, f, source, done, p);
      } else {
        OverflowKeepsKnown(a, f.first, f.data, f.isLast);
      }
      TakeKeepsEnd(a, f, source, done);
    case Consume(maxLen) =>
  }

  /** Every fragment of the run arrives in time. */
  ghost predicate Lossless(capacity: uint64, events: seq<Event>, source: seq<byte>, done: bool)
    requires AllCutFrom(events, source, done) && |source| < MOD64
    decreases |events|
  {
    events == []
    || (&& Lossless(capacity, events[..|events| - 1], source, done)
        && ArrivesInTime(Outcome(capacity, events[..|events| - 1], source, done), events[|events| - 1]))
  }

  lemma {:induction false} CapacityStays(capacity: uint64, events: seq<Event>, source: seq<byte>, done: bool)
    requires AllCutFrom(events, source, done) && |source| < MOD64
    ensures Outcome(capacity, events, source, done).output.capacity == capacity
    decreases |events|
  {
    if events != [] {
      var init, last := events[..|events| - 1], events[|events| - 1];
      CapacityStays(capacity, init, source, done);
      if last.Arrive? {
        TakeKeepsEnd(Outcome(capacity, init, source, done), last.fragment, source, done);
      }
    }
  }

  /** No byte is lost when the whole stream plus the capacity fits 64 bits. */
  lemma {:induction false} SmallStreamsLoseNothing(capacity: uint64, events: seq<Event>, source: seq<byte>, done: bool)
    requires AllCutFrom(events, source, done) && |source| + capacity < MOD64
    ensures Lossless(capacity, events, source, done)
    decreases |events|
  {
    if events != [] {
      var init := events[..|events| - 1];
      SmallStreamsLoseNothing(capacity, init, source, done);
      CapacityStays(capacity, init, source, done);
      DeliveredIsPrefix(Outcome(capacity, init, source, done), source, done);
    }
  }

  /** When the stream fits in the capacity, exactly the covered positions are held, in any order of events. */
  lemma {:induction false} KnownIsCovered(capacity: uint64, events: seq<Event>, source: seq<byte>, done: bool, p: nat)
    requires AllCutFrom(events, source, done) && |source| < MOD64 && |source| <= capacity
    requires Lossless(capacity, events, source, done)
    ensures var a := Outcome(capacity, events, source, done);
            && a.output.capacity == capacity
            && (p in a.Known() <==> Covered(events, p))
            && a.eof == (if EndSeen(events) then Some(|source|) else None)
    decreases |events|
  {
    if events != [] {
      var init, last := events[..|events| - 1], events[|events| - 1];
      var before := Outcome(capacity, init, source, done);
      KnownIsCovered(capacity, init, source, done, p);
      CoveredSplits(events, p);
      CoverageStep(before, last, source, done, p);
    }
  }

  lemma OverflowStays(a: Assembly, event: Event, source: seq<byte>, done: bool)
    requires Refines(a, source, done) && a.Edge() >= MOD64
    requires event.Arrive? ==> CutFrom(event.fragment, source, done)
    ensures After(a, event).Known() == a.Known() && After(a, event).Edge() >= MOD64
  {
    match event
    case Arrive(f) =>
      OverflowKeepsKnown(a, f.first, f.data, f.isLast);
      InsertKeepsWellFormed(a, f.first, f.data, f.isLast);
    case Consume(maxLen) =>
  }

  /** A byte that arrives too late is never held afterwards. */
  lemma {:induction false} LossIsPermanent(capacity: uint64, events: seq<Event>, source: seq<byte>, done: bool)
    returns (p: nat)
    requires AllCutFrom(events, source, done) && |source| < MOD64 && !Lossless(capacity, events, source, done)
    ensures Covered(events, p)
    ensures p !in Outcome(capacity, events, source, done).Known()
    ensures Outcome(capacity, events, source, done).Edge() >= MOD64
    decreases |events|
  {
    var init, last := events[..|events| - 1], events[|events| - 1];
    var before := Outcome(capacity, init, source, done);
    if Lossless(capacity, init, source, done) {
      p :| Carries(last, p) && p !in before.Known();
    } else {
      p := LossIsPermanent(capacity, init, source, done);
    }
    OverflowStays(before, last, source, done);
    CoveredSplits(events, p);
  }

  /** A stream that fits the capacity is held exactly as far as it is covered iff nothing arrives too late. */
  lemma KnownIsCoveredIff(capacity: uint64, events: seq<Event>, source: seq<byte>, done: bool)
    requires AllCutFrom(events, source, done) && |source| < MOD64 && |source| <= capacity
    ensures (forall p: nat :: p in Outcome(capacity, events, source, done).Known() <==> Covered(events, p))
       <==> Lossless(capacity, events, source, done)
  {
    if Lossless(capacity, events, source, done) {
      forall p: nat
        ensures p in Outcome(capacity, events, source, done).Known() <==> Covered(events, p)
      {
        KnownIsCovered(capacity, events, source, done, p);
      }
    } else {
      var p := LossIsPermanent(capacity, events, source, done);
    }
  }

  lemma KnownDeterminesState(a: Assembly, b: Assembly, source: seq<byte>, done: bool)
    requires Refines(a, source, done) && Refines(b, source, done)
    requires forall p :: p in a.Known() <==> p in b.Known()
    requires a.eof == b.eof
    ensures a.output.accepted == b.output.accepted && a.pending == b.pending && a.output.closed == b.output.closed
  {
    assert a.Next() !in a.Known() && b.Next() !in b.Known();
    assert a.Next() < b.Next() ==> a.Next() in b.Known();
    assert b.Next() < a.Next() ==> b.Next() in a.Known();
    DeliveredIsPrefix(a, source, done);
    DeliveredIsPrefix(b, source, done);
    forall p | p in a.pending || p in b.pending
      ensures p in a.pending && p in b.pending && a.pending[p] == b.pending[p]
    {
      assert p in a.Known() && p in b.Known();
    }
  }

  /**
   * Order independence: when the stream fits in the capacity, the output, the pending bytes, the
   * end mark and the closed flag depend only on which positions have arrived and whether a last
   * fragment has, not on order, overlap, repetition or on when the Reader reads, as long as no
   * fragment arrives too late for the 64-bit sum popped + capacity.
   */
  lemma OrderDoesNotMatter(capacity: uint64, events: seq<Event>, events': seq<Event>, source: seq<byte>, done: bool)
    requires AllCutFrom(events, source, done) && AllCutFrom(events', source, done)
    requires |source| < MOD64 && |source| <= capacity
    requires Lossless(capacity, events, source, done) && Lossless(capacity, events', source, done)
    requires forall p: nat :: Covered(events, p) <==> Covered(events', p)
    requires EndSeen(events) <==> EndSeen(events')
    ensures var a, b := Outcome(capacity, events, source, done), Outcome(capacity, events', source, done);
            && a.output.accepted == b.output.accepted
            && a.pending == b.pending && a.eof == b.eof && a.output.closed == b.output.closed
  {
    var a, b := Outcome(capacity, events, source, done), Outcome(capacity, events', source, done);
    forall p: nat
      ensures p in a.Known() <==> p in b.Known()
    {
      KnownIsCovered(capacity, events, source, done, p);
      KnownIsCovered(capacity, events', source, done, p);
    }
    KnownIsCovered(capacity, events, source, done, 0);
    KnownIsCovered(capacity, events', source, done, 0);
    KnownDeterminesState(a, b, source, done);
  }

  /** The two bytes of a stream arrive; in the second sequence the first is read in between. */
  function EarlyEvents(b: byte): seq<Event> {
    [Arrive(Fragment(0, [b], false)), Arrive(Fragment(1, [b], false))]
  }

  function LateEvents(b: byte): seq<Event> {
    [Arrive(Fragment(0, [b], false)), Consume(1), Arrive(Fragment(1, [b], false))]
  }

  lemma SameCoverage(b: byte)
    ensures AllCutFrom(EarlyEvents(b), [b, b], true) && AllCutFrom(LateEvents(b), [b, b], true)
    ensures forall p: nat :: Covered(EarlyEvents(b), p) <==> Covered(LateEvents(b), p)
    ensures !EndSeen(EarlyEvents(b)) && !EndSeen(LateEvents(b))
  {
    var early, late := EarlyEvents(b), LateEvents(b);
    forall p: nat
      ensures Covered(early, p) <==> p <= 1
      ensures Covered(late, p) <==> p <= 1
    {
      assert Carries(early[0], p) <==> p == 0;
      assert Carries(early[1], p) <==> p == 1;
      assert Carries(late[0], p) <==> p == 0;
      assert Carries(late[2], p) <==> p == 1;
    }
  }

  lemma FirstFragmentOutcome(capacity: uint64, f: Fragment, source: seq<byte>)
    requires AllCutFrom([Arrive(f)], source, true) && |source| < MOD64 && |f.data| < MOD64
    ensures Outcome(capacity, [Arrive(f)], source, true) == Take(EmptyAssembly(capacity), f)
    ensures Lossless(capacity, [Arrive(f)], source, true)
  {
    var events := [Arrive(f)];
    assert events[..0] == [];
  }

  lemma ReadOutcome(capacity: uint64, f: Fragment, maxLen: nat, source: seq<byte>)
    requires AllCutFrom([Arrive(f)], source, true) && AllCutFrom([Arrive(f), Consume(maxLen)], source, true)
    requires |source| < MOD64 && |f.data| < MOD64
    ensures Outcome(capacity, [Arrive(f), Consume(maxLen)], source, true)
         == Take(EmptyAssembly(capacity), f).Read(maxLen)
  {
    var events := [Arrive(f), Consume(maxLen)];
    assert events[..1] == [Arrive(f)];
    FirstFragmentOutcome(capacity, f, source);
  }

  lemma EarlyOutcome(capacity: uint64, b: byte)
    requires AllCutFrom(EarlyEvents(b), [b, b], true) && capacity == MOD64 - 1
    ensures Outcome(capacity, EarlyEvents(b), [b, b], true).output.accepted == [b, b]
    ensures Lossless(capacity, EarlyEvents(b), [b, b], true)
  {
    var early := EarlyEvents(b);
    assert early[..1] == [early[0]];
    FirstFragmentOutcome(capacity, early[0].fragment, [b, b]);
    FirstByteIsDelivered(capacity, b);
    var a := Outcome(capacity, early, [b, b], true);
    assert Carries(early[0], 0) && Carries(early[1], 1);
    KnownIsCovered(capacity, early, [b, b], true, 0);
    KnownIsCovered(capacity, early, [b, b], true, 1);
    DeliveredIsPrefix(a, [b, b], true);
  }

  lemma LateOutcome(capacity: uint64, b: byte)
    requires AllCutFrom(LateEvents(b), [b, b], true) && capacity == MOD64 - 1
    ensures Outcome(capacity, LateEvents(b), [b, b], true).output.accepted == [b]
    ensures !Lossless(capacity, LateEvents(b), [b, b], true)
  {
    var late := LateEvents(b);
    var before := Outcome(capacity, late[..2], [b, b], true);
    assert late[..2] == [late[0], late[1]];
    ReadOutcome(capacity, late[0].fragment, 1, [b, b]);
    EdgeOverflowDropsAll(b, 1, [b]);
    assert Outcome(capacity, late, [b, b], true) == Take(before, late[2].fragment);
    assert Carries(late[2], 1) && 1 !in before.Known() by {
      FirstByteIsDelivered(capacity, b);
    }
  }

  /**
   * Past the range the order of reads matters: with the largest capacity the second byte is kept
   * when it arrives before the first is read, and dropped for good when it arrives after.
   */
  lemma ReadsMatterPastTheRange(b: byte)
    ensures AllCutFrom(EarlyEvents(b), [b, b], true) && AllCutFrom(LateEvents(b), [b, b], true)
    ensures forall p: nat :: Covered(EarlyEvents(b), p) <==> Covered(LateEvents(b), p)
    ensures Outcome(MOD64 - 1, EarlyEvents(b), [b, b], true).output.accepted == [b, b]
    ensures Outcome(MOD64 - 1, LateEvents(b), [b, b], true).output.accepted == [b]
    ensures Lossless(MOD64 - 1, EarlyEvents(b), [b, b], true) && !Lossless(MOD64 - 1, LateEvents(b), [b, b], true)
  {
    SameCoverage(b);
    EarlyOutcome(MOD64 - 1, b);
    LateOutcome(MOD64 - 1, b);
  }
}
