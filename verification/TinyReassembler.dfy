/** The reassembler: fragments go in in any order, the contiguous prefix comes out through a byte stream. */
module TinyReassembler {
  import opened Words
  import opened TinyStream

  /** The end of a fragment as the 64-bit sum first_index + data.size(), which can wrap. */
  function FragmentEnd(first: uint64, size: nat): uint64 {
    (first + size) % MOD64
  }

  /** The bytes of a fragment whose positions lie in [lo, hi). */
  function Clip(first: nat, data: seq<byte>, lo: nat, hi: nat): map<nat, byte>
    requires lo < hi ==> first <= lo && hi <= first + |data|
  {
    map p: nat | lo <= p < hi :: ByteAt(first, data, p)
  }

  /** The byte a fragment that begins at position first carries for position p. */
  function ByteAt(first: nat, data: seq<byte>, p: nat): byte
    requires first <= p < first + |data|
  {
    data[p - first]
  }

  /** How many positions from, from + 1, ... are present, counting at most limit of them. */
  function RunLength(pending: map<nat, byte>, from: nat, limit: nat): (n: nat)
    ensures n <= limit
    ensures forall p :: from <= p < from + n ==> p in pending
    ensures n == limit || from + n !in pending
    decreases limit
  {
    if limit == 0 || from !in pending then 0 else 1 + RunLength(pending, from + 1, limit - 1)
  }

  function Bytes(pending: map<nat, byte>, from: nat, n: nat): (s: seq<byte>)
    requires forall p :: from <= p < from + n ==> p in pending
    ensures |s| == n
  {
    seq(n, i requires 0 <= i < n => pending[from + i])
  }

  datatype Assembly = Assembly(output: Stream, pending: map<nat, byte>, eof: Option<nat>) {
    function Next(): nat {
      |output.accepted|
    }

    /** The acceptance edge: the first position the shared capacity has no room for. */
    function Edge(): nat
      requires output.Valid()
    {
      Next() + output.Available()
    }

    /** The acceptance edge as the 64-bit sum the code compares with, which can wrap. */
    function Right(): uint64
      requires output.Valid()
    {
      Edge() % MOD64
    }

    ghost predicate WellFormed() {
      && output.Valid()
      && (forall p :: p in pending ==> Next() <= p < Edge() && p + 1 < MOD64)
      && Next() < MOD64
      && (!output.closed ==> Next() !in pending)
      && (eof == Some(Next()) ==> output.closed)
    }

    /** Move the contiguous run at Next() into the output; a closed output takes nothing. */
    function Flush(): (a: Assembly)
      requires output.Valid()
      ensures a.output.Valid()
    {
      var n := if output.closed then 0 else RunLength(pending, Next(), output.Available());
      Assembly(output.(accepted := output.accepted + Bytes(pending, Next(), n)),
               map p | p in pending && !(Next() <= p < Next() + n) :: pending[p],
               eof)
    }

    function CloseIfComplete(): (a: Assembly)
      requires output.Valid()
      ensures a.output.Valid()
    {
      if eof == Some(Next()) then this.(output := output.Close()) else this
    }

    function AcceptedBegin(first: nat): nat {
      Max(first, Next())
    }

    function AcceptedEnd(first: uint64, size: nat): nat
      requires output.Valid()
    {
      Min(FragmentEnd(first, size), Right())
    }

    function Insert(first: uint64, data: seq<byte>, isLast: bool): (a: Assembly)
      requires output.Valid() && |data| < MOD64
      ensures a.output.Valid()
    {
      var lo, hi := AcceptedBegin(first), AcceptedEnd(first, |data|);
      if lo >= hi then Mark(first, |data|, isLast).CloseIfComplete()
      else Mark(first, |data|, isLast).Store(first, data, lo, hi).Flush().CloseIfComplete()
    }

    function Mark(first: uint64, size: nat, isLast: bool): Assembly {
      if isLast then this.(eof := Some(FragmentEnd(first, size))) else this
    }

    function Store(first: uint64, data: seq<byte>, lo: nat, hi: nat): Assembly
      requires first <= lo <= hi <= first + |data|
    {
      this.(pending := Clip(first, data, lo, hi) + pending)
    }

    function Read(maxLen: nat): (a: Assembly)
      requires output.Valid()
      ensures a.output.Valid()
    {
      this.(output := output.Pop(maxLen))
    }

    /** Every byte the reassembler has taken charge of so far, delivered or pending, by position. */
    function Known(): map<nat, byte> {
      (map p: nat | p < Next() :: output.accepted[p]) + pending
    }
  }

  function EmptyAssembly(capacity: uint64): (a: Assembly)
    ensures a.WellFormed()
  {
    Assembly(EmptyStream(capacity), map[], None)
  }

  class Reassembler {
    const output: ByteStream
    var pending: map<nat, byte>
    var eofIndex: Option<nat>

    ghost predicate Valid()
      reads this, output
    {
      output.Valid() && View().WellFormed()
    }

    ghost function View(): (a: Assembly)
      reads this, output
      requires output.Valid()
      ensures a.output.Valid()
    {
      Assembly(output.View(), pending, eofIndex)
    }

    constructor (capacity: uint64)
      ensures Valid() && View() == EmptyAssembly(capacity)
      ensures fresh(this) && fresh(output)
    {
      output := new ByteStream(capacity);
      pending, eofIndex := map[], None;
    }

    method Insert(first: uint64, data: seq<byte>, isLast: bool)
      requires Valid() && |data| < MOD64
      modifies this, output
      ensures Valid() && View() == old(View()).Insert(first, data, isLast)
    {
      ghost var before := View();
      InsertKeepsWellFormed(before, first, data, isLast);
      InsertInSteps(before, first, data, isLast);
      if isLast {
        eofIndex := Some(FragmentEnd(first, |data|));
      }
      var left := FirstUnassembled();
      var right := (left + output.AvailableCapacity()) % MOD64;
      var acceptedBegin := Max(first, left);
      var acceptedEnd := Min(FragmentEnd(first, |data|), right);
      ghost var marked := View();
      assert acceptedBegin == before.AcceptedBegin(first) && acceptedEnd == before.AcceptedEnd(first, |data|);
      assert marked == before.Mark(first, |data|, isLast);
      if acceptedBegin >= acceptedEnd {
        CloseIfComplete();
        return;
      }
      Store(first, data, acceptedBegin, acceptedEnd);
      ghost var stored := View();
      assert stored == marked.Store(first, data, acceptedBegin, acceptedEnd);
      assert before.Insert(first, data, isLast) == stored.Flush().CloseIfComplete();
      FlushContiguous();
      ghost var flushed := View();
      assert flushed == stored.Flush();
      CloseIfComplete();
      assert View() == flushed.CloseIfComplete();
    }

    /** The loop of insert that fills the empty positions of [lo, hi) from the fragment. */
    method Store(first: uint64, data: seq<byte>, lo: nat, hi: nat)
      requires output.Valid() && first <= lo < hi <= first + |data|
      modifies this`pending
      ensures output.Valid() && View() == old(View()).Store(first, data, lo, hi)
    {
      for position := lo to hi
        invariant pending == Clip(first, data, lo, position) + old(pending)
      {
        if position !in pending {
          pending := pending[position := data[position - first]];
        }
      }
    }

    /** Hand the bytes at first_unassembled over, one at a time, until one is missing or refused. */
    method FlushContiguous()
      requires output.Valid()
      modifies this, output
      ensures output.Valid() && View() == old(View()).Flush()
    {
      ghost var before := View();
      while FirstUnassembled() in pending
        invariant output.Valid() && View().Flush() == before.Flush()
        decreases |pending|
      {
        ghost var here := View();
        var position := FirstUnassembled();
        var accept := output.Push([pending[position]]);
        if accept != 1 {
          FlushBlocked(here);
          assert View() == here;
          return;
        }
        pending := pending - {position};
        FlushOne(here);
      }
      FlushBlocked(View());
    }

    method CloseIfComplete()
      requires output.Valid()
      modifies this, output
      ensures output.Valid() && View() == old(View()).CloseIfComplete()
    {
      if eofIndex.Some? && FirstUnassembled() == eofIndex.value {
        output.Close();
      }
    }

    function FirstUnassembled(): (n: nat)
      reads this, output
      requires output.Valid()
      ensures n == View().Next()
    {
      output.bytesPushed
    }

    function BytesPending(): nat
      reads this
    {
      |pending|
    }
  }

  lemma InsertInSteps(a: Assembly, first: uint64, data: seq<byte>, isLast: bool)
    requires a.output.Valid() && |data| < MOD64
    ensures var lo, hi := a.AcceptedBegin(first), a.AcceptedEnd(first, |data|);
            && (lo >= hi ==> a.Insert(first, data, isLast) == a.Mark(first, |data|, isLast).CloseIfComplete())
            && (lo < hi ==> a.Insert(first, data, isLast)
                            == a.Mark(first, |data|, isLast).Store(first, data, lo, hi).Flush().CloseIfComplete())
  {
  }

  lemma FlushBlocked(a: Assembly)
    requires a.output.Valid()
    requires a.output.closed || a.Next() !in a.pending || a.output.Available() == 0
    ensures a.Flush() == a
  {
  }

  lemma FlushOne(a: Assembly)
    requires a.output.Valid() && a.Next() in a.pending && !a.output.closed && a.output.Available() > 0
    ensures var b := Assembly(a.output.Push([a.pending[a.Next()]]), a.pending - {a.Next()}, a.eof);
            b.Flush() == a.Flush()
  {
    var b := Assembly(a.output.Push([a.pending[a.Next()]]), a.pending - {a.Next()}, a.eof);
    var n := RunLength(a.pending, a.Next(), a.output.Available());
    RunLengthAgrees(a.pending, b.pending, b.Next(), b.output.Available());
    assert b.Flush().output.accepted == a.Flush().output.accepted;
    assert b.Flush().pending == a.Flush().pending;
  }

  lemma RunLengthAgrees(m: map<nat, byte>, m': map<nat, byte>, from: nat, limit: nat)
    requires forall p :: from <= p ==> (p in m <==> p in m')
    ensures RunLength(m, from, limit) == RunLength(m', from, limit)
    decreases limit
  {
  }

  lemma EdgeIsPoppedPlusCapacity(a: Assembly)
    requires a.output.Valid()
    ensures a.Edge() == a.output.popped + a.output.capacity
  {
  }

  /** The code compares with popped + capacity, the acceptance edge, if and only if that sum fits 64 bits. */
  lemma RightIsEdgeIff(a: Assembly)
    requires a.output.Valid()
    ensures a.Right() == a.output.popped + a.output.capacity == a.Edge()
       <==> a.output.popped + a.output.capacity < MOD64
  {
  }

  /** Pending positions lie in the window and fit 64 bits, and so does the next position. */
  ghost predicate Windowed(a: Assembly) {
    && a.output.Valid() && a.Next() < MOD64
    && forall p :: p in a.pending ==> a.Next() <= p < a.Edge() && p + 1 < MOD64
  }

  lemma FlushKeepsWindow(a: Assembly)
    requires Windowed(a)
    ensures Windowed(a.Flush()) && a.Flush().Edge() == a.Edge()
    ensures !a.Flush().output.closed ==> a.Flush().Next() !in a.Flush().pending
  {
    var n := a.Flush().Next() - a.Next();
    if n > 0 {
      assert a.Next() + (n - 1) in a.pending;
    }
  }

  lemma StoreKeepsWindow(a: Assembly, first: uint64, data: seq<byte>, lo: nat, hi: nat)
    requires Windowed(a)
    requires first <= lo < hi <= first + |data| && a.Next() <= lo && hi <= a.Edge() && hi < MOD64
    ensures Windowed(a.Store(first, data, lo, hi)) && a.Store(first, data, lo, hi).Edge() == a.Edge()
  {
  }

  lemma CloseMakesWellFormed(a: Assembly)
    requires Windowed(a) && (!a.output.closed ==> a.Next() !in a.pending)
    ensures a.CloseIfComplete().WellFormed() && a.CloseIfComplete().Edge() == a.Edge()
  {
  }

  lemma EndIsInWindow(a: Assembly, first: uint64, size: nat)
    requires a.output.Valid() && size < MOD64 && a.AcceptedBegin(first) < a.AcceptedEnd(first, size)
    ensures a.AcceptedEnd(first, size) <= first + size && a.AcceptedEnd(first, size) <= a.Edge()
    ensures a.AcceptedEnd(first, size) < MOD64
  {
  }

  /** b is a with the pending bytes of positions [a.Next(), b.Next()) moved to the output, in order. */
  ghost predicate Moved(a: Assembly, b: Assembly) {
    && a.output.accepted <= b.output.accepted
    && (forall p :: a.Next() <= p < b.Next() ==> p in a.pending && b.output.accepted[p] == a.pending[p])
    && b.pending == map p | p in a.pending && !(a.Next() <= p < b.Next()) :: a.pending[p]
  }

  lemma FlushMoves(a: Assembly)
    requires a.output.Valid()
    ensures Moved(a, a.Flush())
  {
  }

  lemma MovedKeepsKnown(a: Assembly, b: Assembly)
    requires Moved(a, b) && forall p :: p in a.pending ==> a.Next() <= p
    ensures b.Known() == a.Known()
  {
  }

  /** Flushing moves bytes between the two containers; it neither loses nor alters one. */
  lemma FlushKeepsKnown(a: Assembly)
    requires a.output.Valid() && forall p :: p in a.pending ==> a.Next() <= p
    ensures a.Flush().Known() == a.Known()
  {
    FlushMoves(a);
    MovedKeepsKnown(a, a.Flush());
  }

  /** Insert keeps every invariant of the reassembler, whatever the fragment claims. */
  lemma InsertKeepsWellFormed(a: Assembly, first: uint64, data: seq<byte>, isLast: bool)
    requires a.WellFormed() && |data| < MOD64
    ensures a.Insert(first, data, isLast).WellFormed()
    ensures a.Insert(first, data, isLast).Edge() == a.Edge()
  {
    var lo, hi := a.AcceptedBegin(first), a.AcceptedEnd(first, |data|);
    var marked := a.Mark(first, |data|, isLast);
    MarkKeepsWindow(a, marked);
    InsertInSteps(a, first, data, isLast);
    if lo < hi {
      EndIsInWindow(a, first, |data|);
      StoreKeepsWindow(marked, first, data, lo, hi);
      var stored := marked.Store(first, data, lo, hi);
      FlushKeepsWindow(stored);
      CloseMakesWellFormed(stored.Flush());
    } else {
      CloseMakesWellFormed(marked);
    }
  }

  lemma MarkKeepsWindow(a: Assembly, marked: Assembly)
    requires a.WellFormed() && marked.output == a.output && marked.pending == a.pending
    ensures Windowed(marked) && marked.Edge() == a.Edge() && marked.Next() == a.Next()
    ensures !marked.output.closed ==> marked.Next() !in marked.pending
  {
  }

  lemma ReadKeepsWellFormed(a: Assembly, maxLen: nat)
    requires a.WellFormed()
    ensures a.Read(maxLen).WellFormed()
  {
  }

  lemma StoreAddsClip(a: Assembly, stored: Assembly, clip: map<nat, byte>)
    requires forall p :: p in clip ==> a.Next() <= p
    requires stored.output == a.output && stored.pending == clip + a.pending
    ensures stored.Known() == clip + a.Known()
  {
  }

  lemma CloseKeepsKnown(a: Assembly)
    requires a.output.Valid()
    ensures a.CloseIfComplete().Known() == a.Known()
  {
  }

  /**
   * The whole effect of one insert on the bytes held: the part of the fragment inside the window
   * is added in full, nothing else is, and a position already held keeps its first byte.
   */
  lemma InsertAddsExactlyTheWindow(a: Assembly, first: uint64, data: seq<byte>, isLast: bool)
    requires a.WellFormed() && |data| < MOD64
    ensures var lo, hi := a.AcceptedBegin(first), a.AcceptedEnd(first, |data|);
            a.Insert(first, data, isLast).Known() == Clip(first, data, lo, hi) + a.Known()
  {
    var lo, hi := a.AcceptedBegin(first), a.AcceptedEnd(first, |data|);
    if lo < hi {
      var stored := a.Mark(first, |data|, isLast).Store(first, data, lo, hi);
      FlushKeepsKnown(stored);
      StoreAddsClip(a, stored, Clip(first, data, lo, hi));
      CloseKeepsKnown(stored.Flush());
    } else {
      assert Clip(first, data, lo, hi) + a.Known() == a.Known();
    }
  }

  lemma InsertHolds(a: Assembly, first: uint64, data: seq<byte>, isLast: bool, p: nat)
    requires a.WellFormed() && |data| < MOD64
    ensures p in a.Insert(first, data, isLast).Known()
       <==> p in Clip(first, data, a.AcceptedBegin(first), a.AcceptedEnd(first, |data|)) || p in a.Known()
  {
    InsertAddsExactlyTheWindow(a, first, data, isLast);
  }

  /** When the end of the fragment or the acceptance edge needs more than 64 bits, the code accepts nothing. */
  lemma OverflowAcceptsNothing(a: Assembly, first: uint64, size: nat)
    requires a.WellFormed() && size < MOD64
    requires first + size >= MOD64 || a.output.popped + a.output.capacity >= MOD64
    ensures a.AcceptedBegin(first) >= a.AcceptedEnd(first, size)
  {
  }

  /** The end of what a fragment offers inside the acceptance window, in unbounded arithmetic. */
  function OfferedEnd(a: Assembly, first: nat, size: nat): nat {
    Min(first + size, a.output.popped + a.output.capacity)
  }

  ghost predicate OffersNothingNew(a: Assembly, first: nat, size: nat) {
    forall p :: a.AcceptedBegin(first) <= p < OfferedEnd(a, first, size) ==> p in a.pending
  }

  /** All the fragment offers inside [Next, popped + capacity) is held afterwards, and nothing else is new. */
  ghost predicate KeepsAllOffered(a: Assembly, first: uint64, data: seq<byte>, isLast: bool)
    requires a.output.Valid() && |data| < MOD64
  {
    a.Insert(first, data, isLast).Known()
    == Clip(first, data, a.AcceptedBegin(first), OfferedEnd(a, first, |data|)) + a.Known()
  }

  lemma OverflowKeepsKnown(a: Assembly, first: uint64, data: seq<byte>, isLast: bool)
    requires a.WellFormed() && |data| < MOD64
    requires first + |data| >= MOD64 || a.output.popped + a.output.capacity >= MOD64
    ensures a.Insert(first, data, isLast).Known() == a.Known()
  {
    InsertAddsExactlyTheWindow(a, first, data, isLast);
    OverflowAcceptsNothing(a, first, |data|);
  }

  lemma OffersNothingNewIff(a: Assembly, first: uint64, data: seq<byte>)
    ensures Clip(first, data, a.AcceptedBegin(first), OfferedEnd(a, first, |data|)) + a.Known() == a.Known()
       <==> OffersNothingNew(a, first, |data|)
  {
    var lo, hi := a.AcceptedBegin(first), OfferedEnd(a, first, |data|);
    AddsOnlyNew(first, data, lo, hi, a.Known());
    assert forall p :: lo <= p < hi ==> (p in a.Known() <==> p in a.pending);
  }

  lemma FittingSumsAgree(a: Assembly, first: uint64, size: nat)
    requires a.output.Valid() && first + size < MOD64 && a.output.popped + a.output.capacity < MOD64
    ensures a.AcceptedEnd(first, size) == OfferedEnd(a, first, size)
  {
  }

  lemma FittingSumsKeepAll(a: Assembly, first: uint64, data: seq<byte>, isLast: bool)
    requires a.WellFormed() && |data| < MOD64
    requires first + |data| < MOD64 && a.output.popped + a.output.capacity < MOD64
    ensures KeepsAllOffered(a, first, data, isLast)
  {
    InsertAddsExactlyTheWindow(a, first, data, isLast);
    FittingSumsAgree(a, first, |data|);
  }

  lemma KeepsAllOfferedIff(a: Assembly, first: uint64, data: seq<byte>, isLast: bool)
    requires a.WellFormed() && |data| < MOD64
    ensures KeepsAllOffered(a, first, data, isLast)
       <==> ((first + |data| < MOD64 && a.output.popped + a.output.capacity < MOD64)
             || OffersNothingNew(a, first, |data|))
  {
    if first + |data| < MOD64 && a.output.popped + a.output.capacity < MOD64 {
      FittingSumsKeepAll(a, first, data, isLast);
    } else {
      OverflowKeepsKnown(a, first, data, isLast);
      OffersNothingNewIff(a, first, data);
    }
  }

  lemma AddsOnlyNew(first: nat, data: seq<byte>, lo: nat, hi: nat, known: map<nat, byte>)
    requires lo < hi ==> first <= lo && hi <= first + |data|
    ensures Clip(first, data, lo, hi) + known == known <==> forall p: nat :: lo <= p < hi ==> p in known
  {
    forall p: nat | lo <= p < hi
      ensures p in Clip(first, data, lo, hi) + known
    {
    }
    if forall p: nat :: lo <= p < hi ==> p in known {
      assert Clip(first, data, lo, hi) + known == known;
    }
  }

  /**
   * Insert keeps all the fragment offers inside [Next, popped + capacity) and records its true end
   * if and only if both 64-bit sums fit; or, where one does not, the fragment offers nothing new and
   * marks no end that overflows.
   */
  lemma InsertIsExactIff(a: Assembly, first: uint64, data: seq<byte>, isLast: bool)
    requires a.WellFormed() && |data| < MOD64
    ensures (KeepsAllOffered(a, first, data, isLast)
             && (isLast ==> a.Insert(first, data, isLast).eof == Some(first + |data|)))
       <==> ((isLast ==> first + |data| < MOD64)
             && ((first + |data| < MOD64 && a.output.popped + a.output.capacity < MOD64)
                 || OffersNothingNew(a, first, |data|)))
  {
    KeepsAllOfferedIff(a, first, data, isLast);
    InsertMarksAndCloses(a, first, data, isLast);
  }

  /** A fragment that runs past the last position is dropped whole, with the part that was in the window. */
  lemma FragmentEndOverflowDropsAll(b: byte)
    ensures var a := EmptyAssembly(MOD64 - 1);
            && MOD64 - 2 < a.Edge()
            && a.Insert(MOD64 - 2, [b, b], false) == a
            && a.Insert(MOD64 - 2, [b, b], true).output.closed
  {
    var a := EmptyAssembly(MOD64 - 1);
    OverflowAcceptsNothing(a, MOD64 - 2, 2);
    InsertInSteps(a, MOD64 - 2, [b, b], false);
    InsertInSteps(a, MOD64 - 2, [b, b], true);
    assert FragmentEnd(MOD64 - 2, 2) == 0;
  }

  /** With the largest capacity a single read is enough for every later fragment to be dropped. */
  lemma EdgeOverflowDropsAll(b: byte, first: uint64, data: seq<byte>)
    requires |data| < MOD64
    ensures var a := EmptyAssembly(MOD64 - 1).Insert(0, [b], false).Read(1);
            && a.WellFormed() && a.output.accepted == [b] && a.Edge() == MOD64
            && a.Insert(first, data, false) == a
  {
    var empty := EmptyAssembly(MOD64 - 1);
    var one := empty.Insert(0, [b], false);
    InsertKeepsWellFormed(empty, 0, [b], false);
    FirstByteIsDelivered(MOD64 - 1, b);
    var a := one.Read(1);
    ReadKeepsWellFormed(one, 1);
    OverflowAcceptsNothing(a, first, |data|);
    InsertInSteps(a, first, data, false);
  }

  lemma FirstByteIsDelivered(capacity: uint64, b: byte)
    requires capacity > 0
    ensures EmptyAssembly(capacity).Insert(0, [b], false)
         == Assembly(EmptyStream(capacity).(accepted := [b]), map[], None)
  {
    var a := EmptyAssembly(capacity);
    InsertInSteps(a, 0, [b], false);
    assert a.AcceptedBegin(0) == 0 && a.AcceptedEnd(0, 1) == 1;
    OnlyByteIsStored(capacity, b);
    OnlyByteIsFlushed(a.Store(0, [b], 0, 1), b);
  }

  lemma OnlyByteIsStored(capacity: uint64, b: byte)
    ensures EmptyAssembly(capacity).Store(0, [b], 0, 1) == Assembly(EmptyStream(capacity), map[0 := b], None)
  {
    assert Clip(0, [b], 0, 1) == map[0 := b];
  }

  lemma OnlyByteIsFlushed(a: Assembly, b: byte)
    requires a.output == EmptyStream(a.output.capacity) && a.output.capacity > 0 && a.pending == map[0 := b]
    ensures a.Flush() == Assembly(a.output.(accepted := [b]), map[], a.eof)
  {
    var flushed := Assembly(a.output.Push([b]), map[], a.eof);
    assert a.pending - {0} == map[];
    assert a.output.Push([b]) == a.output.(accepted := [b]);
    FlushOne(a);
    FlushBlocked(flushed);
  }

  /** The end mark is the last one claimed, and the output closes on reaching it, for good. */
  lemma InsertMarksAndCloses(a: Assembly, first: uint64, data: seq<byte>, isLast: bool)
    requires a.output.Valid() && |data| < MOD64
    ensures var a' := a.Insert(first, data, isLast);
            && a'.eof == (if isLast then Some(FragmentEnd(first, |data|)) else a.eof)
            && (a'.output.closed <==> a.output.closed || a'.eof == Some(a'.Next()))
            && (a.output.closed ==> a'.output.accepted == a.output.accepted)
            && a'.output.popped == a.output.popped && a'.output.capacity == a.output.capacity
            && a.output.accepted <= a'.output.accepted
  {
    var lo, hi := a.AcceptedBegin(first), a.AcceptedEnd(first, |data|);
    if lo < hi {
      FlushMoves(a.Mark(first, |data|, isLast).Store(first, data, lo, hi));
    }
  }

  lemma {:induction false} KeysInIntervalAreFew(keys: set<nat>, lo: nat, hi: nat)
    requires lo <= hi && forall p :: p in keys ==> lo <= p < hi
    ensures |keys| <= hi - lo
    decreases hi - lo
  {
    if lo < hi {
      KeysInIntervalAreFew(keys - {lo}, lo + 1, hi);
    } else {
      assert keys == {};
    }
  }

  /** The documented contract: unread and pending bytes together never exceed the capacity. */
  lemma BytesHeldFitCapacity(a: Assembly)
    requires a.WellFormed()
    ensures a.output.Buffered() + |a.pending| <= a.output.capacity
  {
    KeysInIntervalAreFew(a.pending.Keys, a.Next(), a.Edge());
  }
}
