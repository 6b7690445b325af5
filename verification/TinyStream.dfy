/** The bounded byte stream: all its Writer was ever granted, how much of it was read, and whether it is closed. */
module TinyStream {
  import opened Words

  datatype Stream = Stream(capacity: uint64, accepted: seq<byte>, popped: nat, closed: bool) {
    predicate Valid() {
      popped <= |accepted| <= popped + capacity
    }

    function Unread(): seq<byte>
      requires popped <= |accepted|
    {
      accepted[popped..]
    }

    function Buffered(): nat
      requires popped <= |accepted|
    {
      |accepted| - popped
    }

    function Available(): nat
      requires Valid()
    {
      capacity - Buffered()
    }

    /** What the Writer's data adds to the stream: nothing once closed, else the prefix that fits. */
    function Push(data: seq<byte>): (s: Stream)
      requires Valid()
      ensures s.Valid()
    {
      if closed then this else this.(accepted := accepted + data[..Min(|data|, Available())])
    }

    function Pop(maxLen: nat): (s: Stream)
      requires Valid()
      ensures s.Valid()
    {
      this.(popped := popped + Min(maxLen, Buffered()))
    }

    function Close(): (s: Stream)
      requires Valid()
      ensures s.Valid()
    {
      this.(closed := true)
    }

    predicate Finished() {
      closed && popped == |accepted|
    }
  }

  function EmptyStream(capacity: uint64): (s: Stream)
    ensures s.Valid()
  {
    Stream(capacity, [], 0, false)
  }

  class ByteStream {
    const capacity: uint64
    var buffer: seq<byte>
    var bytesPushed: nat
    var bytesPopped: nat
    var closed: bool
    ghost var accepted: seq<byte>

    ghost predicate Valid()
      reads this
    {
      && bytesPushed == |accepted|
      && bytesPopped <= |accepted|
      && buffer == accepted[bytesPopped..]
      && |buffer| <= capacity
    }

    ghost function View(): (s: Stream)
      reads this
      requires Valid()
      ensures s.Valid() && s.Unread() == buffer
    {
      Stream(capacity, accepted, bytesPopped, closed)
    }

    constructor (capacity: uint64)
      ensures Valid() && View() == EmptyStream(capacity)
      ensures fresh(this)
    {
      this.capacity := capacity;
      buffer, bytesPushed, bytesPopped, closed, accepted := [], 0, 0, false, [];
    }

    method Push(data: seq<byte>) returns (accept: nat)
      requires Valid()
      modifies this
      ensures Valid() && View() == old(View()).Push(data)
      ensures accept == if closed then 0 else Min(|data|, old(View().Available()))
      ensures buffer == old(buffer) + data[..accept]
    {
      if closed {
        return 0;
      }
      accept := Min(|data|, AvailableCapacity());
      buffer := buffer + data[..accept];
      bytesPushed := bytesPushed + accept;
      accepted := accepted + data[..accept];
    }

    function Peek(maxLen: nat): (data: seq<byte>)
      reads this
      requires Valid()
      ensures data == View().Unread()[..Min(maxLen, View().Buffered())]
    {
      buffer[..Min(BytesBuffered(), maxLen)]
    }

    method Pop(maxLen: nat) returns (len: nat)
      requires Valid()
      modifies this
      ensures Valid() && View() == old(View()).Pop(maxLen)
      ensures old(buffer) == old(Peek(maxLen)) + buffer
      ensures len == Min(old(|buffer|), maxLen)
    {
      len := Min(BytesBuffered(), maxLen);
      buffer := buffer[len..];
      bytesPopped := bytesPopped + len;
    }

    method Close()
      requires Valid()
      modifies this
      ensures Valid() && View() == old(View()).Close()
    {
      closed := true;
    }

    predicate IsFinished()
      reads this
      requires Valid()
      ensures IsFinished() <==> View().Finished()
    {
      closed && BytesBuffered() == 0
    }

    function BytesBuffered(): (n: nat)
      reads this
      requires Valid()
      ensures n == |buffer| == View().Buffered()
    {
      bytesPushed - bytesPopped
    }

    function AvailableCapacity(): (n: nat)
      reads this
      requires Valid()
      ensures n == View().Available()
    {
      capacity - BytesBuffered()
    }
  }

  datatype Operation = Write(data: seq<byte>) | Read(maxLen: nat) | CloseWriter

  function Apply(s: Stream, op: Operation): (s': Stream)
    requires s.Valid()
    ensures s'.Valid()
  {
    match op
    case Write(data) => s.Push(data)
    case Read(maxLen) => s.Pop(maxLen)
    case CloseWriter => s.Close()
  }

  /** What the Reader sees in one operation: the bytes peeked just before they are popped. */
  function Output(s: Stream, op: Operation): seq<byte>
    requires s.Valid()
  {
    if op.Read? then s.Unread()[..Min(op.maxLen, s.Buffered())] else []
  }

  /** The bytes one operation appends to what the Writer was granted. */
  function Input(s: Stream, op: Operation): seq<byte>
    requires s.Valid()
  {
    if op.Write? && !s.closed then op.data[..Min(|op.data|, s.Available())] else []
  }

  function AllOutput(s: Stream, ops: seq<Operation>): seq<byte>
    requires s.Valid()
    decreases |ops|
  {
    if ops == [] then [] else Output(s, ops[0]) + AllOutput(Apply(s, ops[0]), ops[1..])
  }

  function AllInput(s: Stream, ops: seq<Operation>): seq<byte>
    requires s.Valid()
    decreases |ops|
  {
    if ops == [] then [] else Input(s, ops[0]) + AllInput(Apply(s, ops[0]), ops[1..])
  }

  function ApplyAll(s: Stream, ops: seq<Operation>): (s': Stream)
    requires s.Valid()
    ensures s'.Valid()
    decreases |ops|
  {
    if ops == [] then s else ApplyAll(Apply(s, ops[0]), ops[1..])
  }

  lemma StepIsFifo(s: Stream, op: Operation)
    requires s.Valid()
    ensures s.Unread() + Input(s, op) == Output(s, op) + Apply(s, op).Unread()
  {
  }

  /** A stream is finished exactly when its Writer has closed it and no further read yields a byte. */
  lemma FinishedIff(s: Stream)
    requires s.Valid()
    ensures s.Finished() <==> s.closed && forall maxLen: nat :: Output(s, Read(maxLen)) == []
  {
    if forall maxLen: nat :: Output(s, Read(maxLen)) == [] {
      assert Output(s, Read(1)) == [];
    }
  }

  /** Chaining two conservation equations w + i == o + m and m + i' == o' + u. */
  lemma Chain(w: seq<byte>, i: seq<byte>, o: seq<byte>, m: seq<byte>, i': seq<byte>, o': seq<byte>, u: seq<byte>)
    requires w + i == o + m && m + i' == o' + u
    ensures w + (i + i') == (o + o') + u
  {
    assert w + (i + i') == (w + i) + i';
    assert (o + m) + i' == o + (m + i');
    assert o + (o' + u) == (o + o') + u;
  }

  /**
   * First in, first out over every run: what was waiting plus what the Writer was granted is what
   * the Reader read plus what still waits; never more than capacity waits; nothing follows a close.
   */
  lemma {:induction false} StreamIsFifo(s: Stream, ops: seq<Operation>)
    requires s.Valid()
    ensures var s' := ApplyAll(s, ops);
            && s.Unread() + AllInput(s, ops) == AllOutput(s, ops) + s'.Unread()
            && |s'.Unread()| <= s.capacity
            && (s.closed ==> s'.closed && AllInput(s, ops) == [])
    decreases |ops|
  {
    if ops == [] {
      assert s.Unread() + [] == [] + s.Unread();
    } else {
      var s1 := Apply(s, ops[0]);
      StepIsFifo(s, ops[0]);
      StreamIsFifo(s1, ops[1..]);
      Chain(s.Unread(), Input(s, ops[0]), Output(s, ops[0]), s1.Unread(),
            AllInput(s1, ops[1..]), AllOutput(s1, ops[1..]), ApplyAll(s1, ops[1..]).Unread());
    }
  }
}
