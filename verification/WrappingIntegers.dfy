/**
 * 32-bit wire sequence numbers and their 64-bit absolute positions (RFC 9293, section 3.4). A wire number
 * stands for one position in every cycle of 2^32; decoding looks at the checkpoint's cycle and the two next
 * to it.
 */
module WrappingIntegers {
  import opened Words

  function Wrap(absolute: nat, zeroPoint: uint32): uint32 {
    (zeroPoint + absolute) % MOD32
  }

  function Distance(a: nat, b: nat): nat {
    if a > b then a - b else b - a
  }

  /** The place of a wire value inside its 2^32 cycle. */
  function Offset(value: uint32, zeroPoint: uint32): uint32 {
    (value - zeroPoint) % MOD32
  }

  function Unwrap(value: uint32, zeroPoint: uint32, checkpoint: nat): nat {
    var offset := Offset(value, zeroPoint);
    var cycle := checkpoint / MOD32;
    var pos0 := cycle * MOD32 + offset;
    var pos1 := if cycle > 0 && Distance((cycle - 1) * MOD32 + offset, checkpoint) <= Distance(pos0, checkpoint)
                then (cycle - 1) * MOD32 + offset else pos0;
    if cycle < (MOD64 - 1) / MOD32 && Distance((cycle + 1) * MOD32 + offset, checkpoint) < Distance(pos1, checkpoint)
    then (cycle + 1) * MOD32 + offset else pos1
  }

  /** Absolute position x shows up on the wire as value. */
  predicate Represents(x: nat, value: uint32, zeroPoint: uint32) {
    Wrap(x, zeroPoint) == value
  }

  /** r is nearer to the checkpoint than x, or as near and not larger. */
  predicate NoFarther(r: nat, x: nat, checkpoint: nat) {
    || Distance(r, checkpoint) < Distance(x, checkpoint)
    || (Distance(r, checkpoint) == Distance(x, checkpoint) && r <= x)
  }

  lemma RepresentsIffOffset(x: nat, value: uint32, zeroPoint: uint32)
    ensures Represents(x, value, zeroPoint) <==> x % MOD32 == Offset(value, zeroPoint)
  {
  }

  /**
   * Unwrap is the optimal decoder at every 64-bit checkpoint: its result fits 64 bits and has
   * the given wire form; no other 64-bit position with that wire form is nearer, and a tie
   * goes to the smaller one.
   */
  lemma UnwrapIsNearest(value: uint32, zeroPoint: uint32, checkpoint: uint64)
    ensures var r := Unwrap(value, zeroPoint, checkpoint);
            && r < MOD64
            && Represents(r, value, zeroPoint)
            && forall x: uint64 :: Represents(x, value, zeroPoint) ==>
                 NoFarther(r, x, checkpoint)
  {
    var r := Unwrap(value, zeroPoint, checkpoint);
    UnwrapFits(value, zeroPoint, checkpoint);
    WrapOfUnwrap(value, zeroPoint, checkpoint);
    forall x: uint64 | Represents(x, value, zeroPoint)
      ensures NoFarther(r, x, checkpoint)
    {
      RepresentsIffOffset(x, value, zeroPoint);
      NoNearerCycle(value, zeroPoint, checkpoint, x / MOD32);
    }
  }

  /** No candidate the search computes under its guards leaves the 64-bit range, and so neither does its result. */
  lemma UnwrapFits(value: uint32, zeroPoint: uint32, checkpoint: uint64)
    ensures var offset, cycle := Offset(value, zeroPoint), checkpoint / MOD32;
            && cycle * MOD32 + offset < MOD64
            && (cycle > 0 ==> 0 <= (cycle - 1) * MOD32 + offset < MOD64)
            && (cycle < (MOD64 - 1) / MOD32 ==> (cycle + 1) * MOD32 + offset < MOD64)
    ensures Unwrap(value, zeroPoint, checkpoint) < MOD64
  {
  }

  /** No cycle holds a better candidate than the one Unwrap chose among three neighbours. */
  lemma NoNearerCycle(value: uint32, zeroPoint: uint32, checkpoint: uint64, cycle: nat)
    requires cycle < MOD32
    ensures var x := cycle * MOD32 + Offset(value, zeroPoint);
            var r := Unwrap(value, zeroPoint, checkpoint);
            NoFarther(r, x, checkpoint)
  {
  }

  /** Encoding a decoded value gives the value back, whatever the checkpoint. */
  lemma WrapOfUnwrap(value: uint32, zeroPoint: uint32, checkpoint: nat)
    ensures Wrap(Unwrap(value, zeroPoint, checkpoint), zeroPoint) == value
  {
    RepresentsIffOffset(Unwrap(value, zeroPoint, checkpoint), value, zeroPoint);
  }

  /**
   * Decoding an encoded position gives the position back exactly when the checkpoint is at most
   * 2^31 ahead (or no later 64-bit position shares its wire form) and less than 2^31 behind
   * (or no earlier position shares its wire form).
   */
  lemma UnwrapOfWrap(absolute: uint64, zeroPoint: uint32, checkpoint: uint64)
    ensures Unwrap(Wrap(absolute, zeroPoint), zeroPoint, checkpoint) == absolute
       <==> && (checkpoint <= absolute + HALF32 || absolute + MOD32 >= MOD64)
            && (absolute < checkpoint + HALF32 || absolute < MOD32)
  {
    RepresentsIffOffset(absolute, Wrap(absolute, zeroPoint), zeroPoint);
    UnwrapOfCycle(Wrap(absolute, zeroPoint), zeroPoint, checkpoint, absolute / MOD32);
  }

  lemma UnwrapOfCycle(value: uint32, zeroPoint: uint32, checkpoint: uint64, cycle: nat)
    requires cycle < MOD32
    ensures var x := cycle * MOD32 + Offset(value, zeroPoint);
            (Unwrap(value, zeroPoint, checkpoint) == x
             <==> (checkpoint <= x + HALF32 || x + MOD32 >= MOD64) && (x < checkpoint + HALF32 || x < MOD32))
  {
    var here := checkpoint / MOD32;
    if cycle + 1 < here || here + 1 < cycle {
    } else if cycle == here {
    } else {
      assert cycle + 1 == here || cycle == here + 1;
    }
  }

  /** The usual case: the checkpoint is within half the 32-bit space of the position. */
  lemma UnwrapNearby(absolute: uint64, zeroPoint: uint32, checkpoint: uint64)
    requires checkpoint <= absolute + HALF32 && absolute < checkpoint + HALF32
    ensures Unwrap(Wrap(absolute, zeroPoint), zeroPoint, checkpoint) == absolute
  {
  }

  lemma SameResidue(x: int, y: int, cycles: int)
    requires x == y + cycles * MOD32
    ensures x % MOD32 == y % MOD32
  {
  }

  /** Renumbering a wire position from one zero point to another shifts it by the distance of the two. */
  lemma OffsetOfWrap(absolute: nat, zeroPoint: uint32, reference: uint32)
    ensures Offset(Wrap(absolute, zeroPoint), reference) == (absolute + Offset(zeroPoint, reference)) % MOD32
    ensures Offset(Wrap(absolute, zeroPoint), reference) == (absolute - Offset(reference, zeroPoint)) % MOD32
  {
    var cycles := (zeroPoint + absolute) / MOD32;
    var borrow := if zeroPoint < reference then 1 else 0;
    assert Offset(zeroPoint, reference) == zeroPoint - reference + borrow * MOD32;
    SameResidue(absolute + Offset(zeroPoint, reference), Wrap(absolute, zeroPoint) - reference, cycles + borrow);
    var borrow' := if reference < zeroPoint then 1 else 0;
    assert Offset(reference, zeroPoint) == reference - zeroPoint + borrow' * MOD32;
    SameResidue(absolute - Offset(reference, zeroPoint), Wrap(absolute, zeroPoint) - reference, cycles - borrow');
  }

  /** Only the distance of a wire value from its zero point matters, not the zero point. */
  lemma UnwrapShift(v1: uint32, z1: uint32, v2: uint32, z2: uint32, checkpoint: nat)
    requires Offset(v1, z1) == Offset(v2, z2)
    ensures Unwrap(v1, z1, checkpoint) == Unwrap(v2, z2, checkpoint)
  {
  }
}
