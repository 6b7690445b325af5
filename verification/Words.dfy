/** The machine words of the C++ and C# sources, and an optional value. */
module Words {
  const MOD32: nat := 0x1_0000_0000
  const HALF32: nat := 0x8000_0000
  const MOD64: nat := 0x1_0000_0000_0000_0000

  newtype byte = x: int | 0 <= x < 0x100

  type uint16 = x: nat | x < 0x1_0000
  type uint32 = x: nat | x < MOD32
  type uint64 = x: nat | x < MOD64

  datatype Option<+T> = None | Some(value: T)

  function Min(a: nat, b: nat): nat { if a <= b then a else b }

  function Max(a: nat, b: nat): nat { if a <= b then b else a }

  lemma Reassociate<T>(a: seq<T>, b: seq<T>, c: seq<T>)
    ensures a + b + c == a + (b + c)
  {
  }
}
