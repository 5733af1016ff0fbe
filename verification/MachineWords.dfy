/** Machine words and small notions shared by the other modules. */
module MachineWords {
  const TWO_TO_THE_31: nat := 0x8000_0000
  const TWO_TO_THE_32: nat := 0x1_0000_0000
  const TWO_TO_THE_63: nat := 0x8000_0000_0000_0000
  const TWO_TO_THE_64: nat := 0x1_0000_0000_0000_0000

  type Byte = n: nat | n < 256

  /** Subtraction of 64-bit words. */
  function Sub64(a: nat, b: nat): nat
    requires a < TWO_TO_THE_64 && b < TWO_TO_THE_64
  {
    if a >= b then a - b else TWO_TO_THE_64 + a - b
  }

  function Min(a: int, b: int): int { if a < b then a else b }

  predicate NoDuplicates(s: seq<int>) { forall i, j :: 0 <= i < j < |s| ==> s[i] != s[j] }
}
