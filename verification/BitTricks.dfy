/**
 The bit-manipulation macros of the allocator, on the generic (non-x86) branches:
 bin maps, bin indices and the bit keys that steer the tree walks.
 */
module BitTricks {
  import opened MachineWords

  type BinIndex = i: nat | i < 32

  const NTREEBINS: nat := 32

  // ---------- powers of two

  /** 2^n, used to read shifts as multiplications and divisions. */
  function Pow2(n: nat): (r: nat)
    ensures r >= 1
  {
    if n == 0 then 1 else 2 * Pow2(n - 1)
  }

  lemma {:induction false} PowSucc(n: nat)
    ensures Pow2(n + 1) == 2 * Pow2(n)
  {}

  lemma {:induction false} PowAdd(a: nat, b: nat)
    ensures Pow2(a) * Pow2(b) == Pow2(a + b)
  {
    if a == 0 {
    } else {
      PowAdd(a - 1, b);
      assert Pow2(a) * Pow2(b) == 2 * (Pow2(a - 1) * Pow2(b));
    }
  }

  lemma {:induction false} PowValues()
    ensures Pow2(16) == 0x1_0000 && Pow2(22) == 0x40_0000 && Pow2(23) == 0x80_0000 && Pow2(32) == TWO_TO_THE_32
    ensures Pow2(63) == TWO_TO_THE_63 && Pow2(64) == TWO_TO_THE_64
  {
    assert Pow2(8) == 0x100;
    PowAdd(8, 8);
    PowAdd(16, 8);
    PowAdd(16, 16);
    PowAdd(32, 32);
    assert Pow2(24) == 2 * Pow2(23) == 4 * Pow2(22);
    assert Pow2(64) == 2 * Pow2(63);
  }

  // ---------- machine words, as naturals below a power of two

  /** Bit `i` of a word. */
  predicate Bit(x: nat, i: nat) {
    if i == 0 then x % 2 == 1 else Bit(x / 2, i - 1)
  }

  /** Bitwise and. */
  function And(x: nat, y: nat): nat {
    if x == 0 || y == 0 then 0 else 2 * And(x / 2, y / 2) + (if x % 2 == 1 && y % 2 == 1 then 1 else 0)
  }

  /** Bitwise or. */
  function Or(x: nat, y: nat): nat {
    if x == 0 then y else if y == 0 then x
    else 2 * Or(x / 2, y / 2) + (if x % 2 == 1 || y % 2 == 1 then 1 else 0)
  }

  /** One's complement of a 32-bit word. */
  function Not(x: nat): nat
    requires x < TWO_TO_THE_32
  {
    TWO_TO_THE_32 - 1 - x
  }

  /** Unsigned negation of an n-bit word. */
  function Neg(x: nat, n: nat): nat
    requires x < Pow2(n)
  {
    if x == 0 then 0 else Pow2(n) - x
  }

  function Shl(x: nat, s: nat): nat { (x * Pow2(s)) % TWO_TO_THE_32 }

  function Shr(x: nat, s: nat): nat {
    Quotient(x, Pow2(s));
    x / Pow2(s)
  }

  lemma {:induction false} BitOfZero(i: nat)
    ensures !Bit(0, i)
  {
    if i > 0 { BitOfZero(i - 1); }
  }

  lemma {:induction false} BitOfAnd(x: nat, y: nat, i: nat)
    ensures Bit(And(x, y), i) <==> Bit(x, i) && Bit(y, i)
  {
    BitOfZero(i);
    if x != 0 && y != 0 && i > 0 { BitOfAnd(x / 2, y / 2, i - 1); }
  }

  lemma {:induction false} BitOfOr(x: nat, y: nat, i: nat)
    ensures Bit(Or(x, y), i) <==> Bit(x, i) || Bit(y, i)
  {
    BitOfZero(i);
    if x != 0 && y != 0 && i > 0 { BitOfOr(x / 2, y / 2, i - 1); }
  }

  lemma {:induction false} OrBelow(x: nat, y: nat, n: nat)
    requires x < Pow2(n) && y < Pow2(n)
    ensures Or(x, y) < Pow2(n)
  {
    if x != 0 && y != 0 { OrBelow(x / 2, y / 2, n - 1); }
  }

  lemma {:induction false} AndBelow(x: nat, y: nat)
    ensures And(x, y) <= x && And(x, y) <= y
  {
    if x != 0 && y != 0 { AndBelow(x / 2, y / 2); }
  }

  lemma {:induction false} ComplementStep(x: nat, n: nat, v: nat)
    requires n > 0 && x < Pow2(n) && v == Pow2(n) - 1 - x
    ensures v % 2 == 1 - x % 2 && v / 2 == Pow2(n - 1) - 1 - x / 2 && x / 2 < Pow2(n - 1)
  {
    PowSucc(n - 1);
    HalfComplement(x, Pow2(n - 1), v);
  }

  lemma {:induction false} HalfComplement(x: nat, p: nat, v: nat)
    requires x < 2 * p && v == 2 * p - 1 - x
    ensures v % 2 == 1 - x % 2 && v / 2 == p - 1 - x / 2 && x / 2 < p
  {}

  lemma {:induction false} BitOfComplement(x: nat, n: nat, i: nat, v: nat)
    requires x < Pow2(n) && i < n && v == Pow2(n) - 1 - x
    ensures Bit(v, i) <==> !Bit(x, i)
    decreases i
  {
    ComplementStep(x, n, v);
    if i > 0 { BitOfComplement(x / 2, n - 1, i - 1, v / 2); }
  }

  lemma {:induction false} BitOfPower(k: nat, i: nat)
    ensures Bit(Pow2(k), i) <==> i == k
    ensures Bit(Pow2(k) - 1, i) <==> i < k
  {
    BitOfZero(if i > 0 then i - 1 else 0);
    BitOfZero(i);
    if k > 0 && i > 0 {
      assert (Pow2(k) - 1) / 2 == Pow2(k - 1) - 1;
      BitOfPower(k - 1, i - 1);
    }
  }

  lemma {:induction false} BitsAbove(x: nat, n: nat, i: nat)
    requires x < Pow2(n) && n <= i
    ensures !Bit(x, i)
  {
    if n == 0 { BitOfZero(i); } else { BitsAbove(x / 2, n - 1, i - 1); }
  }

  lemma {:induction false} ZeroWord(x: nat, n: nat)
    requires x < Pow2(n) && forall i: nat :: i < n ==> !Bit(x, i)
    ensures x == 0
  {
    if n > 0 {
      assert !Bit(x, 0);
      forall i: nat | i < n - 1 ensures !Bit(x / 2, i) { assert !Bit(x, i + 1); }
      ZeroWord(x / 2, n - 1);
    }
  }

  lemma {:induction false} HalfOfQuotient(x: nat, p: nat)
    requires p > 0
    ensures (x / 2) / p == x / (2 * p)
  {
    Quotient(x / 2, p);
    var q, r := (x / 2) / p, (x / 2) % p;
    assert x == (2 * p) * q + (2 * r + x % 2);
    UniqueQuotient(x, 2 * p, q, 2 * r + x % 2);
  }

  lemma {:induction false} Quotient(n: nat, p: nat)
    requires p > 0
    ensures n == p * (n / p) + n % p && 0 <= n % p < p && 0 <= n / p
  {}

  lemma {:induction false} UniqueQuotient(n: nat, p: nat, q: nat, r: nat)
    requires n == p * q + r && r < p
    ensures n / p == q && n % p == r
  {
    Quotient(n, p);
    var d := n / p - q;
    assert p * d == r - n % p by { assert p * (n / p) - p * q == p * d; }
    assert d == 0 by { SmallMultiple(p, d); }
  }

  lemma {:induction false} SmallMultiple(p: int, d: int)
    requires -p < p * d < p
    ensures d == 0
  {}

  lemma {:induction false} BitOfShr(x: nat, s: nat, i: nat)
    ensures Bit(Shr(x, s), i) <==> Bit(x, s + i)
  {
    if s > 0 {
      HalfOfQuotient(x, Pow2(s - 1));
      BitOfShr(x / 2, s - 1, i);
    }
  }

  lemma {:induction false} BitOfProduct(x: nat, s: nat, i: nat)
    ensures Bit(x * Pow2(s), i) <==> s <= i && Bit(x, i - s)
  {
    if s > 0 {
      assert x * Pow2(s) == 2 * (x * Pow2(s - 1));
      if i > 0 { BitOfProduct(x, s - 1, i - 1); }
    }
  }

  lemma {:induction false} ModStep(x: nat, n: nat, v: nat)
    requires n > 0 && v == x % Pow2(n)
    ensures v % 2 == x % 2 && v / 2 == (x / 2) % Pow2(n - 1)
  {
    HalfOfMod(x, Pow2(n - 1));
  }

  lemma {:induction false} BitOfMod(x: nat, n: nat, i: nat, v: nat)
    requires i < n && v == x % Pow2(n)
    ensures Bit(v, i) <==> Bit(x, i)
    decreases i
  {
    ModStep(x, n, v);
    if i > 0 { BitOfMod(x / 2, n - 1, i - 1, v / 2); }
  }

  lemma {:induction false} HalfOfMod(x: nat, p: nat)
    requires p > 0
    ensures x % (2 * p) == 2 * ((x / 2) % p) + x % 2
  {
    Quotient(x / 2, p);
    var q, r := (x / 2) / p, (x / 2) % p;
    assert x == (2 * p) * q + (2 * r + x % 2);
    UniqueQuotient(x, 2 * p, q, 2 * r + x % 2);
  }

  lemma {:induction false} BitOfShl(x: nat, s: nat, i: BinIndex)
    ensures Bit(Shl(x, s), i) <==> s <= i && Bit(x, i - s)
  {
    PowValues();
    BitOfMod(x * Pow2(s), 32, i, Shl(x, s));
    BitOfProduct(x, s, i);
  }

  // ---------- bin maps: 32-bit words whose bits say which bins are non-empty

  type BinMap = m: nat | m < TWO_TO_THE_32

  ghost predicate Marked(m: BinMap, i: BinIndex) { Bit(m, i) }

  /** idx2bit. */
  function IdxToBit(i: BinIndex): BinMap {
    PowBelow(i, 32);
    Pow2(i)
  }

  /** least_bit: `x & -x`. */
  function LeastBit(x: BinMap): nat {
    PowValues();
    And(x, Neg(x, 32))
  }

  /** left_bits: `(x << 1) | -(x << 1)`. */
  function LeftBits(x: BinMap): nat {
    PowValues();
    Or(Shl(x, 1), Neg(Shl(x, 1), 32))
  }

  lemma {:induction false} PowBelow(i: nat, n: nat)
    requires i < n
    ensures Pow2(i) < Pow2(n)
    ensures n == 32 ==> Pow2(i) < TWO_TO_THE_32
  {
    if i < n - 1 { PowBelow(i, n - 1); }
    PowValues();
  }

  /** mark_smallmap / mark_treemap. */
  method MarkBin(m: BinMap, i: BinIndex) returns (m': BinMap)
    ensures forall j: BinIndex :: Marked(m', j) <==> i == j || Marked(m, j)
  {
    PowValues();
    OrBelow(m, IdxToBit(i), 32);
    m' := Or(m, IdxToBit(i));
    forall j: BinIndex ensures Marked(m', j) <==> i == j || Marked(m, j) {
      BitOfOr(m, IdxToBit(i), j);
      BitOfPower(i, j);
    }
  }

  /** clear_smallmap / clear_treemap. */
  method ClearBin(m: BinMap, i: BinIndex) returns (m': BinMap)
    ensures forall j: BinIndex :: Marked(m', j) <==> i != j && Marked(m, j)
  {
    AndBelow(m, Not(IdxToBit(i)));
    m' := And(m, Not(IdxToBit(i)));
    forall j: BinIndex ensures Marked(m', j) <==> i != j && Marked(m, j) {
      PowValues();
      BitOfAnd(m, Not(IdxToBit(i)), j);
      BitOfComplement(IdxToBit(i), 32, j, Not(IdxToBit(i)));
      BitOfPower(i, j);
    }
  }

  /** smallmap_is_marked / treemap_is_marked. */
  method IsMarked(m: BinMap, i: BinIndex) returns (b: bool)
    ensures b <==> Marked(m, i)
  {
    b := And(m, IdxToBit(i)) != 0;
    BitOfAnd(m, IdxToBit(i), i);
    BitOfPower(i, i);
    if b {
      AndBelow(m, IdxToBit(i));
      PowValues();
      if !Marked(m, i) {
        forall j: nat | j < 32 ensures !Bit(And(m, IdxToBit(i)), j) {
          BitOfAnd(m, IdxToBit(i), j);
          BitOfPower(i, j);
        }
        ZeroWord(And(m, IdxToBit(i)), 32);
      }
    } else {
      BitOfZero(i);
    }
  }

  lemma {:induction false} EmptyMap(m: BinMap)
    ensures m == 0 <==> forall j: BinIndex :: !Marked(m, j)
  {
    PowValues();
    if m == 0 {
      forall j: BinIndex ensures !Marked(m, j) { BitOfZero(j); }
    } else if forall j: BinIndex :: !Marked(m, j) {
      forall j: nat | j < 32 ensures !Bit(m, j) { var k: BinIndex := j; assert !Marked(m, k); }
      ZeroWord(m, 32);
    }
  }

  lemma {:induction false} ShiftedByOne(i: BinIndex)
    ensures Shl(IdxToBit(i), 1) == if i == 31 then 0 else Pow2(i + 1)
    ensures i < 31 ==> 0 < Pow2(i + 1) < TWO_TO_THE_32 == Pow2(32)
  {
    PowValues();
    assert Pow2(1) == 2;
    if i < 31 { PowBelow(i + 1, 32); }
  }

  lemma {:induction false} BitsOfMask(k: nat, j: BinIndex)
    requires 0 < k < 32
    ensures Pow2(k) < Pow2(32) == TWO_TO_THE_32
    ensures Or(Pow2(k), Neg(Pow2(k), 32)) < TWO_TO_THE_32
    ensures Bit(Or(Pow2(k), Neg(Pow2(k), 32)), j) <==> k <= j
  {
    PowValues();
    PowBelow(k, 32);
    var x := Pow2(k);
    OrBelow(x, Neg(x, 32), 32);
    BitOfOr(x, Neg(x, 32), j);
    BitOfPower(k, j);
    BitOfComplement(x - 1, 32, j, Neg(x, 32));
  }

  lemma {:induction false} BitsOfLeft(i: BinIndex, j: BinIndex)
    ensures LeftBits(IdxToBit(i)) < TWO_TO_THE_32
    ensures Bit(LeftBits(IdxToBit(i)), j) <==> i < j
  {
    ShiftedByOne(i);
    if i == 31 { BitOfZero(j); } else { BitsOfMask(i + 1, j); }
  }

  /** `left_bits(idx2bit(i)) & m` keeps exactly the marked bins after `i`. */
  method BinsAfter(m: BinMap, i: BinIndex) returns (m': BinMap)
    ensures forall j: BinIndex :: Marked(m', j) <==> i < j && Marked(m, j)
  {
    AndBelow(LeftBits(IdxToBit(i)), m);
    m' := And(LeftBits(IdxToBit(i)), m);
    forall j: BinIndex ensures Marked(m', j) <==> i < j && Marked(m, j) {
      BitsOfLeft(i, j);
      BitOfAnd(LeftBits(IdxToBit(i)), m, j);
    }
  }

  lemma {:induction false} AndWithComplement(x: nat, n: nat)
    requires x < Pow2(n)
    ensures And(x, Pow2(n) - 1 - x) == 0
  {
    if x != 0 && n > 0 {
      assert (Pow2(n) - 1 - x) / 2 == Pow2(n - 1) - 1 - x / 2;
      AndWithComplement(x / 2, n - 1);
    }
  }

  /** `x & -x` isolates the lowest set bit, for words of any width. */
  lemma {:induction false} IsolatedBit(x: nat, n: nat) returns (k: nat)
    requires 0 < x < Pow2(n)
    ensures k < n && And(x, Neg(x, n)) == Pow2(k) && Bit(x, k)
    ensures forall j: nat :: j < k ==> !Bit(x, j)
  {
    if x % 2 == 1 {
      k := 0;
      assert Neg(x, n) / 2 == Pow2(n - 1) - 1 - x / 2;
      AndWithComplement(x / 2, n - 1);
    } else {
      k := IsolatedBit(x / 2, n - 1);
      assert Neg(x, n) / 2 == Neg(x / 2, n - 1);
      forall j: nat | j < k + 1 ensures !Bit(x, j) { if j > 0 { assert !Bit(x / 2, j - 1); } }
      k := k + 1;
    }
  }

  lemma {:induction false} OnesSplit(p: nat, q: nat)
    requires p > 0 && q > 0
    ensures p * q - 1 == p * (q - 1) + (p - 1)
  {}

  lemma {:induction false} ShrOfOnes(n: nat, c: nat)
    ensures c <= n ==> Shr(Pow2(n) - 1, c) == Pow2(n - c) - 1
    ensures n < c ==> Shr(Pow2(n) - 1, c) == 0
  {
    if c <= n {
      PowAdd(c, n - c);
      OnesSplit(Pow2(c), Pow2(n - c));
      UniqueQuotient(Pow2(n) - 1, Pow2(c), Pow2(n - c) - 1, Pow2(c) - 1);
    } else {
      PowBelow(n, c);
      UniqueQuotient(Pow2(n) - 1, Pow2(c), 0, Pow2(n) - 1);
    }
  }

  /** One step of compute_bit2idx; its mask selects a single bit, so `Y >> 12 & 16` is 16 times bit 16 of Y. */
  method HalveSearch(y: nat, c: nat, ghost n: nat) returns (k: nat, y': nat)
    requires y == Pow2(n) - 1 && n <= 2 * c
    ensures k <= n <= k + c && y' == Pow2(n - k) - 1
  {
    ShrOfOnes(n, c);
    if n > c { PowSucc(n - c - 1); }
    assert Shr(y, c) % 2 == if n > c then 1 else 0;
    k := c * (Shr(y, c) % 2);
    ShrOfOnes(n, k);
    y' := Shr(y, k);
  }

  /** compute_bit2idx: a five-step binary search for the position of an isolated bit. */
  method BitToIdx(x: nat, ghost i: BinIndex) returns (idx: BinIndex)
    requires x == IdxToBit(i)
    ensures idx == i
  {
    var y := x - 1;
    var n, k := 0, 0;
    k, y := HalveSearch(y, 16, i);
    n := n + k;
    k, y := HalveSearch(y, 8, i - n);
    n := n + k;
    k, y := HalveSearch(y, 4, i - n);
    n := n + k;
    k, y := HalveSearch(y, 2, i - n);
    n := n + k;
    k, y := HalveSearch(y, 1, i - n);
    n := n + k;
    idx := n + y;
  }

  /** `compute_bit2idx(least_bit(m), i)` finds the first marked bin. */
  method LeastIndex(m: BinMap) returns (i: BinIndex)
    requires m != 0
    ensures Marked(m, i)
    ensures forall j: BinIndex :: j < i ==> !Marked(m, j)
  {
    PowValues();
    ghost var k := IsolatedBit(m, 32);
    i := BitToIdx(LeastBit(m), k);
  }

  lemma {:induction false} LowTwoBits(x: nat)
    ensures And(x, 3) != 0 <==> Bit(x, 0) || Bit(x, 1)
  {
    if x != 0 {
      assert And(x, 3) == 2 * And(x / 2, 1) + x % 2;
      assert x / 2 != 0 ==> And(x / 2, 1) == (x / 2) % 2;
    }
  }

  /** The small-request look at bins `i` and `i + 1`, through `smallbits = smallmap >> i`. */
  method RemainderlessBin(m: BinMap, i: BinIndex) returns (found: bool, j: BinIndex)
    requires i < 31
    ensures found <==> Marked(m, i) || Marked(m, i + 1)
    ensures j == if Marked(m, i) then i else i + 1
  {
    var smallbits := Shr(m, i);
    LowTwoBits(smallbits);
    BitOfShr(m, i, 0);
    BitOfShr(m, i, 1);
    found := And(smallbits, 3) != 0;
    j := i + (1 - smallbits % 2);
  }

  /** `smallbits != 0`: some bin from `i` on is marked. */
  method AnyFrom(m: BinMap, i: BinIndex) returns (any: bool)
    ensures any <==> exists j: BinIndex :: i <= j && Marked(m, j)
  {
    var smallbits := Shr(m, i);
    any := smallbits != 0;
    Quotient(m, Pow2(i));
    EmptyMap(smallbits) by { assert smallbits <= m by { QuotientBelow(m, Pow2(i)); } }
    if any {
      ghost var k: BinIndex :| Marked(smallbits, k);
      BitOfShr(m, i, k);
      if i + k >= 32 { PowValues(); BitsAbove(m, 32, i + k); }
      ghost var j: BinIndex := i + k;
      assert i <= j && Marked(m, j);
    } else {
      forall j: BinIndex | i <= j ensures !Marked(m, j) {
        BitOfShr(m, i, j - i);
        BitOfZero(j - i);
      }
    }
  }

  lemma {:induction false} QuotientBelow(x: nat, p: nat)
    requires p > 0
    ensures x / p <= x
  {
    Quotient(x, p);
    ProductOrder(x / p, 1, p);
  }

  lemma {:induction false} ProductOrder(p: nat, a: nat, b: nat)
    ensures a <= b ==> p * a <= p * b
    ensures b <= a ==> p * b <= p * a
  {}

  /** `(smallbits << i) & left_bits(idx2bit(i))`: the marked bins after `i`. */
  method LargerSmallBins(m: BinMap, i: BinIndex) returns (leftbits: BinMap)
    ensures forall j: BinIndex :: Marked(leftbits, j) <==> i < j && Marked(m, j)
  {
    var back := Shl(Shr(m, i), i);
    forall j: BinIndex | i <= j ensures Marked(back, j) <==> Marked(m, j) {
      BitOfShl(Shr(m, i), i, j);
      BitOfShr(m, i, j - i);
    }
    leftbits := BinsAfter(back, i);
  }

  // ---------- tree bin indices

  /** minsize_for_tree_index: the smallest size kept in tree bin `i`. */
  function MinSize(i: nat): nat {
    Pow2(i / 2 + 8) + (if i % 2 == 1 then Pow2(i / 2 + 7) else 0)
  }

  /** The bin of a size, as documented: the last bin whose smallest size does not exceed it. */
  function BinFrom(size: nat, i: BinIndex): BinIndex
    decreases 32 - i
  {
    if i == 31 || size < MinSize(i + 1) then i else BinFrom(size, i + 1)
  }

  function TreeBin(size: nat): BinIndex { BinFrom(size, 0) }

  lemma {:induction false} SmallPowers()
    ensures Pow2(1) == 2 && Pow2(2) == 4 && Pow2(4) == 0x10 && Pow2(8) == 0x100
    ensures Pow2(14) == 0x4000 && Pow2(15) == 0x8000 && Pow2(16) == 0x1_0000
  {
    assert Pow2(8) == 0x100;
    PowAdd(8, 6);
    assert Pow2(6) == 0x40;
  }

  /** `(Y - t) >> 16 & c` for a single-bit mask `c`: the wrapped difference has bit `u` exactly when Y < t. */
  lemma {:induction false} WrappedDifference(y: nat, t: nat, u: nat)
    requires y <= 0xFFFF && (t == 0x100 || t == 0x1000 || t == 0x4000)
    requires u == 0x8_0000 || u == 0x4_0000 || u == 0x2_0000
    ensures (y - t) % TWO_TO_THE_32 / u % 2 == if y < t then 1 else 0
  {
    if y < t { HighBit(y - t + TWO_TO_THE_32, u); }
  }

  lemma {:induction false} HighBit(w: nat, u: nat)
    requires 0xFFFF_0000 <= w < TWO_TO_THE_32 && (u == 0x8_0000 || u == 0x4_0000 || u == 0x2_0000)
    ensures w / u % 2 == 1
  {
    assert w / 0x2_0000 == 0x7FFF;
  }

  lemma {:induction false} ShiftTwice(x: nat, n: nat, k: nat)
    ensures x * Pow2(n) * Pow2(k) == x * Pow2(n + k)
  {
    PowAdd(n, k);
    assert x * Pow2(n) * Pow2(k) == x * (Pow2(n) * Pow2(k));
  }

  /** One step of the leading-bit search: shift up by `c` when the value is below `t`. */
  method Normalize(y: nat, t: nat, c: nat, ghost x: nat, ghost n: nat) returns (k: nat, y': nat)
    requires y == x * Pow2(n)
    requires 0 < y <= 0xFFFF && ((t == 0x100 && c == 8) || (t == 0x1000 && c == 4) || (t == 0x4000 && c == 2))
    ensures k == if y < t then c else 0
    ensures y' == x * Pow2(n + k)
    ensures y <= y' <= 0xFFFF
    ensures t == 0x100 ==> y' >= 0x100
    ensures y >= 0x100 && t == 0x1000 ==> y' >= 0x1000
    ensures y >= 0x1000 && t == 0x4000 ==> y' >= 0x4000
  {
    hide Pow2;
    WrappedDifference(y, t, c * 0x1_0000);
    k := c * ((y - t) % TWO_TO_THE_32 / (c * 0x1_0000) % 2);
    assert k == if y < t then c else 0;
    StepUp(y, t, c, k);
    y' := y * Pow2(k);
    ShiftTwice(x, n, k);
  }

  lemma {:induction false} StepUp(y: nat, t: nat, c: nat, k: nat)
    requires y <= 0xFFFF && ((t == 0x100 && c == 8) || (t == 0x1000 && c == 4) || (t == 0x4000 && c == 2))
    requires k == if y < t then c else 0
    ensures y <= y * Pow2(k) <= 0xFFFF
    ensures t == 0x100 && y > 0 ==> y * Pow2(k) >= 0x100
    ensures y >= 0x100 && t == 0x1000 ==> y * Pow2(k) >= 0x1000
    ensures y >= 0x1000 && t == 0x4000 ==> y * Pow2(k) >= 0x4000
  {
    SmallPowers();
  }

  lemma {:induction false} LogOfNormalized(x: nat, n: nat)
    requires n <= 14 && 0x4000 <= x * Pow2(n) <= 0xFFFF
    ensures var k := 14 - n + x * Pow2(n) / 0x8000; k < 16 && Pow2(k) <= x < Pow2(k + 1)
  {
    SmallPowers();
    var p := Pow2(n);
    var e := x * p / 0x8000;
    PowAdd(n, 14 - n + e);
    PowAdd(n, 14 - n + e + 1);
    assert Pow2(14 + e) <= x * p < Pow2(14 + e + 1);
    Cancel(p, Pow2(14 - n + e), x);
    Cancel(p, x, Pow2(14 - n + e + 1));
    if n == 0 && e == 1 { assert Pow2(15) <= x; }
  }

  lemma {:induction false} Cancel(p: nat, a: nat, b: nat)
    ensures p * a < p * b ==> a < b
    ensures p > 0 && p * a <= p * b ==> a <= b
  {
    ProductOrder(p, b, a);
    if p > 0 && b < a { assert p * (b + 1) == p * b + p; ProductOrder(p, b + 1, a); }
  }

  /** The inner part of compute_tree_index: the integer logarithm of a 16-bit value, without branches. */
  method LeadingBit(x: nat) returns (k: nat)
    requires 0 < x <= 0xFFFF
    ensures k < 16 && Pow2(k) <= x < Pow2(k + 1)
  {
    var n, y := Normalize(x, 0x100, 8, x, 0);
    k, y := Normalize(y, 0x1000, 4, x, n);
    n := n + k;
    k, y := Normalize(y, 0x4000, 2, x, n);
    n := n + k;
    LogOfNormalized(x, n);
    k := 14 - n + y / 0x8000;
  }

  lemma {:induction false} HalvesOf(size: nat, p: nat)
    requires p > 0 && 2 * p <= size < 4 * p
    ensures size / p == if size < 3 * p then 2 else 3
  {
    Quotient(size, p);
    var q := size / p;
    ProductOrder(p, q, 4);
    ProductOrder(p, 1, q);
  }

  lemma {:induction false} IndexOfLog(size: nat, k: nat)
    requires Pow2(k) <= size / 256 < Pow2(k + 1)
    ensures MinSize(2 * k + (size / Pow2(k + 7)) % 2) <= size < MinSize(2 * k + (size / Pow2(k + 7)) % 2 + 1)
  {
    var p := Pow2(k + 7);
    assert Pow2(8) == 256;
    PowAdd(8, k);
    assert 2 * p <= size < 4 * p;
    HalvesOf(size, p);
  }

  lemma {:induction false} MinSizeStep(i: nat)
    ensures MinSize(i + 1) == MinSize(i) + Pow2(i / 2 + 7)
    ensures MinSize(i) == (2 + i % 2) * Pow2(i / 2 + 7)
  {
    var k := i / 2;
    PowSucc(k + 7);
    if i % 2 == 1 {
      assert (i + 1) / 2 == k + 1 && (i + 1) % 2 == 0;
      PowSucc(k + 8);
    } else {
      assert (i + 1) / 2 == k && (i + 1) % 2 == 1;
    }
  }

  lemma {:induction false} MinSizeMonotone(i: nat, j: nat)
    requires i <= j
    ensures MinSize(i) <= MinSize(j)
    ensures i < j ==> MinSize(i) < MinSize(j)
    decreases j - i
  {
    if i < j {
      MinSizeMonotone(i, j - 1);
      MinSizeStep(j - 1);
    }
  }

  /** A size lies in the range of its bin, and that range determines the bin. */
  lemma {:induction false} BinFromRange(size: nat, i: BinIndex)
    requires MinSize(i) <= size
    ensures MinSize(BinFrom(size, i)) <= size
    ensures BinFrom(size, i) < 31 ==> size < MinSize(BinFrom(size, i) + 1)
    ensures i <= BinFrom(size, i)
    decreases 32 - i
  {
    if i < 31 && size >= MinSize(i + 1) { BinFromRange(size, i + 1); }
  }

  lemma {:induction false} TreeBinRange(size: nat)
    requires 256 <= size
    ensures MinSize(TreeBin(size)) <= size
    ensures TreeBin(size) < 31 ==> size < MinSize(TreeBin(size) + 1)
  {
    SmallPowers();
    BinFromRange(size, 0);
  }

  lemma {:induction false} TreeBinUnique(size: nat, i: BinIndex)
    requires 256 <= size && MinSize(i) <= size && (i < 31 ==> size < MinSize(i + 1))
    ensures TreeBin(size) == i
  {
    TreeBinRange(size);
    var j := TreeBin(size);
    if i < j { MinSizeMonotone(i + 1, j); }
    if j < i { MinSizeMonotone(j + 1, i); }
  }

  lemma {:induction false} TreeBinMonotone(s: nat, t: nat)
    requires 256 <= s <= t
    ensures TreeBin(s) <= TreeBin(t)
  {
    TreeBinRange(s);
    TreeBinRange(t);
    if TreeBin(t) < TreeBin(s) { MinSizeMonotone(TreeBin(t) + 1, TreeBin(s)); }
  }

  lemma {:induction false} LastBin(size: nat)
    requires size / 256 > 0xFFFF
    ensures TreeBin(size) == NTREEBINS - 1
  {
    assert MinSize(31) <= size by { PowValues(); }
    TreeBinUnique(size, 31);
  }

  /** compute_tree_index: the bit tricks select the bin whose size range holds the size. */
  method ComputeTreeIndex(size: nat) returns (i: BinIndex)
    requires size < TWO_TO_THE_64
    ensures size < 256 ==> i == 0
    ensures size >= 256 ==> i == TreeBin(size)
  {
    var x := size / 256;
    if x == 0 {
      i := 0;
    } else if x > 0xFFFF {
      i := NTREEBINS - 1;
      LastBin(size);
    } else {
      i := IndexFromShifted(size, x);
    }
  }

  method IndexFromShifted(size: nat, x: nat) returns (i: BinIndex)
    requires x == size / 256 && 0 < x <= 0xFFFF
    ensures i == TreeBin(size)
  {
    var k := LeadingBit(x);
    i := 2 * k + (size / Pow2(k + 7)) % 2;
    IndexOfLog(size, k);
    TreeBinUnique(size, i);
  }

  // ---------- bit keys for the tree walks

  /** leftshift_for_tree_index. */
  function LeftShift(i: BinIndex): nat {
    if i == NTREEBINS - 1 then 0 else 63 - (i / 2 + 6)
  }

  /** A left shift of a 64-bit word. */
  function Shl64(x: nat, n: nat): nat { (x * Pow2(n)) % TWO_TO_THE_64 }

  /** `x <<= 1` on a 64-bit word. */
  function Double64(x: nat): nat { (2 * x) % TWO_TO_THE_64 }

  /** The top bit of a 64-bit word. */
  function TopBit(x: nat): nat { x / TWO_TO_THE_63 % 2 }

  /** Each tree bin covers 2^Width(i) sizes starting at Low(i); the last one is open-ended. */
  function Width(i: BinIndex): nat { 64 - LeftShift(i) }

  function Low(i: BinIndex): nat { if i == NTREEBINS - 1 then 0 else MinSize(i) }

  lemma {:induction false} BinCoefficient(i: BinIndex)
    requires i < 31
    ensures Low(i) == (2 + i % 2) * Pow2(Width(i))
    ensures MinSize(i + 1) == Low(i) + Pow2(Width(i))
  {
    MinSizeStep(i);
    assert Width(i) == i / 2 + 7;
  }

  lemma {:induction false} BinCovers(size: nat)
    requires 256 <= size < TWO_TO_THE_64
    ensures Low(TreeBin(size)) <= size < Low(TreeBin(size)) + Pow2(Width(TreeBin(size)))
  {
    TreeBinRange(size);
    var i := TreeBin(size);
    if i < 31 { BinCoefficient(i); } else { PowValues(); }
  }

  /** The walk key at a subtree covering [lo, lo + 2^w): the size's offset in the range, left-aligned. */
  ghost predicate KeyFor(key: nat, size: nat, lo: nat, w: nat) {
    w <= 64 && lo <= size < lo + Pow2(w) && key == (size - lo) * Pow2(64 - w)
  }

  lemma {:induction false} KeyBelow(d: nat, w: nat)
    requires w <= 64 && d < Pow2(w)
    ensures d * Pow2(64 - w) < TWO_TO_THE_64
  {
    PowAdd(w, 64 - w);
    PowValues();
    ProductBelow(d, Pow2(w), Pow2(64 - w));
  }

  lemma {:induction false} ProductBelow(d: nat, p: nat, q: nat)
    requires d < p && q > 0
    ensures d * q < p * q
  {}

  lemma {:induction false} ModOfSum(a: nat, c: int)
    requires a < TWO_TO_THE_64
    ensures (a + c * TWO_TO_THE_64) % TWO_TO_THE_64 == a
  {}

  lemma {:induction false} AlignedKey(size: nat, lo: nat, c: int, p: nat, q: nat)
    requires lo <= size && lo == c * p && p * q == TWO_TO_THE_64 && (size - lo) * q < TWO_TO_THE_64
    ensures (size * q) % TWO_TO_THE_64 == (size - lo) * q
  {
    assert lo * q == c * (p * q);
    assert size * q == (size - lo) * q + c * TWO_TO_THE_64;
    ModOfSum((size - lo) * q, c);
  }

  lemma {:induction false} FirstKey(size: nat, i: BinIndex)
    requires size < TWO_TO_THE_64 && Low(i) <= size < Low(i) + Pow2(Width(i))
    ensures KeyFor(Shl64(size, LeftShift(i)), size, Low(i), Width(i))
  {
    var w := Width(i);
    if i < 31 {
      BinCoefficient(i);
      KeyBelow(size - Low(i), w);
      PowAdd(w, 64 - w);
      PowValues();
      AlignedKey(size, Low(i), 2 + i % 2, Pow2(w), Pow2(64 - w));
    }
  }

  lemma {:induction false} DoubleKey(a: nat)
    requires a < TWO_TO_THE_64
    ensures a < TWO_TO_THE_63 ==> TopBit(a) == 0 && (2 * a) % TWO_TO_THE_64 == 2 * a
    ensures a >= TWO_TO_THE_63 ==> TopBit(a) == 1 && (2 * a) % TWO_TO_THE_64 == 2 * a - TWO_TO_THE_64
  {}

  lemma {:induction false} HalfOfRange(d: nat, h: nat, q: nat)
    requires d < 2 * h && q > 0
    ensures d < h ==> d * q < h * q
    ensures d >= h ==> h * q <= d * q < 2 * (h * q)
    ensures (d - h) * (2 * q) == 2 * (d * q) - 2 * (h * q) && d * (2 * q) == 2 * (d * q)
  {
    assert d * q == (d - h) * q + h * q;
    if d < h { assert (d - h) * q < 0; } else { assert 0 <= (d - h) * q; assert (2 * h - d) * q > 0; }
  }

  lemma {:induction false} HalfOfKey(d: nat, h: nat, q: nat, key: nat)
    requires h * q == TWO_TO_THE_63 && d < 2 * h && q > 0 && key == d * q
    ensures TopBit(key) == if d < h then 0 else 1
    ensures d < h ==> (2 * key) % TWO_TO_THE_64 == d * (2 * q)
    ensures d >= h ==> (2 * key) % TWO_TO_THE_64 == (d - h) * (2 * q)
  {
    HalfOfRange(d, h, q);
    DoubleKey(key);
  }

  /** One step of a walk: the top bit of the key picks the half, and shifting moves to the next bit. */
  lemma {:induction false} NextKey(key: nat, size: nat, lo: nat, w: nat)
    requires KeyFor(key, size, lo, w) && w > 0
    ensures TopBit(key) == if size < lo + Pow2(w - 1) then 0 else 1
    ensures KeyFor(Double64(key), size, if TopBit(key) == 1 then lo + Pow2(w - 1) else lo, w - 1)
  {
    PowAdd(w - 1, 64 - w);
    PowValues();
    var d, h, q, q2 := size - lo, Pow2(w - 1), Pow2(64 - w), Pow2(64 - (w - 1));
    HalfOfKey(d, h, q, key);
    PowSucc(64 - w);
    if d >= h { assert size - (lo + h) == d - h; }
  }
}
