/** Masks of the form 2^k - 1 and their complements, as alignment code uses them. */
module Masks {
  import opened BitTricks

  lemma {:induction false} AndSelf(x: nat)
    ensures And(x, x) == x
  {
    if x > 0 { AndSelf(x / 2); }
  }

  /** The test of internal_memalign for a power of two. */
  lemma {:induction false} PowerTest(x: nat)
    requires x > 0
    ensures And(x, x - 1) == 0 <==> exists k: nat :: x == Pow2(k)
  {
    if x == 1 {
      var k: nat := 0;
      assert x == Pow2(k);
    } else if x % 2 == 1 {
      AndSelf(x / 2);
      assert (x - 1) / 2 == x / 2;
      assert And(x, x - 1) == 2 * And(x / 2, x / 2) > 0;
      forall k: nat ensures x != Pow2(k) { if k > 0 { PowSucc(k - 1); } }
    } else {
      PowerTest(x / 2);
      assert (x - 1) / 2 == x / 2 - 1;
      if k: nat :| x / 2 == Pow2(k) {
        PowSucc(k);
        assert x == Pow2(k + 1);
      }
      if k: nat :| x == Pow2(k) {
        if k > 0 { PowSucc(k - 1); assert x / 2 == Pow2(k - 1); }
      }
    }
  }

  lemma {:induction false} AndLowMask(x: nat, k: nat)
    ensures And(x, Pow2(k) - 1) == x % Pow2(k)
  {
    hide Pow2, And;
    PowZero();
    if k == 0 {
      AndNothing(x);
    } else {
      AndLowMask(x / 2, k - 1);
      PowSucc(k - 1);
      LowMaskStep(x, Pow2(k - 1));
    }
  }

  lemma {:induction false} AndNothing(x: nat)
    ensures And(x, 0) == 0
  {}

  lemma {:induction false} LowMaskStep(x: nat, p: nat)
    requires p > 0 && And(x / 2, p - 1) == x / 2 % p
    ensures And(x, 2 * p - 1) == x % (2 * p)
  {
    hide And;
    HalfOfMod(x, p);
    AndHalves(x, 2 * p - 1);
    assert (2 * p - 1) / 2 == p - 1 && (2 * p - 1) % 2 == 1;
  }

  lemma {:induction false} AndHighMask(x: nat, k: nat, n: nat)
    requires k <= n && x < Pow2(n)
    ensures Pow2(k) <= Pow2(n) && And(x, Pow2(n) - Pow2(k)) == x - x % Pow2(k)
  {
    if k == 0 {
      assert Pow2(0) == 1;
      AndAllOnes(x, n);
    } else {
      PowSucc(n - 1);
      PowSucc(k - 1);
      AndHighMask(x / 2, k - 1, n - 1);
      HalfOfMod(x, Pow2(k - 1));
      assert (Pow2(n) - Pow2(k)) / 2 == Pow2(n - 1) - Pow2(k - 1);
    }
  }

  lemma {:induction false} AndAllOnes(x: nat, n: nat)
    requires x < Pow2(n)
    ensures And(x, Pow2(n) - 1) == x
  {
    AndLowMask(x, n);
    UniqueQuotient(x, Pow2(n), 0, x);
  }

  lemma {:induction false} AndHalves(x: nat, y: nat)
    ensures And(x, y) / 2 == And(x / 2, y / 2)
    ensures And(x, y) % 2 == if x % 2 == 1 && y % 2 == 1 then 1 else 0
  {}

  /** The low bits of an and are the and of the low bits. */
  lemma {:induction false} AndMod(x: nat, y: nat, k: nat)
    ensures And(x, y) % Pow2(k) == And(x % Pow2(k), y % Pow2(k))
  {
    if k == 0 {
      AndModZero(x, y);
    } else {
      hide And, Pow2;
      PowSucc(k - 1);
      AndMod(x / 2, y / 2, k - 1);
      AndModStep(x, y, Pow2(k - 1));
    }
  }

  lemma {:induction false} AndModZero(x: nat, y: nat)
    ensures And(x, y) % Pow2(0) == And(x % Pow2(0), y % Pow2(0))
  {
    assert Pow2(0) == 1;
  }

  lemma {:induction false} AndModStep(x: nat, y: nat, p: nat)
    requires p > 0 && And(x / 2, y / 2) % p == And((x / 2) % p, (y / 2) % p)
    ensures And(x, y) % (2 * p) == And(x % (2 * p), y % (2 * p))
  {
    hide And;
    var u, v := (x / 2) % p, (y / 2) % p;
    var w, bit := And(x, y) % (2 * p), if x % 2 == 1 && y % 2 == 1 then 1 else 0;
    assert w == 2 * And(u, v) + bit by { AndHalves(x, y); HalfOfMod(And(x, y), p); }
    assert x % (2 * p) == 2 * u + x % 2 by { HalfOfMod(x, p); }
    assert y % (2 * p) == 2 * v + y % 2 by { HalfOfMod(y, p); }
    AndDoubled(u, v, x % 2, y % 2);
  }

  lemma {:induction false} AndDoubled(a: nat, b: nat, c: nat, d: nat)
    requires c < 2 && d < 2
    ensures And(2 * a + c, 2 * b + d) == 2 * And(a, b) + (if c == 1 && d == 1 then 1 else 0)
  {
    hide And;
    AndHalves(2 * a + c, 2 * b + d);
    assert (2 * a + c) / 2 == a && (2 * b + d) / 2 == b && (2 * a + c) % 2 == c && (2 * b + d) % 2 == d;
  }

  /** A power of two under a mask without its bit vanishes. */
  lemma {:induction false} AndPower(i: nat, m: nat)
    requires !Bit(m, i)
    ensures And(Pow2(i), m) == 0
  {
    if i > 0 {
      PowSucc(i - 1);
      AndPower(i - 1, m / 2);
    } else {
      assert Pow2(0) == 1;
      assert And(1, m) == if m == 0 then 0 else 2 * And(0, m / 2) + 0;
    }
  }

  /** A mask whose low `k` bits are not all ones lacks one of them. */
  lemma {:induction false} MissingBit(m: nat, k: nat) returns (i: nat)
    requires k > 0 && m % Pow2(k) != Pow2(k) - 1
    ensures i < k && !Bit(m, i)
  {
    PowSucc(k - 1);
    HalfOfMod(m, Pow2(k - 1));
    i := 0;
    if m % 2 == 1 {
      assert Pow2(0) == 1;
      i := MissingBit(m / 2, k - 1);
      i := i + 1;
    }
  }

  /** Masking with n - 1. */
  function Masked(x: nat, n: nat): nat
    requires n > 0
  {
    And(x, n - 1)
  }

  /** Masking with n - 1 is keeping the low bits for every word exactly when n is the power of two it is measured by. */
  lemma {:induction false} MaskOfPower(n: nat, l: nat)
    requires Pow2(l) <= n < Pow2(l + 1)
    ensures (forall x: nat :: Masked(x, n) == Masked(x, Pow2(l))) <==> n == Pow2(l)
  {
    hide And, Pow2;
    if forall x: nat :: Masked(x, n) == Masked(x, Pow2(l)) {
      assert Masked(n - 1, n) == Masked(n - 1, Pow2(l));
      AndSelf(n - 1);
      AndLowMask(n - 1, l);
      Quotient(n - 1, Pow2(l));
    }
  }

  lemma {:induction false} PowZero()
    ensures Pow2(0) == 1
  {}
}
