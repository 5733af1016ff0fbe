/**
 Virtual page numbers, the hash that selects a page table entry group, and the abbreviated page
 number stored in an entry.
 */
module PageHash {
  import opened MachineWords
  import opened BitTricks
  import opened Masks

  datatype SegSize = Seg256M | Seg1T
  datatype PageSize = Page4K | Page16M

  /** A virtual page number: the virtual address without its low 12 bits. */
  type Vpn = n: nat | n < TWO_TO_THE_64

  /** The 4K pages in a segment: 1 << (segment shift - VPN_SHIFT). */
  function SegPages(seg: SegSize): nat { if seg.Seg1T? then 0x1000_0000 else 0x1_0000 }

  /** The 4K pages in a page. */
  function PageSpan(size: PageSize): nat { if size.Page16M? then 0x1000 else 1 }

  const HASH_MASK: nat := 0x7f_ffff_ffff

  // ---------- exclusive or

  /** Bitwise exclusive or. */
  function Xor(x: nat, y: nat): nat
    decreases x + y
  {
    if x == 0 then y else if y == 0 then x
    else 2 * Xor(x / 2, y / 2) + (if x % 2 != y % 2 then 1 else 0)
  }

  lemma {:induction false} XorHalves(x: nat, y: nat)
    ensures Xor(x, y) / 2 == Xor(x / 2, y / 2)
    ensures Xor(x, y) % 2 == (x % 2 + y % 2) % 2
  {}

  lemma {:induction false} XorMod(x: nat, y: nat, k: nat)
    ensures Xor(x, y) % Pow2(k) == Xor(x % Pow2(k), y % Pow2(k))
  {
    if k == 0 {
      XorBase(x, y);
    } else {
      hide Xor, Pow2;
      PowSucc(k - 1);
      XorMod(x / 2, y / 2, k - 1);
      XorModStep(x, y, Pow2(k - 1));
    }
  }

  lemma {:induction false} XorBase(x: nat, y: nat)
    ensures Xor(x, y) % Pow2(0) == Xor(x % Pow2(0), y % Pow2(0))
  {
    assert Pow2(0) == 1;
  }

  lemma {:induction false} XorModStep(x: nat, y: nat, p: nat)
    requires p > 0 && Xor(x / 2, y / 2) % p == Xor((x / 2) % p, (y / 2) % p)
    ensures Xor(x, y) % (2 * p) == Xor(x % (2 * p), y % (2 * p))
  {
    hide Xor;
    var u, v, w := (x / 2) % p, (y / 2) % p, Xor(x, y) % (2 * p);
    assert w == 2 * Xor(u, v) + (x % 2 + y % 2) % 2 by { XorHalves(x, y); HalfOfMod(Xor(x, y), p); }
    assert x % (2 * p) == 2 * u + x % 2 by { HalfOfMod(x, p); }
    assert y % (2 * p) == 2 * v + y % 2 by { HalfOfMod(y, p); }
    DoubledXor(u, v, x % 2, y % 2);
  }

  lemma {:induction false} DoubledXor(a: nat, b: nat, c: nat, d: nat)
    requires c < 2 && d < 2
    ensures Xor(2 * a + c, 2 * b + d) == 2 * Xor(a, b) + (c + d) % 2
  {
    hide Xor;
    XorHalves(2 * a + c, 2 * b + d);
    assert (2 * a + c) / 2 == a && (2 * b + d) / 2 == b && (2 * a + c) % 2 == c && (2 * b + d) % 2 == d;
  }

  lemma {:induction false} XorCancel(a: nat, x: nat, y: nat)
    requires Xor(a, x) == Xor(a, y)
    ensures x == y
    decreases a + x + y
  {
    XorHalves(a, x);
    XorHalves(a, y);
    if a > 0 || x > 1 || y > 1 {
      XorCancel(a / 2, x / 2, y / 2);
    }
  }

  lemma {:induction false} XorZero(x: nat)
    ensures Xor(x, 0) == x && Xor(0, x) == x
  {}

  // ---------- residues

  lemma {:induction false} ModMod(x: nat, k: nat, n: nat)
    requires k <= n
    ensures (x % Pow2(n)) % Pow2(k) == x % Pow2(k)
  {
    if k == 0 {
      assert Pow2(0) == 1;
    } else {
      hide Pow2;
      PowSucc(k - 1);
      PowSucc(n - 1);
      ModMod(x / 2, k - 1, n - 1);
      ModModStep(x, Pow2(k - 1), Pow2(n - 1));
    }
  }

  lemma {:induction false} ModModStep(x: nat, p: nat, q: nat)
    requires p > 0 && q > 0 && ((x / 2) % q) % p == (x / 2) % p
    ensures (x % (2 * q)) % (2 * p) == x % (2 * p)
  {
    var a, b := x % (2 * q), (x / 2) % q;
    assert a == 2 * b + x % 2 by { HalfOfMod(x, q); }
    assert a / 2 == b && a % 2 == x % 2;
    assert a % (2 * p) == 2 * (b % p) + x % 2 by { HalfOfMod(a, p); }
    HalfOfMod(x, p);
  }

  lemma {:induction false} MultipleMod(x: nat, k: nat, n: nat)
    requires k <= n
    ensures (x * Pow2(n)) % Pow2(k) == 0
  {
    PowAdd(n - k, k);
    UniqueQuotient(x * Pow2(n), Pow2(k), x * Pow2(n - k), 0) by { Regroup(x, Pow2(n - k), Pow2(k)); }
  }

  lemma {:induction false} Regroup(x: nat, p: nat, q: nat)
    ensures x * (p * q) == q * (x * p)
  {}

  // ---------- the hash

  function Vsid(vpn: Vpn, seg: SegSize): nat { vpn / SegPages(seg) }

  /** The number of the (base) page in its segment. */
  function PageIndex(vpn: Vpn, seg: SegSize, base: PageSize): nat { vpn % SegPages(seg) / PageSpan(base) }

  /** vpn_hash */
  function VpnHash(vpn: Vpn, seg: SegSize, base: PageSize): nat {
    var vsid := vpn / SegPages(seg);
    And(Xor(Xor(vsid, Shl64(vsid, 25)), And(vpn, SegPages(seg) - 1) / PageSpan(base)), HASH_MASK)
  }

  /** The hash of section 5.7.7.3 of Power ISA v2.07 Book III-S: the shifted term is for 1T segments only. */
  function ArchitectedHash(vpn: Vpn, seg: SegSize, base: PageSize): nat {
    var vsid := Vsid(vpn, seg);
    var low := if seg.Seg1T? then Xor(vsid, Shl64(vsid, 25)) else vsid;
    Xor(low, PageIndex(vpn, seg, base)) % Pow2(39)
  }

  const MIN_PTEGS: nat := 0x800
  const MAX_PTEGS: nat := 0x80_0000_0000

  /** pteg_count: one group for two 4K pages of RAM, within the architected bounds; not rounded to a power of two. */
  function PtegCount(ramSize: nat): nat {
    var ptegs := ramSize / 0x2000;
    if ptegs < MIN_PTEGS then MIN_PTEGS else if ptegs > MAX_PTEGS then MAX_PTEGS else ptegs
  }

  /** A group for every 8 KB of RAM, at least 2^11 and at most 2^39. */
  lemma {:induction false} PtegsInNumbers(ramSize: nat)
    ensures ramSize < 0x100_0000 ==> PtegCount(ramSize) == 0x800
    ensures 0x100_0000 <= ramSize <= 0x10_0000_0000_0000 ==> 0 <= ramSize - PtegCount(ramSize) * 0x2000 < 0x2000
    ensures ramSize > 0x10_0000_0000_0000 ==> PtegCount(ramSize) == 0x80_0000_0000
  {}

  /** The entry group, of 2^k, for a hash. */
  function Group(hash: nat, k: nat): nat { And(hash, Pow2(k) - 1) }

  lemma {:induction false} SegMask(vpn: Vpn, seg: SegSize)
    ensures And(vpn, SegPages(seg) - 1) == vpn % SegPages(seg)
  {
    PowValues();
    PowTwentyEight();
    AndLowMask(vpn, if seg.Seg1T? then 28 else 16);
  }

  lemma {:induction false} PowTwentyEight()
    ensures Pow2(28) == 0x1000_0000 && Pow2(39) == 0x80_0000_0000
  {
    PowValues();
    PowAdd(22, 6);
    PowAdd(23, 16);
    assert Pow2(6) == 64;
  }

  /** The group chosen by vpn_hash, as a residue. */
  lemma {:induction false} GroupResidue(vpn: Vpn, seg: SegSize, base: PageSize, k: nat)
    requires k <= 39
    ensures var vsid := Vsid(vpn, seg);
      Group(VpnHash(vpn, seg, base), k) == Xor(Xor(vsid, Shl64(vsid, 25)), PageIndex(vpn, seg, base)) % Pow2(k)
  {
    hide Xor, And, Pow2, Shl64;
    var vsid := Vsid(vpn, seg);
    SegMask(vpn, seg);
    var x := Xor(Xor(vsid, Shl64(vsid, 25)), PageIndex(vpn, seg, base));
    PowTwentyEight();
    AndLowMask(x, 39);
    AndLowMask(x % Pow2(39), k);
    ModMod(x, k, 39);
  }

  /** The hardware's group. */
  lemma {:induction false} ArchitectedResidue(vpn: Vpn, seg: SegSize, base: PageSize, k: nat)
    requires k <= 39
    ensures var vsid := Vsid(vpn, seg);
      Group(ArchitectedHash(vpn, seg, base), k) ==
      Xor(if seg.Seg1T? then Xor(vsid, Shl64(vsid, 25)) else vsid, PageIndex(vpn, seg, base)) % Pow2(k)
  {
    hide Xor, And, Pow2, Shl64;
    var vsid := Vsid(vpn, seg);
    var x := Xor(if seg.Seg1T? then Xor(vsid, Shl64(vsid, 25)) else vsid, PageIndex(vpn, seg, base));
    AndLowMask(x % Pow2(39), k);
    ModMod(x, k, 39);
  }

  /** Below 2^25 groups the shifted term drops out. */
  lemma {:induction false} ShiftedTermGone(vsid: nat, page: nat, k: nat)
    requires k <= 25
    ensures Xor(Xor(vsid, Shl64(vsid, 25)), page) % Pow2(k) == Xor(vsid, page) % Pow2(k)
    ensures Xor(vsid, page) % Pow2(k) == Xor(vsid % Pow2(k), page % Pow2(k))
  {
    hide Xor, And, Pow2;
    PowValues();
    XorMod(Xor(vsid, Shl64(vsid, 25)), page, k);
    XorMod(vsid, Shl64(vsid, 25), k);
    XorMod(vsid, page, k);
    ModMod(vsid * Pow2(25), k, 64);
    MultipleMod(vsid, k, 25);
    XorZero(vsid % Pow2(k));
  }

  /** The software and hardware hashes select the same group exactly when the shifted term cannot matter. */
  lemma {:induction false} HashesAgree(seg: SegSize, base: PageSize, k: nat)
    requires k <= 39
    ensures (forall vpn: Vpn :: Group(VpnHash(vpn, seg, base), k) == Group(ArchitectedHash(vpn, seg, base), k)) <==> seg.Seg1T? || k <= 25
  {
    hide Xor, And, Pow2, Group, VpnHash, ArchitectedHash;
    if seg.Seg1T? || k <= 25 {
      forall vpn: Vpn ensures Group(VpnHash(vpn, seg, base), k) == Group(ArchitectedHash(vpn, seg, base), k) {
        GroupResidue(vpn, seg, base, k);
        ArchitectedResidue(vpn, seg, base, k);
        if seg.Seg256M? { ShiftedTermGone(Vsid(vpn, seg), PageIndex(vpn, seg, base), k); }
      }
    } else {
      var vpn: Vpn := 0x1_0000;
      GroupResidue(vpn, seg, base, k);
      ArchitectedResidue(vpn, seg, base, k);
      FirstSegment(k);
    }
  }

  /** Segment 1 of 256M, page 0: the hashes are 0x2000001 and 1. */
  lemma {:induction false} FirstSegment(k: nat)
    requires 25 < k <= 39
    ensures Xor(Xor(1, Shl64(1, 25)), 0) % Pow2(k) != Xor(1, 0) % Pow2(k)
  {
    PowTwentyFive();
    XorZero(Xor(1, Shl64(1, 25)));
    XorZero(1);
    SmallerThanPower(k);
    assert Xor(1, 0x200_0000) == 2 * Xor(0, 0x100_0000) + 1;
    UniqueQuotient(0x200_0001, Pow2(k), 0, 0x200_0001);
    UniqueQuotient(1, Pow2(k), 0, 1);
  }

  lemma {:induction false} PowTwentyFive()
    ensures Pow2(25) == 0x200_0000 && Pow2(26) == 0x400_0000
  {
    PowValues();
    PowSucc(23);
    PowSucc(24);
    PowSucc(25);
  }

  lemma {:induction false} SmallerThanPower(k: nat)
    requires k > 25
    ensures 0x200_0001 < Pow2(k)
  {
    PowTwentyFive();
    if k > 26 { PowBelow(26, k); }
  }

  // ---------- group counts

  lemma {:induction false} PowEighteen()
    ensures Pow2(18) == 0x4_0000 && Pow2(19) == 0x8_0000
  {
    PowValues();
    PowAdd(16, 2);
    PowAdd(16, 3);
    assert Pow2(2) == 4 && Pow2(3) == 8;
  }

  /** The group the software uses and the one the hardware searches, by SDR1, agree for every hash exactly when the count is a power of two. */
  lemma {:induction false} GroupsAgree(ramSize: nat, l: nat)
    requires Pow2(l) <= PtegCount(ramSize) < Pow2(l + 1)
    ensures (forall hash: nat :: Masked(hash, PtegCount(ramSize)) == Group(hash, l)) <==> PtegCount(ramSize) == Pow2(l)
  {
    hide And, Pow2, PtegCount;
    MaskOfPower(PtegCount(ramSize), l);
    forall hash: nat ensures Group(hash, l) == Masked(hash, Pow2(l)) {}
  }

  /** With a multiple of 2^11 groups, equal groups mean equal low eleven bits of the hash. */
  lemma {:induction false} LowElevenBits(x: nat, y: nat, ptegs: nat)
    requires ptegs > 0 && ptegs % 0x800 == 0 && Masked(x, ptegs) == Masked(y, ptegs)
    ensures Group(x, 11) == Group(y, 11)
  {
    hide And, Pow2;
    PowEleven();
    AndMod(x, ptegs - 1, 11);
    AndMod(y, ptegs - 1, 11);
    assert (ptegs - 1) % 0x800 == 0x7ff;
    LowMasked(x);
    LowMasked(y);
  }

  lemma {:induction false} LowMasked(x: nat)
    ensures And(x % Pow2(11), Pow2(11) - 1) == Group(x, 11)
  {
    hide And, Pow2;
    AndLowMask(x % Pow2(11), 11);
    AndLowMask(x, 11);
    ModMod(x, 11, 11);
  }

  lemma {:induction false} PowEleven()
    ensures Pow2(11) == 0x800
  {}
}
