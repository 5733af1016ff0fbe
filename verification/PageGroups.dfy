/**
 Where software puts the entries of a page and where the hardware looks for them: the one masks its
 hash with the group count less one, the other keeps the bits that SDR1 announces.
 */
module PageGroups {
  import opened MachineWords
  import opened BitTricks
  import opened Masks
  import opened PageHash
  import opened PageTable

  /** The group in which the hardware looks for a page. */
  function HwGroupOf(p: Page, k: nat): nat { Group(ArchitectedHash(p.vpn, SegOf(p.space), BaseOf(p.space)), k) }

  /** The hardware looks for every page of the space in the group where software puts it. */
  ghost predicate Searchable(ptegs: nat, k: nat, s: Space)
    requires ptegs > 0
  {
    forall p :: Known(p) && p.space == s ==> GroupOf(p, ptegs) == HwGroupOf(p, k)
  }

  // ---------- the pages of a space by VSID and number in the segment

  predicate VsidOf(s: Space, v: nat) {
    match s
    case Hv => v == HV_VSID
    case Ail => v == AIL_VSID
    case RealMode => v == GRM_VSID
    case Guest => v < 16
  }

  function LastIndex(s: Space): nat {
    match s
    case Hv => 0xFFFF
    case Ail => 0x100
    case RealMode => 0xFF
    case Guest => 0xFFFF
  }

  function NthPage(s: Space, v: nat, i: nat): (p: Page)
    requires VsidOf(s, v) && i <= LastIndex(s)
    ensures Known(p) && p.space == s && Vsid(p.vpn, SegOf(s)) == v && PageIndex(p.vpn, SegOf(s), BaseOf(s)) == i
  {
    Page(s, v * SegPages(SegOf(s)) + i * PageSpan(BaseOf(s)))
  }

  lemma {:induction false} PageParts(p: Page)
    requires Known(p)
    ensures VsidOf(p.space, Vsid(p.vpn, SegOf(p.space))) && PageIndex(p.vpn, SegOf(p.space), BaseOf(p.space)) <= LastIndex(p.space)
  {}

  /** The part of the hash that the VSID gives, in software and in hardware. */
  function SoftTerm(v: nat): nat { Xor(v, Shl64(v, 25)) }

  function HardTerm(seg: SegSize, v: nat): nat { if seg.Seg1T? then SoftTerm(v) else v }

  // ---------- masks

  lemma {:induction false} AndXor(x: nat, y: nat, m: nat)
    ensures And(Xor(x, y), m) == Xor(And(x, m), And(y, m))
    decreases m
  {
    hide And, Xor;
    if m == 0 {
      AndNothing(x);
      AndNothing(y);
      AndNothing(Xor(x, y));
      XorZero(0);
    } else {
      AndXor(x / 2, y / 2, m / 2);
      XorHalves(x, y);
      AndHalves(Xor(x, y), m);
      AndHalves(x, m);
      AndHalves(y, m);
      XorHalves(And(x, m), And(y, m));
    }
  }

  /** A right shift. */
  function Shr(x: nat, k: nat): (r: nat)
    ensures r == x / Pow2(k)
  {
    Quotient(x, Pow2(k));
    x / Pow2(k)
  }

  lemma {:induction false} AndShr(x: nat, y: nat, k: nat)
    ensures Shr(And(x, y), k) == And(Shr(x, k), Shr(y, k))
  {
    hide And, Pow2, Shr;
    if k == 0 {
      ShrNone(x);
      ShrNone(y);
      ShrNone(And(x, y));
    } else {
      AndHalves(x, y);
      AndShr(x / 2, y / 2, k - 1);
      ShrHalf(x, k);
      ShrHalf(y, k);
      ShrHalf(And(x, y), k);
    }
  }

  lemma {:induction false} ShrNone(x: nat)
    ensures Shr(x, 0) == x
  {
    hide Pow2;
    PowZero();
  }

  lemma {:induction false} ShrHalf(x: nat, k: nat)
    requires k > 0
    ensures Shr(x, k) == Shr(x / 2, k - 1)
  {
    hide Pow2;
    PowSucc(k - 1);
    var p := Pow2(k - 1);
    Quotient(x / 2, p);
    UniqueQuotient(x, 2 * p, x / 2 / p, 2 * (x / 2 % p) + x % 2);
  }

  lemma {:induction false} AndSwaps(x: nat, y: nat)
    ensures And(x, y) == And(y, x)
    decreases x
  {
    if x > 0 && y > 0 { AndSwaps(x / 2, y / 2); }
  }

  /** Masking a small number takes only the low bits of the mask. */
  lemma {:induction false} LowBitsOnly(i: nat, m: nat, b: nat)
    requires i < Pow2(b)
    ensures And(i, m) == And(i, m % Pow2(b))
  {
    hide And, Pow2;
    AndMod(i, m, b);
    AndBelow(i, m);
    AndSwaps(i, m);
    UniqueQuotient(i, Pow2(b), 0, i);
    AndBelow(m, i);
    UniqueQuotient(And(i, m), Pow2(b), 0, And(i, m));
  }

  /** Two masks agree below 2^b exactly when their low bits do. */
  lemma {:induction false} SameLowMask(m: nat, n: nat, b: nat)
    ensures (forall i: nat :: i < Pow2(b) ==> And(i, m) == And(i, n)) <==> m % Pow2(b) == n % Pow2(b)
  {
    hide And, Pow2;
    if m % Pow2(b) == n % Pow2(b) {
      forall i: nat | i < Pow2(b) ensures And(i, m) == And(i, n) {
        LowBitsOnly(i, m, b);
        LowBitsOnly(i, n, b);
      }
    } else {
      var i: nat := Pow2(b) - 1;
      AndSwaps(i, m);
      AndSwaps(i, n);
      AndLowMask(m, b);
      AndLowMask(n, b);
      assert And(i, m) != And(i, n);
    }
  }

  /** PTE_V_AVPN, as a mask. */
  lemma {:induction false} AvpnFieldMask(v: nat)
    requires v < TWO_TO_THE_64
    ensures AvpnField(v) == And(v, 0x3FFF_FFFF_FFFF_FF80)
  {
    hide And, Pow2;
    PowSixtyTwo();
    var w := v % 0x4000_0000_0000_0000;
    AndHighMask(w, 7, 62);
    LowPart(v, 0x3FFF_FFFF_FFFF_FF80, 62);
    FieldOfLow(v, w);
  }

  lemma {:induction false} FieldOfLow(v: nat, w: nat)
    requires w == v % 0x4000_0000_0000_0000
    ensures AvpnField(v) == w - w % 0x80
  {
    var q := v / 0x4000_0000_0000_0000;
    Quotient(v, 0x4000_0000_0000_0000);
    UniqueQuotient(v, 0x80, q * 0x80_0000_0000_0000 + w / 0x80, w % 0x80);
    UniqueQuotient(q * 0x80_0000_0000_0000 + w / 0x80, 0x80_0000_0000_0000, q, w / 0x80);
  }

  lemma {:induction false} PowSixtyTwo()
    ensures Pow2(7) == 0x80 && Pow2(62) == 0x4000_0000_0000_0000
  {
    PowValues();
    PowSucc(62);
    assert Pow2(7) == 0x80;
  }

  // ---------- the exact condition

  /** The groups of a page: the VSID's part and the page number, masked and put together. */
  lemma {:induction false} GroupsOfPage(p: Page, ptegs: nat, k: nat)
    requires Known(p) && 0 < ptegs <= MAX_PTEGS && k <= 39
    ensures var v, i, m, n := Vsid(p.vpn, SegOf(p.space)), PageIndex(p.vpn, SegOf(p.space), BaseOf(p.space)), ptegs - 1, Pow2(k) - 1;
      && GroupOf(p, ptegs) == Xor(And(SoftTerm(v), m), And(i, m))
      && HwGroupOf(p, k) == Xor(And(HardTerm(SegOf(p.space), v), n), And(i, n))
  {
    hide And, Pow2, Xor, Shl64, Known;
    var seg, base, m, n := SegOf(p.space), BaseOf(p.space), ptegs - 1, Pow2(k) - 1;
    var v, i := Vsid(p.vpn, seg), PageIndex(p.vpn, seg, base);
    SegMask(p.vpn, seg);
    PowTwentyEight();
    AndLowMask(Xor(SoftTerm(v), i), 39);
    LowPart(Xor(SoftTerm(v), i), m, 39);
    if k < 39 { PowBelow(k, 39); }
    LowPart(Xor(HardTerm(seg, v), i), n, 39);
    AndXor(SoftTerm(v), i, m);
    AndXor(HardTerm(seg, v), i, n);
  }

  lemma {:induction false} LowPart(x: nat, m: nat, b: nat)
    requires m < Pow2(b)
    ensures And(x % Pow2(b), m) == And(x, m)
  {
    hide And, Pow2;
    LowBitsOnly(m, x, b);
    AndSwaps(x, m);
    AndSwaps(x % Pow2(b), m);
  }

  /** The sixteen bits that page numbers take of the hash are masked alike. */
  predicate MasksAgree(ptegs: nat, k: nat, s: Space)
    requires ptegs > 0
  {
    s.Hv? || s.Guest? ==> (ptegs - 1) % 0x1_0000 == (Pow2(k) - 1) % 0x1_0000
  }

  /** What each VSID gives the hash is masked alike. */
  predicate TermAgrees(ptegs: nat, k: nat, s: Space, v: nat)
    requires ptegs > 0
  {
    And(SoftTerm(v), ptegs - 1) == And(HardTerm(SegOf(s), v), Pow2(k) - 1)
  }

  ghost predicate TermsAgree(ptegs: nat, k: nat, s: Space)
    requires ptegs > 0
  {
    forall v :: VsidOf(s, v) ==> TermAgrees(ptegs, k, s, v)
  }

  lemma {:induction false} IndexAgrees(ptegs: nat, k: nat, s: Space, i: nat)
    requires Groups(ptegs) && 11 <= k && i <= LastIndex(s) && MasksAgree(ptegs, k, s)
    ensures And(i, ptegs - 1) == And(i, Pow2(k) - 1)
  {
    hide And, Pow2;
    var m, n := ptegs - 1, Pow2(k) - 1;
    PowEleven();
    PowValues();
    if s.Hv? || s.Guest? {
      SameLowMask(m, n, 16);
    } else {
      AllOnes(k);
      assert m % 0x800 == 0x7FF;
      SameLowMask(m, n, 11);
    }
  }

  lemma {:induction false} AllOnes(k: nat)
    requires 11 <= k
    ensures (Pow2(k) - 1) % 0x800 == 0x7FF
  {
    hide Pow2;
    PowEleven();
    PowAdd(11, k - 11);
    UniqueQuotient(Pow2(k) - 1, 0x800, Pow2(k - 11) - 1, 0x7FF);
  }

  /** A page that shares its VSID's term and its number with the hardware's mask is looked for in its group; one whose term differs never is. */
  lemma {:induction false} PageAgrees(p: Page, ptegs: nat, k: nat)
    requires Known(p) && Groups(ptegs) && 11 <= k <= 39 && MasksAgree(ptegs, k, p.space)
    ensures GroupOf(p, ptegs) == HwGroupOf(p, k) <==> TermAgrees(ptegs, k, p.space, Vsid(p.vpn, SegOf(p.space)))
  {
    hide And, Pow2, Xor, Known, GroupOf, HwGroupOf, SoftTerm, HardTerm, MasksAgree;
    var v, i := Vsid(p.vpn, SegOf(p.space)), PageIndex(p.vpn, SegOf(p.space), BaseOf(p.space));
    GroupsOfPage(p, ptegs, k);
    PageParts(p);
    IndexAgrees(ptegs, k, p.space, i);
    var a, b, c := And(SoftTerm(v), ptegs - 1), And(HardTerm(SegOf(p.space), v), Pow2(k) - 1), And(i, ptegs - 1);
    if Xor(a, c) == Xor(b, c) {
      XorSwaps(a, c);
      XorSwaps(b, c);
      XorCancel(c, a, b);
    }
  }

  lemma {:induction false} XorSwaps(x: nat, y: nat)
    ensures Xor(x, y) == Xor(y, x)
    decreases x + y
  {
    if x > 0 && y > 0 { XorSwaps(x / 2, y / 2); }
  }

  /** The hardware finds all pages of a space exactly when the masks agree on page numbers and on what the space's VSIDs give. */
  lemma {:induction false} SearchableExactly(ptegs: nat, k: nat, s: Space)
    requires Groups(ptegs) && 11 <= k <= 39
    ensures Searchable(ptegs, k, s) <==> MasksAgree(ptegs, k, s) && TermsAgree(ptegs, k, s)
  {
    hide And, Pow2, Xor, Known, GroupOf, HwGroupOf, MasksAgree, TermAgrees;
    if MasksAgree(ptegs, k, s) {
      forall p | Known(p) && p.space == s ensures GroupOf(p, ptegs) == HwGroupOf(p, k) <==> TermAgrees(ptegs, k, s, Vsid(p.vpn, SegOf(s))) {
        PageAgrees(p, ptegs, k);
      }
      forall p | Known(p) && p.space == s ensures VsidOf(s, Vsid(p.vpn, SegOf(s))) { PageParts(p); }
      if Searchable(ptegs, k, s) {
        forall v | VsidOf(s, v) ensures TermAgrees(ptegs, k, s, v) {
          var p := NthPage(s, v, 0);
          assert GroupOf(p, ptegs) == HwGroupOf(p, k);
        }
      }
    } else if Searchable(ptegs, k, s) {
      NumbersAgree(ptegs, k, s);
    }
  }

  /** Sixteen-bit page numbers show all of the low bits of the masks. */
  lemma {:induction false} NumbersAgree(ptegs: nat, k: nat, s: Space)
    requires Groups(ptegs) && 11 <= k <= 39 && Searchable(ptegs, k, s)
    ensures MasksAgree(ptegs, k, s)
  {
    hide And, Pow2, Xor, Known, GroupOf, HwGroupOf, SoftTerm, HardTerm;
    PowValues();
    if s.Hv? || s.Guest? {
      var m, n, v := ptegs - 1, Pow2(k) - 1, if s.Hv? then HV_VSID else 0;
      forall i: nat | i < Pow2(16) ensures And(i, m) == And(i, n) {
        NumberAgrees(ptegs, k, s, v, 0);
        NumberAgrees(ptegs, k, s, v, i);
        AndOfZero(m);
        AndOfZero(n);
        XorZero(And(SoftTerm(v), m));
        XorZero(And(HardTerm(SegOf(s), v), n));
        XorCancel(And(SoftTerm(v), m), And(i, m), And(i, n));
      }
      SameLowMask(m, n, 16);
    }
  }

  lemma {:induction false} NumberAgrees(ptegs: nat, k: nat, s: Space, v: nat, i: nat)
    requires Groups(ptegs) && 11 <= k <= 39 && Searchable(ptegs, k, s) && VsidOf(s, v) && i <= LastIndex(s)
    ensures var m, n := ptegs - 1, Pow2(k) - 1;
      Xor(And(SoftTerm(v), m), And(i, m)) == Xor(And(HardTerm(SegOf(s), v), n), And(i, n))
  {
    hide And, Pow2, Xor, Known, GroupOf, HwGroupOf, SoftTerm, HardTerm;
    var p := NthPage(s, v, i);
    GroupsOfPage(p, ptegs, k);
    assert GroupOf(p, ptegs) == HwGroupOf(p, k);
  }

  /** A power of two, of at most 2^25 for 256M segments, is enough. */
  lemma {:induction false} PowersSearchable(k: nat, s: Space)
    requires 11 <= k <= 39 && (k <= 25 || SegOf(s).Seg1T?)
    ensures Groups(Pow2(k)) && Searchable(Pow2(k), k, s)
  {
    hide And, Xor, Pow2, Known, SoftTerm;
    PowerGroups(k);
    forall v | VsidOf(s, v) ensures TermAgrees(Pow2(k), k, s, v) {
      if SegOf(s).Seg256M? { TermResidue(v, k); LowTerms(SoftTerm(v), v, k); }
    }
    SearchableExactly(Pow2(k), k, s);
  }

  lemma {:induction false} LowTerms(x: nat, y: nat, k: nat)
    requires x % Pow2(k) == y % Pow2(k)
    ensures And(x, Pow2(k) - 1) == And(y, Pow2(k) - 1)
  {
    hide And, Pow2;
    AndLowMask(x, k);
    AndLowMask(y, k);
  }

  lemma {:induction false} PowerGroups(k: nat)
    requires 11 <= k <= 39
    ensures Groups(Pow2(k))
  {
    hide Pow2;
    PowEleven();
    PowTwentyEight();
    if k < 39 { PowBelow(k, 39); }
    PowAdd(11, k - 11);
    UniqueQuotient(Pow2(k), 0x800, Pow2(k - 11), 0);
  }

  /** In its low 25 bits the software's term is the VSID. */
  lemma {:induction false} TermResidue(v: nat, k: nat)
    requires k <= 25
    ensures SoftTerm(v) % Pow2(k) == v % Pow2(k)
  {
    hide Xor, Pow2, Shl64;
    ShiftedTermGone(v, 0, k);
    XorZero(v);
    XorZero(SoftTerm(v));
  }

  // ---------- three sizes of RAM

  /** Masks below 2^20 that agree in 17 bits: what is left are three bits. */
  lemma {:induction false} TopTerms(x: nat, y: nat, m: nat, n: nat)
    requires x % 0x10_0000 == y % 0x10_0000 && m < 0x10_0000 && n < 0x10_0000 && m % 0x2_0000 == n % 0x2_0000
    ensures var r := x % 0x10_0000 / 0x2_0000; And(x, m) == And(y, n) <==> And(r, m / 0x2_0000) == And(r, n / 0x2_0000)
  {
    hide And, Pow2;
    PowSeventeen();
    var r := x % 0x10_0000;
    LowPart(x, m, 20);
    LowPart(y, n, 20);
    AndShr(r, m, 17);
    AndShr(r, n, 17);
    AndMod(r, m, 17);
    AndMod(r, n, 17);
    Quotient(And(r, m), 0x2_0000);
    Quotient(And(r, n), 0x2_0000);
  }

  lemma {:induction false} PowSeventeen()
    ensures Pow2(17) == 0x2_0000 && Pow2(20) == 0x10_0000
  {
    PowEighteen();
    PowSucc(17);
    PowSucc(19);
  }

  lemma {:induction false} SmallAnds()
    ensures And(2, 2) == 2 && And(2, 1) == 0 && And(2, 6) == 2 && And(2, 3) == 2 && And(0, 2) == And(0, 1) == And(0, 6) == And(0, 3) == 0
  {
    assert And(1, 1) == 1 && And(1, 3) == 1;
  }

  /** Bits 17 to 19 of a VSID. */
  lemma {:induction false} TopOfVsid(s: Space, v: nat)
    requires VsidOf(s, v)
    ensures v % 0x10_0000 / 0x2_0000 == if s.Hv? || s.RealMode? then 2 else 0
    ensures SoftTerm(v) % 0x10_0000 == v % 0x10_0000 == HardTerm(SegOf(s), v) % 0x10_0000
  {
    hide SoftTerm, Pow2, VsidOf;
    PowSeventeen();
    TermResidue(v, 20);
    VsidBits(s, v);
  }

  lemma {:induction false} VsidBits(s: Space, v: nat)
    requires VsidOf(s, v)
    ensures v % 0x10_0000 / 0x2_0000 == if s.Hv? || s.RealMode? then 2 else 0
  {
    match s
    case Hv => LowOf(0x8_7654, 0x4_3210);
    case Ail => LowOf(0x876_5432, 0x1_0123);
    case RealMode => LowOf(0x5555, 0x5_5555);
    case Guest => LowOf(0, v);
  }

  lemma {:induction false} LowOf(high: nat, low: nat)
    requires low < 0x10_0000
    ensures (high * 0x10_0000 + low) % 0x10_0000 == low
  {
    UniqueQuotient(high * 0x10_0000 + low, 0x10_0000, high, low);
  }

  /** 3 GB give 0x60000 groups, of which 2^18 are announced: every HV page and every page of the guest's real mode is lost. */
  lemma {:induction false} ThreeGigabytes(p: Page)
    requires Known(p)
    ensures PtegCount(0xC000_0000) == 0x6_0000 && Pow2(18) < 0x6_0000 < Pow2(19)
    ensures GroupOf(p, 0x6_0000) == HwGroupOf(p, 18) <==> p.space.Ail? || p.space.Guest?
  {
    hide And, Pow2, Known, GroupOf, HwGroupOf, SoftTerm, HardTerm, Vsid;
    PowEighteen();
    var v := Vsid(p.vpn, SegOf(p.space));
    PageAgrees(p, 0x6_0000, 18);
    PageParts(p);
    TopOfVsid(p.space, v);
    TopTerms(SoftTerm(v), HardTerm(SegOf(p.space), v), 0x5_FFFF, 0x3_FFFF);
    SmallAnds();
  }

  /** 7 GB give 0xE0000 groups, no power of two either, and every page is found. */
  lemma {:induction false} SevenGigabytes(s: Space)
    ensures PtegCount(0x1_C000_0000) == 0xE_0000 && Pow2(19) < 0xE_0000 < Pow2(20)
    ensures Searchable(0xE_0000, 19, s)
  {
    hide And, Pow2, Known, GroupOf, HwGroupOf, SoftTerm, HardTerm;
    PowEighteen();
    PowSeventeen();
    SmallAnds();
    forall v | VsidOf(s, v) ensures TermAgrees(0xE_0000, 19, s, v) {
      TopOfVsid(s, v);
      TopTerms(SoftTerm(v), HardTerm(SegOf(s), v), 0xD_FFFF, 0x7_FFFF);
    }
    SearchableExactly(0xE_0000, 19, s);
  }

  /** The 4 GB the hypervisor is built for give 2^19 groups, and every page is found. */
  lemma {:induction false} FourGigabytes(s: Space)
    ensures PtegCount(0x1_0000_0000) == 0x8_0000 == Pow2(19)
    ensures Searchable(0x8_0000, 19, s)
  {
    hide Pow2, Searchable;
    PowEighteen();
    PowersSearchable(19, s);
  }
}
