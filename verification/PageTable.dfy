/**
 The hashed page table: entries are put into the primary group their page hashes to, and found
 again by group and abbreviated page number.
 */
module PageTable {
  import opened MachineWords
  import opened BitTricks
  import opened Masks
  import opened PageHash

  const HV_VSID: nat := 0x8_7654_3210
  const AIL_VSID: nat := 0x8765_4321_0123
  const GRM_VSID: nat := 0x5_5555_5555
  const PTES_PER_GROUP: nat := 8
  const PTE_V_1TB_SEG: nat := 0x4000_0000_0000_0000
  const PTE_R_LP_4K_16M: nat := 0x38

  /** What a virtual page belongs to: each has its own VSIDs, segment size and base page size. */
  datatype Space = Hv | Ail | RealMode | Guest

  function SegOf(s: Space): SegSize { if s.Hv? || s.RealMode? then Seg1T else Seg256M }

  function BaseOf(s: Space): PageSize { if s.Hv? || s.RealMode? then Page16M else Page4K }

  function FirstVpn(s: Space): nat {
    match s
    case Hv => HV_VSID * 0x1000_0000
    case Ail => AIL_VSID * 0x1_0000
    case RealMode => GRM_VSID * 0x1000_0000
    case Guest => 0
  }

  /** The pages of a space: one 1T segment, the AIL vectors, and 4 GB of guest addresses. */
  function SpacePages(s: Space): nat {
    match s
    case Hv => 0x1000_0000
    case Ail => 0x101
    case RealMode => 0x10_0000
    case Guest => 0x10_0000
  }

  /** A base page of a space. */
  datatype Page = Page(space: Space, vpn: Vpn)

  ghost predicate Known(p: Page) {
    && FirstVpn(p.space) <= p.vpn < FirstVpn(p.space) + SpacePages(p.space)
    && p.vpn % PageSpan(BaseOf(p.space)) == 0
  }

  /** avpn_encode: the page number without its low 11 bits, which the hash keeps. */
  function Avpn(vpn: Vpn, base: PageSize): nat {
    var v := vpn / 0x800;
    (if base.Page16M? then v - v % 2 else v) * 0x80
  }

  /** The group of a page, in a table of `ptegs` groups. */
  function GroupOf(p: Page, ptegs: nat): nat
    requires ptegs > 0
  {
    Masked(VpnHash(p.vpn, SegOf(p.space), BaseOf(p.space)), ptegs)
  }

  /** A table with this many groups keeps the eleven bits that abbreviated page numbers drop. */
  predicate Groups(ptegs: nat) { 0 < ptegs <= MAX_PTEGS && ptegs % 0x800 == 0 }

  // ---------- group and abbreviated page number determine the page

  /** Equal abbreviated page numbers: the same space, or the one HV page whose page numbers AIL_VSID repeats. */
  lemma {:induction false} SameSpace(p: Page, q: Page)
    requires Known(p) && Known(q) && Avpn(p.vpn, BaseOf(p.space)) == Avpn(q.vpn, BaseOf(q.space))
    ensures p.vpn / 0x1000 == q.vpn / 0x1000
    ensures p.space == q.space && BaseOf(p.space).Page16M? ==> p.vpn == q.vpn
    ensures p.space == q.space && BaseOf(p.space).Page4K? ==> p.vpn / 0x800 == q.vpn / 0x800
    ensures p.space != q.space ==> Shadowed(p, q) || Shadowed(q, p)
  {
    hide Avpn;
    AvpnValue(p.vpn, BaseOf(p.space));
    AvpnValue(q.vpn, BaseOf(q.space));
  }

  /** An HV page and an AIL page with the same page numbers. */
  ghost predicate Shadowed(p: Page, q: Page) {
    p.space.Hv? && q.space.Ail? && p.vpn == FirstVpn(Ail) && q.vpn < FirstVpn(Ail) + 0x101
  }

  lemma {:induction false} AvpnValue(vpn: Vpn, base: PageSize)
    ensures Avpn(vpn, base) / 0x100 == vpn / 0x1000
    ensures base.Page4K? ==> Avpn(vpn, base) / 0x80 == vpn / 0x800
  {
    var v := vpn / 0x800;
    assert v / 2 == vpn / 0x1000;
  }

  lemma {:induction false} SmallPages(x: Vpn, y: Vpn)
    requires x / 0x800 == y / 0x800
    requires Group(VpnHash(x, Seg256M, Page4K), 11) == Group(VpnHash(y, Seg256M, Page4K), 11)
    ensures x == y
  {
    hide *;
    var vsid := Vsid(x, Seg256M);
    SameVsid(x, y);
    GroupResidue(x, Seg256M, Page4K, 11);
    GroupResidue(y, Seg256M, Page4K, 11);
    SameLowBits(vsid, PageIndex(x, Seg256M, Page4K), PageIndex(y, Seg256M, Page4K));
    LowBits(x, y);
  }

  lemma {:induction false} SameLowBits(vsid: nat, a: nat, b: nat)
    requires Xor(Xor(vsid, Shl64(vsid, 25)), a) % Pow2(11) == Xor(Xor(vsid, Shl64(vsid, 25)), b) % Pow2(11)
    ensures a % 0x800 == b % 0x800
  {
    hide *;
    ShiftedTermGone(vsid, a, 11);
    ShiftedTermGone(vsid, b, 11);
    XorCancel(vsid % Pow2(11), a % Pow2(11), b % Pow2(11));
    PowEleven();
  }

  lemma {:induction false} SameVsid(x: Vpn, y: Vpn)
    requires x / 0x800 == y / 0x800
    ensures Vsid(x, Seg256M) == Vsid(y, Seg256M)
  {
    assert x / 0x1_0000 == x / 0x800 / 0x20;
  }

  lemma {:induction false} LowBits(x: Vpn, y: Vpn)
    requires x / 0x800 == y / 0x800 && PageIndex(x, Seg256M, Page4K) % 0x800 == PageIndex(y, Seg256M, Page4K) % 0x800
    ensures x == y
  {
    hide PageIndex;
    LowIndex(x);
    LowIndex(y);
  }

  lemma {:induction false} LowIndex(x: Vpn)
    ensures PageIndex(x, Seg256M, Page4K) % 0x800 == x % 0x800
  {
    assert PageIndex(x, Seg256M, Page4K) == x % 0x1_0000;
    var q, r := x / 0x1_0000, x % 0x1_0000;
    UniqueQuotient(x, 0x800, 0x20 * q + r / 0x800, r % 0x800);
  }

  /** The shadowed HV page hashes to 0x020 in its low eleven bits, and no AIL page does. */
  lemma {:induction false} ShadowHashesApart(p: Page, q: Page)
    requires Known(p) && Known(q) && Shadowed(p, q)
    ensures Group(VpnHash(p.vpn, Seg1T, Page16M), 11) != Group(VpnHash(q.vpn, Seg256M, Page4K), 11)
  {
    hide *;
    ShadowParts(p, q);
    GroupResidue(p.vpn, Seg1T, Page16M, 11);
    GroupResidue(q.vpn, Seg256M, Page4K, 11);
    var index := PageIndex(q.vpn, Seg256M, Page4K);
    ShiftedTermGone(HV_VSID, 0x1230, 11);
    ShiftedTermGone(AIL_VSID, index, 11);
    PowEleven();
    ShadowValues(index);
  }

  lemma {:induction false} ShadowParts(p: Page, q: Page)
    requires Known(p) && Known(q) && Shadowed(p, q)
    ensures Vsid(p.vpn, Seg1T) == HV_VSID && PageIndex(p.vpn, Seg1T, Page16M) == 0x1230
    ensures Vsid(q.vpn, Seg256M) == AIL_VSID && PageIndex(q.vpn, Seg256M, Page4K) <= 0x100
  {}

  lemma {:induction false} ShadowValues(index: nat)
    requires index <= 0x100
    ensures Xor(HV_VSID % 0x800, 0x1230 % 0x800) != Xor(AIL_VSID % 0x800, index % 0x800)
  {
    hide Xor;
    ShadowHash();
    if Xor(0x123, index) == Xor(0x123, 0x103) { XorCancel(0x123, index, 0x103); }
  }

  lemma {:induction false} ShadowHash()
    ensures Xor(0x210, 0x230) == Xor(0x123, 0x103)
  {
    hide Xor, Pow2;
    assert Pow2(5) == 32 by { PowFive(); }
    XorSameLow(16, 17, 16, 5);
    XorSameLow(9, 8, 3, 5);
    LowestBit(8);
    LowestBit(4);
  }

  lemma {:induction false} PowFive()
    ensures Pow2(5) == 32
  {}

  lemma {:induction false} LowestBit(a: nat)
    ensures Xor(2 * a, 2 * a + 1) == 1 == Xor(2 * a + 1, 2 * a)
  {
    hide Xor;
    XorSelf(a);
    DoubledXor(a, a, 0, 1);
    DoubledXor(a, a, 1, 0);
  }

  /** Equal low bits cancel. */
  lemma {:induction false} XorSameLow(x: nat, y: nat, c: nat, k: nat)
    requires c < Pow2(k)
    ensures Xor(x * Pow2(k) + c, y * Pow2(k) + c) == Xor(x, y) * Pow2(k)
  {
    hide Xor, Pow2;
    if k == 0 {
      PowZero();
    } else {
      PowSucc(k - 1);
      XorSameLow(x, y, c / 2, k - 1);
      XorSameLowStep(x, y, c, Pow2(k - 1), Xor(x, y));
    }
  }

  lemma {:induction false} XorSameLowStep(x: nat, y: nat, c: nat, p: nat, z: nat)
    requires Xor(x * p + c / 2, y * p + c / 2) == z * p
    ensures Xor(x * (2 * p) + c, y * (2 * p) + c) == z * (2 * p)
  {
    hide Xor;
    DoubledXor(x * p + c / 2, y * p + c / 2, c % 2, c % 2);
    assert x * (2 * p) == 2 * (x * p) && y * (2 * p) == 2 * (y * p) && z * (2 * p) == 2 * (z * p);
  }

  lemma {:induction false} XorSelf(x: nat)
    ensures Xor(x, x) == 0
  {
    if x > 0 { XorSelf(x / 2); }
  }

  /** The key under which software and hardware look for a page is its own. */
  lemma {:induction false} KeyInjective(p: Page, q: Page, ptegs: nat)
    requires Groups(ptegs) && Known(p) && Known(q)
    requires GroupOf(p, ptegs) == GroupOf(q, ptegs) && Avpn(p.vpn, BaseOf(p.space)) == Avpn(q.vpn, BaseOf(q.space))
    ensures p == q
  {
    hide Avpn, VpnHash, Masked, Group, Known, Shadowed;
    LowElevenBits(VpnHash(p.vpn, SegOf(p.space), BaseOf(p.space)), VpnHash(q.vpn, SegOf(q.space), BaseOf(q.space)), ptegs);
    SameSpace(p, q);
    if p.space != q.space {
      ShadowSpaces(p, q);
      if Shadowed(p, q) { ShadowHashesApart(p, q); } else { ShadowHashesApart(q, p); }
    } else if BaseOf(p.space).Page4K? {
      SmallPages(p.vpn, q.vpn);
    }
  }

  lemma {:induction false} ShadowSpaces(p: Page, q: Page)
    requires Shadowed(p, q) || Shadowed(q, p)
    ensures Shadowed(p, q) ==> p.space == Hv && q.space == Ail
    ensures !Shadowed(p, q) ==> q.space == Hv && p.space == Ail
  {}

  /** Two pages share group and abbreviated page number. */
  ghost predicate Confused(p: Page, q: Page, ptegs: nat)
    requires ptegs > 0
  {
    && Known(p) && Known(q) && p != q
    && GroupOf(p, ptegs) == GroupOf(q, ptegs) && Avpn(p.vpn, BaseOf(p.space)) == Avpn(q.vpn, BaseOf(q.space))
  }

  /** Keys tell all pages apart exactly when the group count is a multiple of 2^11. */
  lemma {:induction false} KeysTellApart(ptegs: nat)
    requires 0 < ptegs <= MAX_PTEGS
    ensures (forall p, q :: !Confused(p, q, ptegs)) <==> ptegs % 0x800 == 0
  {
    hide GroupOf, Known, Avpn;
    if ptegs % 0x800 == 0 {
      forall p, q ensures !Confused(p, q, ptegs) {
        if Confused(p, q, ptegs) { KeyInjective(p, q, ptegs); }
      }
    } else {
      var i := MissingBit(ptegs - 1, 11) by { PowEleven(); assert (ptegs - 1) % 0x800 != 0x7ff; }
      GuestPagesConfused(ptegs, i);
      assert Confused(Page(Guest, 0), Page(Guest, Pow2(i)), ptegs);
    }
  }

  /** Guest pages 0 and 2^i meet when the mask lacks bit i. */
  lemma {:induction false} GuestPagesConfused(ptegs: nat, i: nat)
    requires ptegs > 0 && i < 11 && !Bit(ptegs - 1, i)
    ensures Pow2(i) < 0x800 && Confused(Page(Guest, 0), Page(Guest, Pow2(i)), ptegs)
  {
    hide And, Pow2, Xor;
    PowEleven();
    PowBelow(i, 11);
    HashOfGuestPage(0);
    HashOfGuestPage(Pow2(i));
    AndPower(i, ptegs - 1);
    AndOfZero(ptegs - 1);
  }

  lemma {:induction false} AndOfZero(m: nat)
    ensures And(0, m) == 0
  {}

  /** The hash of a page in the guest's first segment is its page number. */
  lemma {:induction false} HashOfGuestPage(v: nat)
    requires v < 0x800
    ensures VpnHash(v, Seg256M, Page4K) == v
  {
    hide And, Pow2, Xor;
    SegMask(v, Seg256M);
    ZeroVsid(v);
    PowTwentyEight();
    AndLowMask(v, 39);
    UniqueQuotient(v, Pow2(39), 0, v);
  }

  lemma {:induction false} ZeroVsid(v: nat)
    ensures Shl64(0, 25) == 0 && Xor(Xor(0, 0), v) == v
  {}

  // ---------- entries

  /** The two words of a page table entry. */
  datatype Pte = Pte(v: nat, r: nat)

  /** Where a page is mapped, its protection bits, and the size of the page it is part of. */
  datatype Frame = Frame(ra: nat, pp: Prot, actual: PageSize)

  /** prot_t: what supervisor and user may do, in this order. */
  datatype Prot = RWXX | RWRX | RWRW | RXRX | RXXX

  /** PTE_R_PP0 and PTE_R_PP. */
  function PpBits(pp: Prot): nat {
    match pp
    case RWXX => 0
    case RWRX => 1
    case RWRW => 2
    case RXRX => 3
    case RXXX => 0x8000_0000_0000_0002
  }

  function SizeOf(size: PageSize): nat { if size.Page16M? then 0x100_0000 else 0x1000 }

  /** What the BUG_ON checks of the map functions demand. */
  predicate FrameOk(base: PageSize, f: Frame) {
    f.ra < 0x1000_0000_0000_0000 && f.ra % SizeOf(f.actual) == 0 && SizeOf(base) <= SizeOf(f.actual)
  }

  /** The V word: abbreviated page number, PTE_R_M, valid, large and 1T bits; the fields do not overlap. */
  function VWord(vpn: Vpn, seg: SegSize, base: PageSize, actual: PageSize): nat {
    Avpn(vpn, base) + 0x11 + (if actual.Page16M? then 4 else 0) + (if seg.Seg1T? then PTE_V_1TB_SEG else 0)
  }

  /** rpn_encode with the flags: real page, large-page encoding, PTE_R_M and protection. */
  function RWord(f: Frame, base: PageSize): nat {
    f.ra + (if f.actual.Page16M? && base.Page4K? then PTE_R_LP_4K_16M * 0x1000 else 0) + 0x10 + PpBits(f.pp)
  }

  function Encode(p: Page, f: Frame): Pte {
    Pte(VWord(p.vpn, SegOf(p.space), BaseOf(p.space), f.actual), RWord(f, BaseOf(p.space)))
  }

  predicate InForce(e: Pte) { e.v % 2 == 1 }

  /** The bits of PTE_V_AVPN. */
  function AvpnField(v: nat): nat { v / 0x80 % 0x80_0000_0000_0000 * 0x80 }

  lemma {:induction false} EncodedV(p: Page, f: Frame)
    ensures InForce(Encode(p, f)) && AvpnField(Encode(p, f).v) == Avpn(p.vpn, BaseOf(p.space))
  {
    hide Avpn, AvpnField, RWord;
    var a := AvpnParts(p.vpn, BaseOf(p.space));
    FieldOf(a, 0x11 + (if f.actual.Page16M? then 4 else 0), if SegOf(p.space).Seg1T? then 1 else 0);
  }

  lemma {:induction false} AvpnParts(vpn: Vpn, base: PageSize) returns (a: nat)
    ensures Avpn(vpn, base) == a * 0x80 && a < 0x20_0000_0000_0000
  {
    a := if base.Page16M? then vpn / 0x800 - vpn / 0x800 % 2 else vpn / 0x800;
  }

  lemma {:induction false} FieldOf(a: nat, low: nat, b: nat)
    requires a < 0x80_0000_0000_0000 && low < 0x80 && low % 2 == 1
    ensures var v := a * 0x80 + low + b * PTE_V_1TB_SEG; v % 2 == 1 && AvpnField(v) == a * 0x80
  {
    var v, q := a * 0x80 + low + b * PTE_V_1TB_SEG, a + b * 0x80_0000_0000_0000;
    assert v / 0x80 == q by { UniqueQuotient(v, 0x80, q, low); }
    assert q % 0x80_0000_0000_0000 == a by { UniqueQuotient(q, 0x80_0000_0000_0000, b, a); }
    OddLow(a * 0x40 + b * 0x2000_0000_0000_0000, low, v);
  }

  lemma {:induction false} OddLow(half: nat, low: nat, v: nat)
    requires v == 2 * half + low && low % 2 == 1
    ensures v % 2 == 1
  {}

  // ---------- the table as a partial map

  type Table = seq<Pte>

  /** A table's pages, and the slot that holds each. */
  datatype Layout = Layout(frames: map<Page, Frame>, slot: map<Page, nat>, owner: map<nat, Page>)

  ghost predicate Stored(t: Table, ptegs: nat, l: Layout, p: Page)
    requires ptegs > 0
  {
    && p in l.frames && Known(p) && FrameOk(BaseOf(p.space), l.frames[p])
    && p in l.slot && l.slot[p] < |t| && l.slot[p] / 8 == GroupOf(p, ptegs) && t[l.slot[p]] == Encode(p, l.frames[p])
  }

  ghost predicate Owned(l: Layout, n: nat) {
    n in l.owner && l.owner[n] in l.frames && l.owner[n] in l.slot && l.slot[l.owner[n]] == n
  }

  /** Exactly the entries of `l` are in force, each in its own group. */
  ghost predicate Refines(t: Table, ptegs: nat, l: Layout) {
    && Groups(ptegs) && |t| == 8 * ptegs
    && (forall p {:trigger Stored(t, ptegs, l, p)} :: p in l.frames ==> Stored(t, ptegs, l, p))
    && (forall n {:trigger Owned(l, n)} :: 0 <= n < |t| && InForce(t[n]) ==> Owned(l, n))
  }

  lemma {:induction false} GroupBelow(p: Page, ptegs: nat)
    requires ptegs > 0
    ensures GroupOf(p, ptegs) < ptegs
  {
    hide And, VpnHash;
    AndBelow(VpnHash(p.vpn, SegOf(p.space), BaseOf(p.space)), ptegs - 1);
  }

  lemma {:induction false} RefinesGroups(t: Table, ptegs: nat, l: Layout)
    requires Refines(t, ptegs, l)
    ensures ptegs > 0 && Groups(ptegs) && |t| == 8 * ptegs
  {}

  /** The only entry in force that matches a page in its group is the page's own. */
  lemma {:induction false} MatchIsOwn(t: Table, ptegs: nat, l: Layout, p: Page, n: nat)
    requires Refines(t, ptegs, l) && Known(p) && n < |t| && n / 8 == GroupOf(p, ptegs)
    requires InForce(t[n]) && AvpnField(t[n].v) == Avpn(p.vpn, BaseOf(p.space))
    ensures p in l.frames && p in l.slot && l.slot[p] == n && t[n] == Encode(p, l.frames[p])
  {
    hide GroupOf, Avpn, Encode, Known, AvpnField;
    assert Owned(l, n);
    var q := l.owner[n];
    assert Stored(t, ptegs, l, q);
    EncodedV(q, l.frames[q]);
    KeyInjective(p, q, ptegs);
  }

  /** A page in the table is found in its group. */
  lemma {:induction false} OwnMatches(t: Table, ptegs: nat, l: Layout, p: Page)
    requires Refines(t, ptegs, l) && p in l.frames
    ensures p in l.slot && l.slot[p] < |t| && l.slot[p] / 8 == GroupOf(p, ptegs) && Known(p)
    ensures var n := l.slot[p];
      t[n] == Encode(p, l.frames[p]) && InForce(t[n]) && AvpnField(t[n].v) == Avpn(p.vpn, BaseOf(p.space))
  {
    hide GroupOf, Avpn, Encode, Known, AvpnField;
    assert Stored(t, ptegs, l, p);
    EncodedV(p, l.frames[p]);
  }

  function Inserted(l: Layout, p: Page, f: Frame, n: nat): Layout {
    Layout(l.frames[p := f], l.slot[p := n], l.owner[n := p])
  }

  lemma {:induction false} InsertRefines(t: Table, ptegs: nat, l: Layout, p: Page, f: Frame, n: nat)
    requires Refines(t, ptegs, l) && Known(p) && FrameOk(BaseOf(p.space), f) && p !in l.frames
    requires n < |t| && n / 8 == GroupOf(p, ptegs) && !InForce(t[n])
    ensures Refines(t[n := Encode(p, f)], ptegs, Inserted(l, p, f, n))
  {
    hide GroupOf, Avpn, Encode, Known, AvpnField, InForce, FrameOk;
    var t', l' := t[n := Encode(p, f)], Inserted(l, p, f, n);
    EncodedV(p, f);
    forall q | q in l'.frames ensures Stored(t', ptegs, l', q) {
      if q != p { assert Stored(t, ptegs, l, q); EncodedV(q, l.frames[q]); }
    }
    forall m | 0 <= m < |t'| && InForce(t'[m]) ensures Owned(l', m) {
      if m != n { assert Owned(l, m); }
    }
  }

  /** Two entries in force in one group for the same abbreviated page number. */
  ghost predicate Twins(t: Table, n: nat, m: nat) {
    n < m < |t| && n / 8 == m / 8 && InForce(t[n]) && InForce(t[m]) && AvpnField(t[n].v) == AvpnField(t[m].v)
  }

  ghost predicate Doubled(t: Table) { exists n: nat, m: nat :: Twins(t, n, m) }

  /** Such a table is none with one entry a page. */
  lemma {:induction false} DoubledRefinesNothing(t: Table, ptegs: nat, l: Layout)
    requires Doubled(t)
    ensures !Refines(t, ptegs, l)
  {
    hide GroupOf, Avpn, Encode, Known, AvpnField, InForce, FrameOk;
    var n: nat, m: nat :| Twins(t, n, m);
    if Refines(t, ptegs, l) {
      assert Owned(l, n) && Owned(l, m);
      var p, q := l.owner[n], l.owner[m];
      assert Stored(t, ptegs, l, p) && Stored(t, ptegs, l, q);
      EncodedV(p, l.frames[p]);
      EncodedV(q, l.frames[q]);
      KeyInjective(p, q, ptegs);
    }
  }

  lemma {:induction false} InsertDoubles(t: Table, ptegs: nat, l: Layout, p: Page, f: Frame, n: nat)
    requires Refines(t, ptegs, l) && p in l.frames && n < |t| && n / 8 == GroupOf(p, ptegs) && !InForce(t[n])
    ensures Doubled(t[n := Encode(p, f)])
  {
    hide GroupOf, Avpn, Encode, Known, AvpnField, InForce, FrameOk;
    OwnMatches(t, ptegs, l, p);
    EncodedV(p, f);
    var m, t' := l.slot[p], t[n := Encode(p, f)];
    assert if n < m then Twins(t', n, m) else Twins(t', m, n);
  }

  lemma {:induction false} DoubledStays(t: Table, n: nat, e: Pte)
    requires Doubled(t) && n < |t| && !InForce(t[n])
    ensures Doubled(t[n := e])
  {
    hide AvpnField, InForce;
    var a: nat, b: nat :| Twins(t, a, b);
    assert Twins(t[n := e], a, b);
  }

  function Removed(l: Layout, p: Page): Layout {
    Layout(l.frames - {p}, l.slot, l.owner)
  }

  lemma {:induction false} RemoveRefines(t: Table, ptegs: nat, l: Layout, p: Page, e: Pte)
    requires Refines(t, ptegs, l) && p in l.frames && p in l.slot && l.slot[p] < |t| && !InForce(e)
    ensures Refines(t[l.slot[p] := e], ptegs, Removed(l, p))
  {
    hide GroupOf, Avpn, Encode, Known, AvpnField, InForce, FrameOk;
    var n := l.slot[p];
    var t', l' := t[n := e], Removed(l, p);
    forall q | q in l'.frames ensures Stored(t', ptegs, l', q) {
      assert Stored(t, ptegs, l, q);
      OwnMatches(t, ptegs, l, p);
      OwnMatches(t, ptegs, l, q);
      if l.slot[q] == n { KeyInjective(p, q, ptegs); }
    }
    forall m | 0 <= m < |t'| && InForce(t'[m]) ensures Owned(l', m) {
      assert Owned(l, m);
    }
  }

  // ---------- mapping and unmapping

  /** The j-th base page of an actual page that starts at base page `p`. */
  function PageAt(p: Page, j: nat): Page
    requires p.vpn + j * PageSpan(BaseOf(p.space)) < TWO_TO_THE_64
  {
    Page(p.space, p.vpn + j * PageSpan(BaseOf(p.space)))
  }

  /** How many base pages an actual page covers: 4096 for 4K pages in a 16M page, else one. */
  function BasePages(base: PageSize, actual: PageSize): nat {
    if base.Page4K? && actual.Page16M? then 0x1000 else 1
  }

  ghost predicate AllKnown(p: Page, n: nat) {
    forall j: nat :: j < n ==> p.vpn + j * PageSpan(BaseOf(p.space)) < TWO_TO_THE_64 && Known(PageAt(p, j))
  }

  /** `q` is one of the first `n` base pages from `p`. */
  ghost predicate PartOf(p: Page, n: nat, q: Page) {
    q.space == p.space && p.vpn <= q.vpn < p.vpn + n * PageSpan(BaseOf(p.space)) && (q.vpn - p.vpn) % PageSpan(BaseOf(p.space)) == 0
  }

  lemma {:induction false} PartsOfOneMore(p: Page, n: nat, q: Page)
    requires p.vpn + n * PageSpan(BaseOf(p.space)) < TWO_TO_THE_64
    ensures PartOf(p, n + 1, q) <==> PartOf(p, n, q) || q == PageAt(p, n)
    ensures !PartOf(p, n, PageAt(p, n)) && !PartOf(p, 0, q)
  {
    var d := q.vpn - p.vpn;
    if BaseOf(p.space).Page16M? { assert (n * 0x1000) % 0x1000 == 0; }
  }

  ghost predicate SameFrame(frames: map<Page, Frame>, frames': map<Page, Frame>, q: Page) {
    (q in frames' <==> q in frames) && (q in frames ==> q in frames' && frames'[q] == frames[q])
  }

  /** The first `n` base pages are mapped by `f`; everything else is as in `frames`. */
  ghost predicate WithPages(frames: map<Page, Frame>, frames': map<Page, Frame>, p: Page, n: nat, f: Frame) {
    forall q :: if PartOf(p, n, q) then q in frames' && frames'[q] == f else SameFrame(frames, frames', q)
  }

  /** The first `n` base pages are gone; everything else is as in `frames`. */
  ghost predicate WithoutPages(frames: map<Page, Frame>, frames': map<Page, Frame>, p: Page, n: nat) {
    forall q :: if PartOf(p, n, q) then q !in frames' else SameFrame(frames, frames', q)
  }

  ghost predicate GroupFull(t: Table, g: nat) {
    8 * g + 8 <= |t| && forall n :: 8 * g <= n < 8 * g + 8 ==> InForce(t[n])
  }

  /** The first slot of a group that is not in force, or 8. */
  method FindFree(htab: array<Pte>, g: nat) returns (i: nat)
    requires 8 * g + 8 <= htab.Length
    ensures i <= 8 && (i < 8 ==> !InForce(htab[8 * g + i])) && (i == 8 ==> GroupFull(htab[..], g))
  {
    i := 0;
    while i < PTES_PER_GROUP
      invariant i <= 8 && forall n :: 8 * g <= n < 8 * g + i ==> InForce(htab[n])
    {
      if htab[8 * g + i].v % 2 == 0 { break; }
      i := i + 1;
    }
  }

  /** The first slot of a group in force for an abbreviated page number, or 8. */
  method FindMatch(htab: array<Pte>, g: nat, avpn: nat) returns (i: nat)
    requires 8 * g + 8 <= htab.Length
    ensures i <= 8 && (i < 8 ==> InForce(htab[8 * g + i]) && AvpnField(htab[8 * g + i].v) == avpn)
    ensures i == 8 ==> forall n :: 8 * g <= n < 8 * g + 8 && InForce(htab[n]) ==> AvpnField(htab[n].v) != avpn
  {
    i := 0;
    while i < PTES_PER_GROUP
      invariant i <= 8 && forall n :: 8 * g <= n < 8 * g + i && InForce(htab[n]) ==> AvpnField(htab[n].v) != avpn
    {
      if htab[8 * g + i].v % 2 == 1 && AvpnField(htab[8 * g + i].v) == avpn { break; }
      i := i + 1;
    }
  }

  /** One step of mmu_map_vpn: one base page gets an entry, a second one if it has one already. */
  method MapBasePage(htab: array<Pte>, ptegs: nat, p: Page, f: Frame, ghost l: Layout) returns (ok: bool, ghost l': Layout)
    requires Groups(ptegs) && htab.Length == 8 * ptegs && Known(p) && FrameOk(BaseOf(p.space), f)
    modifies htab
    ensures ok ==> l'.frames == l.frames[p := f]
    ensures !ok ==> l' == l && htab[..] == old(htab[..]) && GroupFull(htab[..], GroupOf(p, ptegs))
    ensures old(Refines(htab[..], ptegs, l)) && (ok ==> p !in l.frames) ==> Refines(htab[..], ptegs, l')
    ensures old(Refines(htab[..], ptegs, l)) && ok && p in l.frames ==> Doubled(htab[..])
    ensures old(Doubled(htab[..])) ==> Doubled(htab[..])
  {
    hide GroupOf, Avpn, Encode, Known, FrameOk, Pow2, Refines, Doubled, InForce;
    var g := GroupOf(p, ptegs);
    GroupBelow(p, ptegs);
    l' := l;
    var i := FindFree(htab, g);
    ok := i < PTES_PER_GROUP;
    if ok {
      ghost var n, t := 8 * g + i, htab[..];
      if Refines(t, ptegs, l) {
        if p in l.frames { InsertDoubles(t, ptegs, l, p, f, n); } else { InsertRefines(t, ptegs, l, p, f, n); }
      }
      if Doubled(t) { DoubledStays(t, n, Encode(p, f)); }
      htab[8 * g + i] := Encode(p, f);
      assert htab[..] == t[n := Encode(p, f)];
      l' := Inserted(l, p, f, n);
    }
  }

  /** One step of mmu_unmap_vpn. */
  method UnmapBasePage(htab: array<Pte>, ptegs: nat, p: Page, ghost l: Layout) returns (ok: bool, ghost l': Layout)
    requires Refines(htab[..], ptegs, l) && Known(p)
    modifies htab
    ensures Refines(htab[..], ptegs, l')
    ensures ok <==> p in l.frames
    ensures l'.frames == l.frames - {p}
  {
    hide GroupOf, Avpn, Encode, Known, FrameOk, Pow2;
    var g := GroupOf(p, ptegs);
    GroupBelow(p, ptegs);
    l' := l;
    var i := FindMatch(htab, g, Avpn(p.vpn, BaseOf(p.space)));
    ok := i < PTES_PER_GROUP;
    if ok {
      MatchIsOwn(htab[..], ptegs, l, p, 8 * g + i);
      RemoveRefines(htab[..], ptegs, l, p, Pte(0, htab[8 * g + i].r));
      htab[8 * g + i] := Pte(0, htab[8 * g + i].r);
      l' := Removed(l, p);
    } else if p in l.frames {
      OwnMatches(htab[..], ptegs, l, p);
    }
  }

  /** The first `j` base pages are mapped, and the group of the next is full. */
  ghost predicate StoppedAt(t: Table, ptegs: nat, frames: map<Page, Frame>, frames': map<Page, Frame>, p: Page, j: nat, f: Frame)
    requires ptegs > 0
  {
    && j < BasePages(BaseOf(p.space), f.actual) && AllKnown(p, j + 1)
    && WithPages(frames, frames', p, j, f) && GroupFull(t, GroupOf(PageAt(p, j), ptegs))
  }

  lemma {:induction false} NoneMapped(frames: map<Page, Frame>, p: Page, f: Frame)
    ensures WithPages(frames, frames, p, 0, f) && WithoutPages(frames, frames, p, 0)
  {
    forall q ensures !PartOf(p, 0, q) { PartsOfOneMore(p, 0, q); }
  }

  lemma {:induction false} OneMoreMapped(frames: map<Page, Frame>, frames': map<Page, Frame>, p: Page, n: nat, f: Frame)
    requires p.vpn + n * PageSpan(BaseOf(p.space)) < TWO_TO_THE_64 && WithPages(frames, frames', p, n, f)
    ensures WithPages(frames, frames'[PageAt(p, n) := f], p, n + 1, f)
    ensures PageAt(p, n) in frames <==> PageAt(p, n) in frames'
  {
    hide PartOf, PageAt;
    PartsOfOneMore(p, n, PageAt(p, n));
    forall q ensures PartOf(p, n + 1, q) <==> PartOf(p, n, q) || q == PageAt(p, n) { PartsOfOneMore(p, n, q); }
    assert PartOf(p, n + 1, PageAt(p, n));
  }

  lemma {:induction false} OneMoreGone(frames: map<Page, Frame>, frames': map<Page, Frame>, p: Page, n: nat)
    requires p.vpn + n * PageSpan(BaseOf(p.space)) < TWO_TO_THE_64 && WithoutPages(frames, frames', p, n)
    ensures WithoutPages(frames, frames' - {PageAt(p, n)}, p, n + 1)
    ensures PageAt(p, n) in frames <==> PageAt(p, n) in frames'
  {
    hide PartOf, PageAt;
    PartsOfOneMore(p, n, PageAt(p, n));
    forall q ensures PartOf(p, n + 1, q) <==> PartOf(p, n, q) || q == PageAt(p, n) { PartsOfOneMore(p, n, q); }
    assert PartOf(p, n + 1, PageAt(p, n));
  }

  /** None of the first `n` base pages is mapped. */
  ghost predicate NoneOf(frames: map<Page, Frame>, p: Page, n: nat)
    requires AllKnown(p, n)
  {
    forall j: nat :: j < n ==> PageAt(p, j) !in frames
  }

  lemma {:induction false} NoneOfNone(frames: map<Page, Frame>, p: Page)
    ensures AllKnown(p, 0) && NoneOf(frames, p, 0)
  {}

  lemma {:induction false} NoneOfStep(frames: map<Page, Frame>, p: Page, n: nat, m: nat)
    requires n < m && AllKnown(p, m)
    ensures AllKnown(p, n) && AllKnown(p, n + 1)
    ensures NoneOf(frames, p, n + 1) <==> NoneOf(frames, p, n) && PageAt(p, n) !in frames
    ensures NoneOf(frames, p, m) ==> NoneOf(frames, p, n + 1)
  {}

  /** The table holds one entry a page as long as no page was there before, and doubles else. */
  ghost predicate OneEntryEach(t: Table, ptegs: nat, l: Layout, clean: bool) {
    if clean then Refines(t, ptegs, l) else Doubled(t)
  }

  /** mmu_map_vpn: every base page of the actual page gets an entry. */
  method MapVpn(htab: array<Pte>, ptegs: nat, p: Page, f: Frame, ghost l: Layout) returns (ok: bool, ghost l': Layout)
    requires Groups(ptegs) && htab.Length == 8 * ptegs && FrameOk(BaseOf(p.space), f)
    requires AllKnown(p, BasePages(BaseOf(p.space), f.actual))
    modifies htab
    ensures var n := BasePages(BaseOf(p.space), f.actual);
      && (ok ==> WithPages(l.frames, l'.frames, p, n, f))
      && (!ok ==> exists j: nat :: StoppedAt(htab[..], ptegs, l.frames, l'.frames, p, j, f))
      && (old(Refines(htab[..], ptegs, l)) && ok ==> OneEntryEach(htab[..], ptegs, l', NoneOf(l.frames, p, n)))
      && (old(Refines(htab[..], ptegs, l)) ==> Refines(htab[..], ptegs, l') || (Doubled(htab[..]) && !NoneOf(l.frames, p, n)))
      && (old(Doubled(htab[..])) ==> Doubled(htab[..]))
  {
    hide GroupOf, Avpn, Encode, Known, Refines, WithPages, GroupFull, Halfway, Doubled, NoneOf;
    ghost var n := BasePages(BaseOf(p.space), f.actual);
    var baseSize, actualSize, vpn := SizeOf(BaseOf(p.space)), SizeOf(f.actual), p.vpn;
    ghost var done: nat := 0;
    l' := l;
    NoneMapped(l.frames, p, f);
    NoneOfNone(l.frames, p);
    FirstPage(p, f.actual);
    ghost var refined := Refines(htab[..], ptegs, l);
    while actualSize != 0
      invariant done <= n && Halfway(p, n, done, actualSize, baseSize, vpn)
      invariant AllKnown(p, done) && (refined ==> OneEntryEach(htab[..], ptegs, l', NoneOf(l.frames, p, done)))
      invariant old(Doubled(htab[..])) ==> Doubled(htab[..])
      invariant WithPages(l.frames, l'.frames, p, done, f)
      decreases n - done
    {
      NextPage(p, n, done, actualSize, baseSize, vpn);
      var page := Page(p.space, vpn);
      OneMoreMapped(l.frames, l'.frames, p, done, f);
      NoneOfStep(l.frames, p, done, n);
      ok, l' := MapBasePage(htab, ptegs, page, f, l');
      if !ok {
        assert StoppedAt(htab[..], ptegs, l.frames, l'.frames, p, done, f);
        return;
      }
      actualSize := actualSize - baseSize;
      vpn := vpn + PageSpan(BaseOf(p.space));
      done := done + 1;
    }
    NextPage(p, n, done, actualSize, baseSize, vpn);
    ok := true;
  }

  /** The counters of the map and unmap loops after `done` of `n` base pages. */
  ghost predicate Halfway(p: Page, n: nat, done: nat, left: int, baseSize: nat, vpn: int) {
    && baseSize == SizeOf(BaseOf(p.space)) && done <= n && left == (n - done) * baseSize
    && vpn == p.vpn + done * PageSpan(BaseOf(p.space))
  }

  lemma {:induction false} FirstPage(p: Page, actual: PageSize)
    requires SizeOf(BaseOf(p.space)) <= SizeOf(actual)
    ensures Halfway(p, BasePages(BaseOf(p.space), actual), 0, SizeOf(actual), SizeOf(BaseOf(p.space)), p.vpn)
  {}

  lemma {:induction false} NextPage(p: Page, n: nat, done: nat, left: int, baseSize: nat, vpn: int)
    requires Halfway(p, n, done, left, baseSize, vpn) && AllKnown(p, n)
    ensures left == 0 ==> done == n
    ensures left != 0 ==> done < n && 0 <= vpn < TWO_TO_THE_64 && p.vpn + done * PageSpan(BaseOf(p.space)) < TWO_TO_THE_64
    ensures left != 0 ==> Page(p.space, vpn) == PageAt(p, done) && Known(PageAt(p, done))
    ensures left != 0 ==> Halfway(p, n, done + 1, left - baseSize, baseSize, vpn + PageSpan(BaseOf(p.space)))
  {}

  /** The first `n` base pages are mapped. */
  ghost predicate AllIn(frames: map<Page, Frame>, p: Page, n: nat)
    requires AllKnown(p, n)
  {
    forall j: nat :: j < n ==> PageAt(p, j) in frames
  }

  lemma {:induction false} NoneIn(frames: map<Page, Frame>, p: Page)
    ensures AllIn(frames, p, 0)
  {}

  lemma {:induction false} AllInStep(frames: map<Page, Frame>, p: Page, n: nat, m: nat)
    requires n < m && AllKnown(p, m) && AllIn(frames, p, n)
    ensures AllIn(frames, p, n + 1) <==> PageAt(p, n) in frames
    ensures AllIn(frames, p, m) ==> PageAt(p, n) in frames
  {}

  /** mmu_unmap_vpn: every base page of the actual page loses its entry, up to one that is not mapped. */
  method UnmapVpn(htab: array<Pte>, ptegs: nat, p: Page, actual: PageSize, ghost l: Layout) returns (ok: bool, ghost l': Layout)
    requires Refines(htab[..], ptegs, l) && SizeOf(BaseOf(p.space)) <= SizeOf(actual)
    requires AllKnown(p, BasePages(BaseOf(p.space), actual))
    modifies htab
    ensures Refines(htab[..], ptegs, l')
    ensures ok <==> AllIn(l.frames, p, BasePages(BaseOf(p.space), actual))
    ensures ok ==> WithoutPages(l.frames, l'.frames, p, BasePages(BaseOf(p.space), actual))
  {
    hide GroupOf, Avpn, Encode, Known, Refines, WithoutPages, AllIn, Halfway;
    ghost var n := BasePages(BaseOf(p.space), actual);
    var baseSize, actualSize, vpn := SizeOf(BaseOf(p.space)), SizeOf(actual), p.vpn;
    ghost var done: nat := 0;
    l' := l;
    NoneMapped(l.frames, p, Frame(0, RWXX, actual));
    NoneIn(l.frames, p);
    FirstPage(p, actual);
    while actualSize != 0
      invariant done <= n && Halfway(p, n, done, actualSize, baseSize, vpn)
      invariant Refines(htab[..], ptegs, l')
      invariant WithoutPages(l.frames, l'.frames, p, done)
      invariant AllIn(l.frames, p, done)
      decreases n - done
    {
      NextPage(p, n, done, actualSize, baseSize, vpn);
      var page := Page(p.space, vpn);
      OneMoreGone(l.frames, l'.frames, p, done);
      AllInStep(l.frames, p, done, n);
      ok, l' := UnmapBasePage(htab, ptegs, page, l');
      if !ok { return; }
      actualSize := actualSize - baseSize;
      vpn := vpn + PageSpan(BaseOf(p.space));
      done := done + 1;
    }
    NextPage(p, n, done, actualSize, baseSize, vpn);
    ok := true;
  }
}
