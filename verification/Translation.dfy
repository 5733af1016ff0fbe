/**
 Effective addresses and the page numbers software gives them, segment entries, and the hardware's
 translation path, written independently.
 */
module Translation {
  import opened MachineWords
  import opened BitTricks
  import opened Masks
  import opened PageHash
  import opened PageTable
  import opened PageGroups

  const HV_ASPACE: nat := 0x8000_0000_0000_0000
  const AIL_ASPACE_START: nat := 0xc000_0000_0000_0000
  const AIL_ASPACE_END: nat := 0xc000_0000_0010_0000
  const LAYOUT_VM_END: nat := 0x1_0000_0000
  const HV_SIZE: nat := 0x100_0000_0000
  const SR_COUNT: nat := 16
  const SLB_SIZE: nat := 32
  const HV_SLOT: nat := 0
  const AIL_SLOT: nat := 1
  const GRM_SLOT: nat := 2

  type Ea = n: nat | n < TWO_TO_THE_64

  function SegBytes(seg: SegSize): nat { if seg.Seg1T? then 0x100_0000_0000 else 0x1000_0000 }

  // ---------- the software's view of an address

  predicate IsAil(ea: Ea) { AIL_ASPACE_START <= ea <= AIL_ASPACE_END }

  predicate IsHv(ea: Ea) { !IsAil(ea) && ea >= HV_ASPACE }

  predicate IsGuest(ea: Ea) { ea < LAYOUT_VM_END }

  /** Addresses the segment entries reach. */
  predicate Supported(ea: Ea) { IsAil(ea) || (IsHv(ea) && ea < HV_ASPACE + HV_SIZE) || IsGuest(ea) }

  function SpaceOf(ea: Ea, mmuOff: bool): Space {
    if IsAil(ea) then Ail else if ea >= HV_ASPACE then Hv else if mmuOff then RealMode else Guest
  }

  /** ea_2_vpn, for the VSIDs in the guest's segment registers `sr`. */
  function EaToVpn(ea: Ea, mmuOff: bool, sr: seq<nat>): nat
    requires |sr| == SR_COUNT && (ea >= HV_ASPACE || IsGuest(ea))
  {
    if IsAil(ea) then
      Or((ea - AIL_ASPACE_START) / 0x1000, AIL_VSID * Pow2(16))
    else if ea >= HV_ASPACE then
      Or((ea - HV_ASPACE) / 0x1000, HV_VSID * Pow2(28))
    else if mmuOff then
      Or(ea / 0x1000, GRM_VSID * Pow2(28))
    else
      Or(ea / 0x1000, sr[ea / 0x1000_0000] * Pow2(16))
  }

  /** The offset of an address in its space. */
  function Offset(ea: Ea): nat {
    if IsAil(ea) then ea - AIL_ASPACE_START else if ea >= HV_ASPACE then ea - HV_ASPACE else ea
  }

  lemma {:induction false} OrApart(x: nat, y: nat, k: nat)
    requires x < Pow2(k)
    ensures Or(x, y * Pow2(k)) == x + y * Pow2(k)
  {
    hide Or, Pow2;
    OrEnds(y);
    if k > 0 {
      PowSucc(k - 1);
      OrApart(x / 2, y, k - 1);
      Halves(y, Pow2(k - 1));
      ApartStep(x, y * Pow2(k - 1));
    }
  }

  lemma {:induction false} OrEnds(y: nat)
    ensures Pow2(0) == 1 && Or(0, y) == y && Or(y, y) == y
  {
    OrSelf(y);
  }

  lemma {:induction false} Halves(y: nat, p: nat)
    ensures y * (2 * p) == 2 * (y * p)
  {}

  lemma {:induction false} ApartStep(x: nat, z: nat)
    requires Or(x / 2, z) == x / 2 + z
    ensures Or(x, 2 * z) == x + 2 * z
  {}

  lemma {:induction false} OverlapStep(x: nat, z: nat)
    requires Or(x / 2 + z, z) == x / 2 + z
    ensures Or(x + 2 * z, 2 * z) == x + 2 * z
  {
    assert (x + 2 * z) / 2 == x / 2 + z && (2 * z) / 2 == z && (x + 2 * z) % 2 == x % 2;
  }

  lemma {:induction false} OrSelf(x: nat)
    ensures Or(x, x) == x
  {
    if x > 0 { OrSelf(x / 2); }
  }

  /** A field that is already there changes nothing. */
  lemma {:induction false} OrOverlap(x: nat, y: nat, k: nat)
    requires x < Pow2(k)
    ensures Or(x + y * Pow2(k), y * Pow2(k)) == x + y * Pow2(k)
  {
    hide Or, Pow2;
    OrEnds(y);
    if k > 0 {
      PowSucc(k - 1);
      OrOverlap(x / 2, y, k - 1);
      Halves(y, Pow2(k - 1));
      OverlapStep(x, y * Pow2(k - 1));
    }
  }

  /** The guest's segment registers, which nothing changes after start-up. */
  ghost predicate IdentitySr(sr: seq<nat>) { |sr| == SR_COUNT && forall i :: 0 <= i < SR_COUNT ==> sr[i] == i }

  /** On supported addresses ea_2_vpn is base plus offset. */
  lemma {:induction false} VpnOfEa(ea: Ea, mmuOff: bool, sr: seq<nat>)
    requires Supported(ea) && IdentitySr(sr)
    ensures EaToVpn(ea, mmuOff, sr) == FirstVpn(SpaceOf(ea, mmuOff)) + Offset(ea) / 0x1000 < TWO_TO_THE_64
    ensures Offset(ea) / 0x1000 < SpacePages(SpaceOf(ea, mmuOff))
  {
    hide Or, Pow2;
    PowValues();
    PowTwentyEight();
    if IsAil(ea) {
      OrApart((ea - AIL_ASPACE_START) / 0x1000, AIL_VSID, 16);
    } else if ea >= HV_ASPACE {
      OrApart((ea - HV_ASPACE) / 0x1000, HV_VSID, 28);
    } else if mmuOff {
      OrApart(ea / 0x1000, GRM_VSID, 28);
    } else {
      var i := ea / 0x1000_0000;
      assert sr[i] == i && ea / 0x1000 == ea % 0x1000_0000 / 0x1000 + i * 0x1_0000;
      OrOverlap(ea % 0x1000_0000 / 0x1000, i, 16);
    }
  }

  /** The address spaces and their page numbers, in numbers. */
  lemma {:induction false} SpacesInNumbers(ea: Ea, mmuOff: bool, sr: seq<nat>)
    requires IdentitySr(sr)
    ensures Supported(ea) <==>
      ea < 0x1_0000_0000 || 0x8000_0000_0000_0000 <= ea < 0x8000_0100_0000_0000 || 0xC000_0000_0000_0000 <= ea <= 0xC000_0000_0010_0000
    ensures 0xC000_0000_0000_0000 <= ea <= 0xC000_0000_0010_0000 ==>
      EaToVpn(ea, mmuOff, sr) == 0x8765_4321_0123 * 0x1_0000 + (ea - 0xC000_0000_0000_0000) / 0x1000
    ensures 0x8000_0000_0000_0000 <= ea < 0x8000_0100_0000_0000 ==>
      EaToVpn(ea, mmuOff, sr) == 0x8_7654_3210 * 0x1000_0000 + (ea - 0x8000_0000_0000_0000) / 0x1000
    ensures ea < 0x1_0000_0000 ==> EaToVpn(ea, mmuOff, sr) == (if mmuOff then 0x5_5555_5555 * 0x1000_0000 else 0) + ea / 0x1000
  {
    hide EaToVpn;
    if Supported(ea) { VpnOfEa(ea, mmuOff, sr); }
  }

  const AIL_SHADOW: nat := 0x12_3000_0000

  /**
   HV and AIL addresses share a page number exactly in the 0x101 pages from HV offset AIL_SHADOW on,
   and a 16M page of page numbers exactly in the HV page there.
   */
  lemma {:induction false} SpacesMeet(ea: Ea, mmuOff: bool, sr: seq<nat>)
    requires IsHv(ea) && Supported(ea) && IdentitySr(sr)
    ensures (exists a: Ea :: IsAil(a) && EaToVpn(a, mmuOff, sr) == EaToVpn(ea, mmuOff, sr)) <==>
            AIL_SHADOW <= ea - HV_ASPACE < AIL_SHADOW + 0x101 * 0x1000
    ensures (exists a: Ea :: IsAil(a) && EaToVpn(a, mmuOff, sr) / 0x1000 == EaToVpn(ea, mmuOff, sr) / 0x1000) <==>
            (ea - HV_ASPACE) / 0x100_0000 == AIL_SHADOW / 0x100_0000
  {
    hide EaToVpn, Supported;
    MeetSmall(ea, mmuOff, sr);
    MeetLarge(ea, mmuOff, sr);
  }

  lemma {:induction false} AilVpn(a: Ea, mmuOff: bool, sr: seq<nat>)
    requires IsAil(a) && IdentitySr(sr)
    ensures EaToVpn(a, mmuOff, sr) == FirstVpn(Hv) + AIL_SHADOW / 0x1000 + (a - AIL_ASPACE_START) / 0x1000
  {
    hide EaToVpn;
    VpnOfEa(a, mmuOff, sr);
  }

  lemma {:induction false} MeetSmall(ea: Ea, mmuOff: bool, sr: seq<nat>)
    requires IsHv(ea) && Supported(ea) && IdentitySr(sr)
    ensures (exists a: Ea :: IsAil(a) && EaToVpn(a, mmuOff, sr) == EaToVpn(ea, mmuOff, sr)) <==>
            AIL_SHADOW <= ea - HV_ASPACE < AIL_SHADOW + 0x101 * 0x1000
  {
    hide EaToVpn, FirstVpn;
    var o, v := ea - HV_ASPACE, EaToVpn(ea, mmuOff, sr);
    VpnOfEa(ea, mmuOff, sr);
    if a: Ea :| IsAil(a) && EaToVpn(a, mmuOff, sr) == v {
      AilVpn(a, mmuOff, sr);
      assert o / 0x1000 == AIL_SHADOW / 0x1000 + (a - AIL_ASPACE_START) / 0x1000;
    }
    if AIL_SHADOW <= o < AIL_SHADOW + 0x101 * 0x1000 {
      var a: Ea := AIL_ASPACE_START + (o - AIL_SHADOW) / 0x1000 * 0x1000;
      AilVpn(a, mmuOff, sr);
      assert IsAil(a) && EaToVpn(a, mmuOff, sr) == v;
    }
  }

  lemma {:induction false} MeetLarge(ea: Ea, mmuOff: bool, sr: seq<nat>)
    requires IsHv(ea) && Supported(ea) && IdentitySr(sr)
    ensures (exists a: Ea :: IsAil(a) && EaToVpn(a, mmuOff, sr) / 0x1000 == EaToVpn(ea, mmuOff, sr) / 0x1000) <==>
            (ea - HV_ASPACE) / 0x100_0000 == AIL_SHADOW / 0x100_0000
  {
    hide EaToVpn;
    var o, v := ea - HV_ASPACE, EaToVpn(ea, mmuOff, sr);
    VpnOfEa(ea, mmuOff, sr);
    if a: Ea :| IsAil(a) && EaToVpn(a, mmuOff, sr) / 0x1000 == v / 0x1000 {
      AilVpn(a, mmuOff, sr);
      assert o / 0x1000 / 0x1000 == AIL_SHADOW / 0x1000 / 0x1000;
    }
    if o / 0x100_0000 == AIL_SHADOW / 0x100_0000 {
      AilVpn(AIL_ASPACE_START, mmuOff, sr);
      assert IsAil(AIL_ASPACE_START) && EaToVpn(AIL_ASPACE_START, mmuOff, sr) / 0x1000 == v / 0x1000;
    }
  }

  // ---------- the hardware

  /** A segment lookaside buffer entry. */
  datatype SlbEntry = Empty | SlbEntry(esid: nat, seg: SegSize, vsid: nat, base: PageSize)

  predicate EntryMatches(e: SlbEntry, ea: Ea) {
    e.SlbEntry? && ea / SegBytes(e.seg) == e.esid
  }

  function HvEntry(): SlbEntry { SlbEntry(HV_ASPACE / 0x100_0000_0000, Seg1T, HV_VSID, Page16M) }
  function AilEntry(): SlbEntry { SlbEntry(AIL_ASPACE_START / 0x1000_0000, Seg256M, AIL_VSID, Page4K) }
  function GrmEntry(): SlbEntry { SlbEntry(0, Seg1T, GRM_VSID, Page16M) }
  function GuestEntry(i: nat): SlbEntry { SlbEntry(i, Seg256M, i, Page4K) }

  /** The entries the hypervisor makes, in numbers. */
  lemma {:induction false} EntriesInNumbers(i: nat)
    ensures HvEntry() == SlbEntry(0x80_0000, Seg1T, 0x8_7654_3210, Page16M)
    ensures AilEntry() == SlbEntry(0xC_0000_0000, Seg256M, 0x8765_4321_0123, Page4K)
    ensures GrmEntry() == SlbEntry(0, Seg1T, 0x5_5555_5555, Page16M)
    ensures GuestEntry(i) == SlbEntry(i, Seg256M, i, Page4K)
  {}

  /** The entry an address should be translated with. */
  function EntryFor(ea: Ea, mmuOff: bool): SlbEntry {
    match SpaceOf(ea, mmuOff)
    case Ail => AilEntry()
    case Hv => HvEntry()
    case RealMode => GrmEntry()
    case Guest => GuestEntry(ea / 0x1000_0000)
  }

  /** The virtual page number formed from a segment entry and an address. */
  function HwVpn(e: SlbEntry, ea: Ea): nat
    requires e.SlbEntry?
  {
    e.vsid * SegPages(e.seg) + ea % SegBytes(e.seg) / 0x1000
  }

  /** The base and actual page size an entry's L and LP fields encode. */
  function EntrySizes(e: Pte): (PageSize, PageSize) {
    if e.v / 4 % 2 == 0 then (Page4K, Page4K)
    else if e.r / 0x1000 % 0x100 == 0x38 then (Page4K, Page16M)
    else (Page16M, Page16M)
  }

  /** Section 5.7.7.3 of Power ISA v2.07 Book III-S: valid, primary, same segment and base page size, same AVA. */
  predicate HwMatches(e: Pte, vpn: Vpn, seg: SegSize, base: PageSize) {
    && e.v % 2 == 1 && e.v / 2 % 2 == 0
    && e.v / 0x4000_0000_0000_0000 % 4 == (if seg.Seg1T? then 1 else 0)
    && EntrySizes(e).0 == base
    && (if base.Page4K? then AvpnField(e.v) / 0x80 == vpn / 0x800 else AvpnField(e.v) / 0x100 == vpn / 0x1000)
  }

  /** The first of `n` slots, from slot `i`, that matches. */
  function HwSearch(t: Table, i: nat, n: nat, vpn: Vpn, seg: SegSize, base: PageSize): (j: nat)
    requires i + n <= |t|
    ensures i <= j <= i + n
    ensures j < i + n ==> HwMatches(t[j], vpn, seg, base)
    ensures forall m :: i <= m < j ==> !HwMatches(t[m], vpn, seg, base)
    decreases n
  {
    if n == 0 || HwMatches(t[i], vpn, seg, base) then i else HwSearch(t, i + 1, n - 1, vpn, seg, base)
  }

  /** What an access may do. */
  datatype Right = NoAccess | ReadOnly | ReadWrite

  datatype Outcome = Real(ra: nat, supervisor: Right, user: Right) | PageFault

  /** The bits PP0 and PP of an R word. */
  function HwPp(r: nat): nat { r / 0x8000_0000_0000_0000 % 2 * 4 + r % 4 }

  /** Storage protection by the PP bits, section 5.7.9 of the same: with key 0, as Ks is clear in every segment entry. */
  function HwSupervisor(r: nat): Right {
    if HwPp(r) <= 2 then ReadWrite else if HwPp(r) == 3 || HwPp(r) == 6 then ReadOnly else NoAccess
  }

  /** And with key 1, as Kp is set in every one. */
  function HwUser(r: nat): Right {
    if HwPp(r) == 2 then ReadWrite else if HwPp(r) == 1 || HwPp(r) == 3 then ReadOnly else NoAccess
  }

  /** The storage control bits W, I, M and G of an R word. */
  function HwWimg(r: nat): nat { r / 8 % 16 }

  /** The real address: the entry's page and the offset within a page of its actual size. */
  function HwReal(e: Pte, ea: Ea): nat {
    var size := SizeOf(EntrySizes(e).1);
    e.r % 0x1000_0000_0000_0000 / size * size + ea % size
  }

  /** Translation by a segment entry, through the primary group of the 2^k that SDR1 gives. */
  function HwTranslate(t: Table, k: nat, e: SlbEntry, ea: Ea): Outcome
    requires e.SlbEntry? && HwVpn(e, ea) < TWO_TO_THE_64 && |t| >= 8 * Pow2(k)
  {
    var vpn: Vpn := HwVpn(e, ea);
    var g := Group(ArchitectedHash(vpn, e.seg, e.base), k);
    GroupInTable(vpn, e.seg, e.base, k);
    var j := HwSearch(t, 8 * g, 8, vpn, e.seg, e.base);
    if j < 8 * g + 8 then Real(HwReal(t[j], ea), HwSupervisor(t[j].r), HwUser(t[j].r)) else PageFault
  }

  lemma {:induction false} GroupInTable(vpn: Vpn, seg: SegSize, base: PageSize, k: nat)
    ensures Group(ArchitectedHash(vpn, seg, base), k) < Pow2(k)
  {
    hide Pow2, And, ArchitectedHash;
    AndLowMask(ArchitectedHash(vpn, seg, base), k);
    Quotient(ArchitectedHash(vpn, seg, base), Pow2(k));
  }

  // ---------- the two agree

  /** The base page an address lies in. */
  function PageOf(ea: Ea, mmuOff: bool): Page
    requires Supported(ea)
  {
    var s := SpaceOf(ea, mmuOff);
    var offset := Offset(ea) / 0x1000;
    assert FirstVpn(s) + offset < TWO_TO_THE_64;
    Page(s, FirstVpn(s) + (offset - offset % PageSpan(BaseOf(s))))
  }

  /** The segment entry software relies on maps an address to the page number software computes. */
  lemma {:induction false} VpnAgrees(ea: Ea, mmuOff: bool)
    requires Supported(ea)
    ensures var e, s := EntryFor(ea, mmuOff), SpaceOf(ea, mmuOff);
      && EntryMatches(e, ea) && e.seg == SegOf(s) && e.base == BaseOf(s)
      && HwVpn(e, ea) == FirstVpn(s) + Offset(ea) / 0x1000 < TWO_TO_THE_64
  {}

  lemma {:induction false} PageFacts(ea: Ea, mmuOff: bool)
    requires Supported(ea)
    ensures var p, s := PageOf(ea, mmuOff), SpaceOf(ea, mmuOff); var vpn := FirstVpn(s) + Offset(ea) / 0x1000;
      && Known(p) && p.space == s && p.vpn <= vpn < p.vpn + PageSpan(BaseOf(s)) && p.vpn % PageSpan(BaseOf(s)) == 0
  {}

  /** All of a base page hashes to one group. */
  lemma {:induction false} SameGroup(p: Page, vpn: Vpn, k: nat)
    requires p.vpn % PageSpan(BaseOf(p.space)) == 0 && p.vpn <= vpn < p.vpn + PageSpan(BaseOf(p.space))
    ensures Group(ArchitectedHash(vpn, SegOf(p.space), BaseOf(p.space)), k) == HwGroupOf(p, k)
  {
    hide Xor, And, Pow2, Shl64, Vsid, PageIndex;
    SameResidues(p, vpn);
  }

  lemma {:induction false} SameResidues(p: Page, vpn: Vpn)
    requires p.vpn % PageSpan(BaseOf(p.space)) == 0 && p.vpn <= vpn < p.vpn + PageSpan(BaseOf(p.space))
    ensures Vsid(vpn, SegOf(p.space)) == Vsid(p.vpn, SegOf(p.space))
    ensures PageIndex(vpn, SegOf(p.space), BaseOf(p.space)) == PageIndex(p.vpn, SegOf(p.space), BaseOf(p.space))
  {
    if BaseOf(p.space).Page16M? {
      var c := p.vpn / 0x1000;
      UniqueQuotient(vpn, 0x1000, c, vpn - p.vpn);
      assert vpn / 0x1000_0000 == c / 0x1_0000 && p.vpn / 0x1000_0000 == c / 0x1_0000;
      assert vpn % 0x1000_0000 / 0x1000 == c % 0x1_0000;
    }
  }

  /** The fields of an encoded entry, as the hardware reads them. */
  lemma {:induction false} EncodedFields(p: Page, f: Frame)
    requires FrameOk(BaseOf(p.space), f)
    ensures var e := Encode(p, f);
      && e.v % 2 == 1 && e.v / 2 % 2 == 0 && EntrySizes(e) == (BaseOf(p.space), f.actual)
      && e.v / 0x4000_0000_0000_0000 % 4 == (if SegOf(p.space).Seg1T? then 1 else 0)
      && e.v / 8 % 16 == 2
  {
    hide Avpn, RWord;
    var a := AvpnParts(p.vpn, BaseOf(p.space));
    RFields(f, BaseOf(p.space));
    VFields(a, if f.actual.Page16M? then 1 else 0, if SegOf(p.space).Seg1T? then 1 else 0);
  }

  lemma {:induction false} VFields(a: nat, large: nat, b: nat)
    requires a < 0x20_0000_0000_0000 && large <= 1 && b <= 1
    ensures var v := a * 0x80 + 0x11 + 4 * large + b * 0x4000_0000_0000_0000;
      && v % 2 == 1 && v / 2 % 2 == 0 && v / 4 % 2 == large && v / 0x4000_0000_0000_0000 % 4 == b && v / 8 % 16 == 2
  {
    var v := a * 0x80 + 0x11 + 4 * large + b * 0x4000_0000_0000_0000;
    assert v / 0x4000_0000_0000_0000 == b by { UniqueQuotient(v, 0x4000_0000_0000_0000, b, a * 0x80 + 0x11 + 4 * large); }
    LowFields(a * 0x10 + 2 + b * 0x800_0000_0000_0000, large, v);
    UniqueQuotient(v, 8, a * 0x10 + 2 + b * 0x800_0000_0000_0000, 4 * large + 1);
    UniqueQuotient(a * 0x10 + 2 + b * 0x800_0000_0000_0000, 16, a + b * 0x80_0000_0000_0000, 2);
  }

  lemma {:induction false} LowFields(high: nat, large: nat, v: nat)
    requires large <= 1 && v == 8 * high + 4 * large + 1
    ensures v % 2 == 1 && v / 2 % 2 == 0 && v / 4 % 2 == large
  {
    UniqueQuotient(v, 2, 4 * high + 2 * large, 1);
    UniqueQuotient(v, 4, 2 * high + large, 1);
    UniqueQuotient(4 * high + 2 * large, 2, 2 * high + large, 0);
    UniqueQuotient(2 * high + large, 2, high, large);
  }

  lemma {:induction false} RFields(f: Frame, base: PageSize)
    requires FrameOk(base, f)
    ensures var r := RWord(f, base);
      && (f.actual.Page16M? ==> (r / 0x1000 % 0x100 == PTE_R_LP_4K_16M <==> base.Page4K?))
      && r % 0x1000_0000_0000_0000 / SizeOf(f.actual) * SizeOf(f.actual) == f.ra
      && (forall ra :: Real(ra, HwSupervisor(r), HwUser(r)) == Allowed(ra, f.pp))
      && HwWimg(r) == 2 && r / 4 % 2 == 0 && r / 0x80 % 0x20 == 0 && r / 0x1000_0000_0000_0000 % 8 == 0
  {
    hide RWord, HwPp, HwWimg, FrameOk, SizeOf, HwSupervisor, HwUser, Allowed, PpBits;
    var q, lp, low, high := RWordParts(f, base);
    var size := SizeOf(f.actual);
    RealPage(q, size, lp * 0x1000 + 0x10 + low, high, RWord(f, base));
    if f.actual.Page16M? { LargePageField(q, lp, 0x10 + low, high, RWord(f, base)); }
    ControlFields((if f.actual.Page16M? then 0x1000 * q else q) + lp, low, high, RWord(f, base));
    RightsRead(f.pp, RWord(f, base));
  }

  lemma {:induction false} RightsRead(pp: Prot, r: nat)
    requires HwPp(r) == PpBits(pp) / 0x2000_0000_0000_0000 + PpBits(pp) % 4
    ensures forall ra :: Real(ra, HwSupervisor(r), HwUser(r)) == Allowed(ra, pp)
  {
    hide HwPp;
  }

  /** The fields put into an R word. */
  lemma {:induction false} RWordParts(f: Frame, base: PageSize) returns (q: nat, lp: nat, low: nat, high: nat)
    requires FrameOk(base, f)
    ensures f.ra == SizeOf(f.actual) * q && lp * 0x1000 + 0x10 + low < SizeOf(f.actual) && low < 4
    ensures lp == (if f.actual.Page16M? && base.Page4K? then PTE_R_LP_4K_16M else 0)
    ensures (high == 0 || high == 8) && high / 2 + low == PpBits(f.pp) / 0x2000_0000_0000_0000 + PpBits(f.pp) % 4
    ensures SizeOf(f.actual) * q + (lp * 0x1000 + 0x10 + low) < 0x1000_0000_0000_0000
    ensures RWord(f, base) == high * 0x1000_0000_0000_0000 + (SizeOf(f.actual) * q + (lp * 0x1000 + 0x10 + low))
    ensures RWord(f, base) == high * 0x1000_0000_0000_0000 + ((if f.actual.Page16M? then 0x1000 * q else q) + lp) * 0x1000 + 0x10 + low
    ensures f.actual.Page16M? ==> RWord(f, base) == high * 0x1000_0000_0000_0000 + q * 0x100_0000 + lp * 0x1000 + (0x10 + low)
    ensures (if f.actual.Page16M? then 0x1000 * q else q) + lp < 0x1_0000_0000_0000
  {
    q, lp := f.ra / SizeOf(f.actual), if f.actual.Page16M? && base.Page4K? then PTE_R_LP_4K_16M else 0;
    low, high := if f.pp.RXXX? then 2 else PpBits(f.pp), if f.pp.RXXX? then 8 else 0;
  }

  /** The low bits of an R word, and its top ones. */
  lemma {:induction false} ControlFields(page: nat, low: nat, high: nat, r: nat)
    requires low < 4 && (high == 0 || high == 8) && page < 0x1_0000_0000_0000
    requires r == high * 0x1000_0000_0000_0000 + page * 0x1000 + 0x10 + low
    ensures HwPp(r) == high / 2 + low && HwWimg(r) == 2 && r / 4 % 2 == 0 && r / 0x80 % 0x20 == 0 && r / 0x1000_0000_0000_0000 % 8 == 0
  {
    var words := high * 0x1_0000_0000_0000 + page;
    var rest := page * 0x1000 + 0x10 + low;
    UniqueQuotient(r, 0x8000_0000_0000_0000, high / 8, rest);
    UniqueQuotient(r, 0x1000_0000_0000_0000, high, rest);
    UniqueQuotient(r, 4, words * 0x400 + 4, low);
    UniqueQuotient(words * 0x400 + 4, 2, words * 0x200 + 2, 0);
    UniqueQuotient(r, 8, words * 0x200 + 2, low);
    UniqueQuotient(words * 0x200 + 2, 16, words * 0x20, 2);
    UniqueQuotient(r, 0x80, words * 0x20, 0x10 + low);
    UniqueQuotient(words * 0x20, 0x20, words, 0);
  }

  lemma {:induction false} RealPage(q: nat, size: nat, low: nat, high: nat, r: nat)
    requires low < size && size * q + low < 0x1000_0000_0000_0000 && r == high * 0x1000_0000_0000_0000 + (size * q + low)
    ensures r % 0x1000_0000_0000_0000 / size * size == size * q
  {
    assert r % 0x1000_0000_0000_0000 == size * q + low by { UniqueQuotient(r, 0x1000_0000_0000_0000, high, size * q + low); }
    assert (size * q + low) / size == q by { UniqueQuotient(size * q + low, size, q, low); }
  }

  lemma {:induction false} LargePageField(q: nat, lp: nat, low: nat, high: nat, r: nat)
    requires lp < 0x100 && low < 0x1000 && r == high * 0x1000_0000_0000_0000 + q * 0x100_0000 + lp * 0x1000 + low
    ensures r / 0x1000 % 0x100 == lp
  {
    var word := high * 0x1_0000_0000_0000 + q * 0x1000 + lp;
    assert r / 0x1000 == word by { UniqueQuotient(r, 0x1000, word, low); }
    assert word % 0x100 == lp by { UniqueQuotient(word, 0x100, high * 0x100_0000_0000 + q * 0x10, lp); }
  }

  /** In a page's group, the hardware's match is the page's own entry, and the page's entry matches. */
  lemma {:induction false} HwMatchIsOwn(t: Table, ptegs: nat, l: Layout, p: Page, vpn: Vpn, n: nat)
    requires Refines(t, ptegs, l) && Known(p) && p.vpn <= vpn < p.vpn + PageSpan(BaseOf(p.space))
    requires n < |t| && n / 8 == GroupOf(p, ptegs)
    ensures HwMatches(t[n], vpn, SegOf(p.space), BaseOf(p.space)) <==>
            p in l.frames && p in l.slot && l.slot[p] == n
    ensures HwMatches(t[n], vpn, SegOf(p.space), BaseOf(p.space)) ==> t[n] == Encode(p, l.frames[p])
  {
    hide GroupOf, Encode, EntrySizes, Known, Avpn, AvpnField;
    if HwMatches(t[n], vpn, SegOf(p.space), BaseOf(p.space)) {
      assert Owned(l, n);
      var q := l.owner[n];
      assert Stored(t, ptegs, l, q);
      EncodedFields(q, l.frames[q]);
      EncodedV(q, l.frames[q]);
      AvaDetermines(p, q, vpn);
      MatchIsOwn(t, ptegs, l, p, n);
    }
    if p in l.frames && p in l.slot && l.slot[p] == n {
      assert Stored(t, ptegs, l, p);
      EncodedFields(p, l.frames[p]);
      EncodedV(p, l.frames[p]);
      AvaDetermines(p, p, vpn);
    }
  }

  lemma {:induction false} AvaDetermines(p: Page, q: Page, vpn: Vpn)
    requires Known(p) && Known(q) && p.vpn <= vpn < p.vpn + PageSpan(BaseOf(p.space)) && BaseOf(p.space) == BaseOf(q.space)
    ensures var a := Avpn(q.vpn, BaseOf(q.space));
      (if BaseOf(p.space).Page4K? then a / 0x80 == vpn / 0x800 else a / 0x100 == vpn / 0x1000) <==>
      a == Avpn(p.vpn, BaseOf(p.space))
  {
    if BaseOf(p.space).Page16M? {
      LargeAvpn(p.vpn);
      LargeAvpn(q.vpn);
      UniqueQuotient(vpn, 0x1000, p.vpn / 0x1000, vpn - p.vpn);
    } else {
      AvpnValue(p.vpn, Page4K);
      AvpnValue(q.vpn, Page4K);
    }
  }

  lemma {:induction false} LargeAvpn(vpn: Vpn)
    requires vpn % 0x1000 == 0
    ensures Avpn(vpn, Page16M) == vpn / 0x1000 * 0x100
  {
    assert vpn / 0x800 == 2 * (vpn / 0x1000);
  }

  /** A real address, with what the protection lets supervisor and user do there. */
  function Allowed(ra: nat, pp: Prot): Outcome {
    match pp
    case RWXX => Real(ra, ReadWrite, NoAccess)
    case RWRX => Real(ra, ReadWrite, ReadOnly)
    case RWRW => Real(ra, ReadWrite, ReadWrite)
    case RXRX => Real(ra, ReadOnly, ReadOnly)
    case RXXX => Real(ra, ReadOnly, NoAccess)
  }

  /** What the page table says of an address. */
  function TableSays(l: Layout, ea: Ea, mmuOff: bool): Outcome
    requires Supported(ea)
  {
    var p := PageOf(ea, mmuOff);
    if p in l.frames then Allowed(l.frames[p].ra + ea % SizeOf(l.frames[p].actual), l.frames[p].pp) else PageFault
  }

  lemma {:induction false} SearchFinds(t: Table, ptegs: nat, l: Layout, p: Page, vpn: Vpn)
    requires Refines(t, ptegs, l) && Known(p) && p.vpn <= vpn < p.vpn + PageSpan(BaseOf(p.space))
    ensures 8 * GroupOf(p, ptegs) + 8 <= |t|
    ensures var g, seg, base := GroupOf(p, ptegs), SegOf(p.space), BaseOf(p.space);
      var j := HwSearch(t, 8 * g, 8, vpn, seg, base);
      && (j < 8 * g + 8 <==> p in l.frames)
      && (p in l.frames ==> t[j] == Encode(p, l.frames[p]) && FrameOk(base, l.frames[p]))
      && (forall m :: 8 * g <= m < 8 * g + 8 && m != j ==> !HwMatches(t[m], vpn, seg, base))
  {
    hide GroupOf, Encode, HwMatches, Pow2, Known, FrameOk;
    GroupBelow(p, ptegs);
    var g, seg, base := GroupOf(p, ptegs), SegOf(p.space), BaseOf(p.space);
    forall m | 8 * g <= m < 8 * g + 8
      ensures HwMatches(t[m], vpn, seg, base) <==> p in l.frames && p in l.slot && l.slot[p] == m
      ensures HwMatches(t[m], vpn, seg, base) ==> t[m] == Encode(p, l.frames[p])
    {
      HwMatchIsOwn(t, ptegs, l, p, vpn, m);
    }
    if p in l.frames { OwnMatches(t, ptegs, l, p); assert Stored(t, ptegs, l, p); }
  }

  lemma {:induction false} RealOfEncoded(p: Page, f: Frame, ea: Ea)
    requires FrameOk(BaseOf(p.space), f)
    ensures var e := Encode(p, f); Real(HwReal(e, ea), HwSupervisor(e.r), HwUser(e.r)) == Allowed(f.ra + ea % SizeOf(f.actual), f.pp)
  {
    EncodedFields(p, f);
    RFields(f, BaseOf(p.space));
    hide EntrySizes, RWord, VWord;
  }

  /** Where the hardware looks for pages in their groups, its translation is exactly what the page table says. */
  lemma {:induction false} HardwareAgrees(t: Table, ptegs: nat, k: nat, l: Layout, ea: Ea, mmuOff: bool)
    requires Refines(t, ptegs, l) && Supported(ea) && Pow2(k) <= ptegs && Searchable(ptegs, k, SpaceOf(ea, mmuOff))
    ensures Translates(t, k, l, ea, mmuOff)
  {
    hide Group, ArchitectedHash, Encode, HwMatches, Pow2, Known, FrameOk, HwReal, GroupOf, HwGroupOf, HwVpn, PageOf, EntryFor, SpaceOf, Supported;
    VpnAgrees(ea, mmuOff);
    PageFacts(ea, mmuOff);
    var vpn: Vpn := HwVpn(EntryFor(ea, mmuOff), ea);
    var p := PageOf(ea, mmuOff);
    RefinesGroups(t, ptegs, l);
    assert GroupOf(p, ptegs) == HwGroupOf(p, k);
    SameGroup(p, vpn, k);
    SearchFinds(t, ptegs, l, p, vpn);
    if p in l.frames { RealOfEncoded(p, l.frames[p], ea); }
  }

  ghost predicate Translates(t: Table, k: nat, l: Layout, ea: Ea, mmuOff: bool)
    requires Supported(ea)
  {
    && HwVpn(EntryFor(ea, mmuOff), ea) < TWO_TO_THE_64 && |t| >= 8 * Pow2(k)
    && HwTranslate(t, k, EntryFor(ea, mmuOff), ea) == TableSays(l, ea, mmuOff)
  }

  /** Addresses of a space are translated by every table as it says exactly when the hardware looks for the space's pages in their groups. */
  lemma {:induction false} HardwareExactly(ptegs: nat, k: nat, s: Space)
    requires Groups(ptegs) && Pow2(k) <= ptegs
    ensures (forall t, l, ea: Ea, mmuOff: bool | Refines(t, ptegs, l) && Supported(ea) && SpaceOf(ea, mmuOff) == s :: Translates(t, k, l, ea, mmuOff))
      <==> Searchable(ptegs, k, s)
  {
    hide Refines, Supported, SpaceOf, Translates, Pow2, Known, GroupOf, HwGroupOf;
    if Searchable(ptegs, k, s) {
      forall t, l, ea: Ea, mmuOff: bool | Refines(t, ptegs, l) && Supported(ea) && SpaceOf(ea, mmuOff) == s ensures Translates(t, k, l, ea, mmuOff) {
        HardwareAgrees(t, ptegs, k, l, ea, mmuOff);
      }
    } else {
      var p :| Known(p) && p.space == s && GroupOf(p, ptegs) != HwGroupOf(p, k);
      var t, l, ea, off := PageLost(p, ptegs, k);
    }
  }

  /** Mapped alone, a page that hardware looks for in another group is not found. */
  lemma {:induction false} PageLost(p: Page, ptegs: nat, k: nat) returns (t: Table, l: Layout, ea: Ea, mmuOff: bool)
    requires Known(p) && Groups(ptegs) && Pow2(k) <= ptegs && GroupOf(p, ptegs) != HwGroupOf(p, k)
    ensures Refines(t, ptegs, l) && Supported(ea) && SpaceOf(ea, mmuOff) == p.space && PageOf(ea, mmuOff) == p && p in l.frames
    ensures !Translates(t, k, l, ea, mmuOff)
  {
    hide Group, ArchitectedHash, Encode, Pow2, GroupOf, HwGroupOf, HwVpn, EntryFor, SpaceOf, Supported, PageOf, Known;
    ea, mmuOff := AddressOf(p);
    var f, g := Frame(0, RWXX, BaseOf(p.space)), GroupOf(p, ptegs);
    GroupBelow(p, ptegs);
    var empty := seq(8 * ptegs, i => Pte(0, 0));
    var none := Layout(map[], map[], map[]);
    assert Refines(empty, ptegs, none);
    InsertRefines(empty, ptegs, none, p, f, 8 * g);
    t, l := empty[8 * g := Encode(p, f)], Inserted(none, p, f, 8 * g);
    VpnAgrees(ea, mmuOff);
    PageFacts(ea, mmuOff);
    var h := HwGroupOf(p, k);
    SameGroup(p, HwVpn(EntryFor(ea, mmuOff), ea), k);
    if Translates(t, k, l, ea, mmuOff) {
      NoneInGroup(t, k, EntryFor(ea, mmuOff), ea, h);
    }
  }

  lemma {:induction false} NoneInGroup(t: Table, k: nat, e: SlbEntry, ea: Ea, h: nat)
    requires e.SlbEntry? && HwVpn(e, ea) < TWO_TO_THE_64 && |t| >= 8 * Pow2(k)
    requires h == Group(ArchitectedHash(HwVpn(e, ea), e.seg, e.base), k)
    requires forall m :: 8 * h <= m < 8 * h + 8 && m < |t| ==> t[m] == Pte(0, 0)
    ensures HwTranslate(t, k, e, ea) == PageFault
  {
    hide Pow2, Group, ArchitectedHash, HwVpn;
    GroupInTable(HwVpn(e, ea), e.seg, e.base, k);
  }

  /** An address in a page. */
  lemma {:induction false} AddressOf(p: Page) returns (ea: Ea, mmuOff: bool)
    requires Known(p)
    ensures Supported(ea) && SpaceOf(ea, mmuOff) == p.space && PageOf(ea, mmuOff) == p
  {
    var o := (p.vpn - FirstVpn(p.space)) * 0x1000;
    mmuOff := p.space.RealMode?;
    match p.space {
      case Hv => ea := HV_ASPACE + o;
      case Ail => ea := AIL_ASPACE_START + o;
      case RealMode => ea := o;
      case Guest => ea := o;
    }
  }
}
