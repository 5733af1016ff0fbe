/**
 The hypervisor's memory management state: segment entries that follow the guest's MMU switch,
 segment faults filled on demand, and mappings that the hardware then sees.
 */
module GuestMmu {
  import opened MachineWords
  import opened BitTricks
  import opened Masks
  import opened PageHash
  import opened PageTable
  import opened PageGroups
  import opened Translation

  /** Which segment entries may be present: HV and AIL always; GRM or the guest's 256M segments, never both. */
  ghost predicate SlbSafe(slb: seq<SlbEntry>, hasGuest: bool, mmuOff: bool) {
    && |slb| == SLB_SIZE && slb[HV_SLOT] == HvEntry() && slb[AIL_SLOT] == AilEntry()
    && slb[GRM_SLOT] == (if hasGuest && mmuOff then GrmEntry() else Empty)
    && (forall i :: 3 <= i < SLB_SIZE ==> slb[i] == Empty || (i < 19 && hasGuest && !mmuOff && slb[i] == GuestEntry(i - 3)))
  }

  /** No address matches two entries. */
  lemma {:induction false} OneMatch(slb: seq<SlbEntry>, hasGuest: bool, mmuOff: bool, ea: Ea, i: nat, j: nat)
    requires SlbSafe(slb, hasGuest, mmuOff) && i < SLB_SIZE && j < SLB_SIZE
    requires EntryMatches(slb[i], ea) && EntryMatches(slb[j], ea)
    ensures i == j
  {}

  /** The entry an address matches is the one software reckons with. */
  lemma {:induction false} MatchIsExpected(slb: seq<SlbEntry>, hasGuest: bool, mmuOff: bool, ea: Ea, i: nat)
    requires SlbSafe(slb, hasGuest, mmuOff) && Supported(ea) && i < SLB_SIZE && EntryMatches(slb[i], ea)
    ensures slb[i] == EntryFor(ea, mmuOff)
  {}

  /** Only the guest's own segments, with its MMU on, can be missing. */
  lemma {:induction false} MissIsGuest(slb: seq<SlbEntry>, hasGuest: bool, mmuOff: bool, ea: Ea)
    requires SlbSafe(slb, hasGuest, mmuOff) && Supported(ea) && (IsGuest(ea) ==> hasGuest)
    requires forall i :: 0 <= i < SLB_SIZE ==> !EntryMatches(slb[i], ea)
    ensures IsGuest(ea) && !mmuOff && slb[3 + ea / 0x1000_0000] == Empty
  {
    assert !EntryMatches(slb[HV_SLOT], ea) && !EntryMatches(slb[AIL_SLOT], ea) && !EntryMatches(slb[GRM_SLOT], ea);
    if IsGuest(ea) { assert !EntryMatches(slb[3 + ea / 0x1000_0000], ea); }
  }

  /** slbie: drops the entry of that segment size that translates `ea`. */
  method Slbie(slb: array<SlbEntry>, ea: Ea, seg: SegSize)
    modifies slb
    ensures forall i :: 0 <= i < slb.Length ==>
      slb[i] == if EntryMatches(old(slb[i]), ea) && old(slb[i]).seg == seg then Empty else old(slb[i])
  {
    for n := 0 to slb.Length
      invariant forall i :: n <= i < slb.Length ==> slb[i] == old(slb[i])
      invariant forall i :: 0 <= i < n ==>
        slb[i] == if EntryMatches(old(slb[i]), ea) && old(slb[i]).seg == seg then Empty else old(slb[i])
    {
      if EntryMatches(slb[n], ea) && slb[n].seg == seg {
        slb[n] := Empty;
      }
    }
  }

  /** The IR and DR bits. */
  predicate Relocate(msr: nat) { msr / 32 % 2 == 1 }
  predicate Consistent(msr: nat) { msr / 32 % 2 == msr / 16 % 2 }

  /** The bits 0x20 and 0x10 of the MSR, whatever the others are. */
  lemma {:induction false} MsrBits(high: nat, ir: nat, dr: nat, low: nat)
    requires ir <= 1 && dr <= 1 && low < 16
    ensures var msr := high * 0x40 + ir * 0x20 + dr * 0x10 + low; (Relocate(msr) <==> ir == 1) && (Consistent(msr) <==> ir == dr)
  {
    var msr := high * 0x40 + ir * 0x20 + dr * 0x10 + low;
    UniqueQuotient(msr, 32, 2 * high + ir, dr * 0x10 + low);
    UniqueQuotient(msr, 16, 4 * high + 2 * ir + dr, low);
  }

  /** The page at `ea` lies in one address space. */
  predicate WithinSpace(ea: Ea, size: nat) {
    && ea + size <= TWO_TO_THE_64 && size > 0 && Supported(ea) && Supported(ea + size - 1)
    && (IsAil(ea) <==> IsAil(ea + size - 1)) && (ea < HV_ASPACE <==> ea + size - 1 < HV_ASPACE)
  }

  lemma {:induction false} InsideSpace(ea: Ea, size: nat, x: Ea)
    requires WithinSpace(ea, size) && ea <= x < ea + size
    ensures Supported(x) && (IsAil(x) <==> IsAil(ea)) && (x < HV_ASPACE <==> ea < HV_ASPACE) && Offset(x) == Offset(ea) + (x - ea)
    ensures IsGuest(x) <==> IsGuest(ea)
  {}

  /** The base pages of a page are those of its addresses. */
  lemma {:induction false} PagesOfPage(ea: Ea, actual: PageSize, mmuOff: bool, x: Ea)
    requires WithinSpace(ea, SizeOf(actual)) && ea % SizeOf(actual) == 0 && SizeOf(BaseOf(SpaceOf(ea, mmuOff))) <= SizeOf(actual)
    requires ea <= x < ea + SizeOf(actual)
    ensures Supported(x)
    ensures PartOf(PageOf(ea, mmuOff), BasePages(BaseOf(SpaceOf(ea, mmuOff)), actual), PageOf(x, mmuOff))
  {
    InsideSpace(ea, SizeOf(actual), x);
    AlignedOffset(ea, actual);
    OffsetPages(Offset(ea), x - ea, actual);
    PageNumber(ea, mmuOff);
    PageNumber(x, mmuOff);
  }

  lemma {:induction false} AlignedOffset(ea: Ea, actual: PageSize)
    requires ea % SizeOf(actual) == 0
    ensures Offset(ea) % SizeOf(actual) == 0
  {}

  lemma {:induction false} PageNumber(ea: Ea, mmuOff: bool)
    requires Supported(ea)
    ensures var s := SpaceOf(ea, mmuOff); var offset := Offset(ea) / 0x1000;
      PageOf(ea, mmuOff).space == s && PageOf(ea, mmuOff).vpn == FirstVpn(s) + (offset - offset % PageSpan(BaseOf(s)))
  {}

  lemma {:induction false} OffsetPages(o: nat, d: nat, actual: PageSize)
    requires o % SizeOf(actual) == 0 && d < SizeOf(actual)
    ensures o / 0x1000 <= (o + d) / 0x1000 < o / 0x1000 + SizeOf(actual) / 0x1000
    ensures actual.Page16M? ==> o / 0x1000 % 0x1000 == 0 && (o + d) / 0x1000 - (o + d) / 0x1000 % 0x1000 == o / 0x1000
  {
    if actual.Page16M? {
      var c := o / 0x100_0000;
      assert o / 0x1000 == 0x1000 * c && (o + d) / 0x1000 == 0x1000 * c + d / 0x1000;
    }
  }

  /** Addresses outside a page are in none of its base pages. */
  lemma {:induction false} PagesElsewhere(ea: Ea, actual: PageSize, mmuOff: bool, x: Ea)
    requires WithinSpace(ea, SizeOf(actual)) && ea % SizeOf(actual) == 0 && SizeOf(BaseOf(SpaceOf(ea, mmuOff))) <= SizeOf(actual)
    requires Supported(x) && !(ea <= x < ea + SizeOf(actual))
    ensures !PartOf(PageOf(ea, mmuOff), BasePages(BaseOf(SpaceOf(ea, mmuOff)), actual), PageOf(x, mmuOff))
  {
    AlignedOffset(ea, actual);
    OffsetPages(Offset(ea), 0, actual);
    PageNumber(ea, mmuOff);
    PageNumber(x, mmuOff);
    if SpaceOf(x, mmuOff) == SpaceOf(ea, mmuOff) {
      assert Offset(x) - Offset(ea) == x - ea;
      OffsetElsewhere(Offset(ea), Offset(x), actual);
    }
  }

  lemma {:induction false} OffsetElsewhere(o: nat, y: nat, actual: PageSize)
    requires o % SizeOf(actual) == 0 && !(o <= y < o + SizeOf(actual))
    ensures y / 0x1000 < o / 0x1000 || o / 0x1000 + SizeOf(actual) / 0x1000 <= y / 0x1000
    ensures actual.Page16M? ==>
      y / 0x1000 - y / 0x1000 % 0x1000 < o / 0x1000 || o / 0x1000 + 0x1000 <= y / 0x1000 - y / 0x1000 % 0x1000
  {
    if actual.Page16M? {
      var c := o / 0x100_0000;
      assert o / 0x1000 == 0x1000 * c;
    }
  }

  /** All the base pages of a page are pages of its space. */
  lemma {:induction false} PagesKnown(ea: Ea, actual: PageSize, mmuOff: bool)
    requires WithinSpace(ea, SizeOf(actual)) && ea % SizeOf(actual) == 0 && SizeOf(BaseOf(SpaceOf(ea, mmuOff))) <= SizeOf(actual)
    ensures AllKnown(PageOf(ea, mmuOff), BasePages(BaseOf(SpaceOf(ea, mmuOff)), actual))
  {
    var p, n := PageOf(ea, mmuOff), BasePages(BaseOf(SpaceOf(ea, mmuOff)), actual);
    forall j: nat | j < n ensures p.vpn + j * PageSpan(BaseOf(p.space)) < TWO_TO_THE_64 && Known(PageAt(p, j)) {
      NthPageKnown(ea, actual, mmuOff, j);
    }
  }

  lemma {:induction false} NthPageKnown(ea: Ea, actual: PageSize, mmuOff: bool, j: nat)
    requires WithinSpace(ea, SizeOf(actual)) && ea % SizeOf(actual) == 0 && SizeOf(BaseOf(SpaceOf(ea, mmuOff))) <= SizeOf(actual)
    requires j < BasePages(BaseOf(SpaceOf(ea, mmuOff)), actual)
    ensures var p := PageOf(ea, mmuOff); p.vpn + j * PageSpan(BaseOf(p.space)) < TWO_TO_THE_64 && Known(PageAt(p, j))
  {
    NthPageOf(ea, actual, mmuOff, j);
    PageFacts(ea + j * 0x1000, mmuOff);
  }

  /** The j-th base page is the page of some address. */
  lemma {:induction false} NthPageOf(ea: Ea, actual: PageSize, mmuOff: bool, j: nat)
    requires WithinSpace(ea, SizeOf(actual)) && ea % SizeOf(actual) == 0 && SizeOf(BaseOf(SpaceOf(ea, mmuOff))) <= SizeOf(actual)
    requires j < BasePages(BaseOf(SpaceOf(ea, mmuOff)), actual)
    ensures ea <= ea + j * 0x1000 < ea + SizeOf(actual) <= TWO_TO_THE_64 && Supported(ea + j * 0x1000)
    ensures var p := PageOf(ea, mmuOff); p.vpn + j * PageSpan(BaseOf(p.space)) < TWO_TO_THE_64 && PageAt(p, j) == PageOf(ea + j * 0x1000, mmuOff)
  {
    hide Supported, WithinSpace, Known, PageOf, SpaceOf, Offset;
    var x: Ea := PageStart(ea, actual, mmuOff, j);
    InsideSpace(ea, SizeOf(actual), x);
    InsideSpace(ea, SizeOf(actual), ea);
    SameSpaceInside(ea, x, mmuOff);
    AlignedOffset(ea, actual);
    SameNthPage(ea, actual, mmuOff, j, x);
    EndsInSpace(ea, SizeOf(actual));
  }

  lemma {:induction false} EndsInSpace(ea: Ea, size: nat)
    requires WithinSpace(ea, size) && size > 0
    ensures ea + size <= TWO_TO_THE_64
  {}

  lemma {:induction false} SameSpaceInside(ea: Ea, x: Ea, mmuOff: bool)
    requires (IsAil(x) <==> IsAil(ea)) && (x < HV_ASPACE <==> ea < HV_ASPACE)
    ensures SpaceOf(x, mmuOff) == SpaceOf(ea, mmuOff)
  {}

  lemma {:induction false} SameNthPage(ea: Ea, actual: PageSize, mmuOff: bool, j: nat, x: Ea)
    requires Supported(ea) && Supported(x) && SpaceOf(x, mmuOff) == SpaceOf(ea, mmuOff) && Offset(x) == Offset(ea) + j * 0x1000
    requires Offset(ea) % SizeOf(actual) == 0 && j < BasePages(BaseOf(SpaceOf(ea, mmuOff)), actual)
    requires SizeOf(BaseOf(SpaceOf(ea, mmuOff))) <= SizeOf(actual)
    ensures var p := PageOf(ea, mmuOff); p.vpn + j * PageSpan(BaseOf(p.space)) < TWO_TO_THE_64 && PageAt(p, j) == PageOf(x, mmuOff)
  {
    hide Supported, FirstVpn, Offset, Known, PageOf, SpaceOf, SizeOf, BasePages, BaseOf, PageSpan;
    PageNumber(ea, mmuOff);
    PageNumber(x, mmuOff);
    SpanOfPages(BaseOf(SpaceOf(ea, mmuOff)), actual, j, Offset(ea));
    var p, q := PageOf(ea, mmuOff), PageOf(x, mmuOff);
    if BaseOf(SpaceOf(ea, mmuOff)).Page16M? {
      assert q == p && p.vpn + j * PageSpan(BaseOf(p.space)) == p.vpn;
    } else {
      NthPage(Offset(ea), j);
      assert q.vpn == p.vpn + j && j * PageSpan(BaseOf(p.space)) == j;
    }
  }

  /** Only the first of large base pages is in a large page; small ones are counted one by one. */
  lemma {:induction false} SpanOfPages(base: PageSize, actual: PageSize, j: nat, o: nat)
    requires SizeOf(base) <= SizeOf(actual) && j < BasePages(base, actual) && o % SizeOf(actual) == 0
    ensures base.Page16M? ==> j == 0 && PageSpan(base) == 0x1000 && o / 0x1000 % 0x1000 == 0
    ensures base.Page4K? ==> PageSpan(base) == 1
    ensures o % 0x1000 == 0
  {}

  lemma {:induction false} PageStart(ea: Ea, actual: PageSize, mmuOff: bool, j: nat) returns (x: Ea)
    requires WithinSpace(ea, SizeOf(actual)) && ea % SizeOf(actual) == 0 && SizeOf(BaseOf(SpaceOf(ea, mmuOff))) <= SizeOf(actual)
    requires j < BasePages(BaseOf(SpaceOf(ea, mmuOff)), actual)
    ensures x == ea + j * 0x1000 && ea <= x < ea + SizeOf(actual)
  {
    x := ea + j * 0x1000;
  }

  lemma {:induction false} NthPage(o: nat, j: nat)
    requires o % 0x1000 == 0
    ensures (o + j * 0x1000) / 0x1000 == o / 0x1000 + j
  {}

  /** Whether the map functions' own checks pass. */
  predicate MapChecks(ea: Ea, mmuOff: bool, f: Frame) {
    ea % SizeOf(f.actual) == 0 && FrameOk(BaseOf(SpaceOf(ea, mmuOff)), f)
  }

  /** The checks in numbers: aligned, a real address of 60 bits, and no small page in a space of large ones. */
  lemma {:induction false} ChecksInNumbers(ea: Ea, mmuOff: bool, f: Frame)
    requires Supported(ea)
    ensures var small := 0xC000_0000_0000_0000 <= ea <= 0xC000_0000_0010_0000 || (ea < 0x1_0000_0000 && !mmuOff);
      && (MapChecks(ea, mmuOff, f) <==>
          f.ra < 0x1000_0000_0000_0000 &&
          if f.actual.Page16M? then ea % 0x100_0000 == 0 && f.ra % 0x100_0000 == 0 else ea % 0x1000 == 0 && f.ra % 0x1000 == 0 && small)
      && (UnmapChecks(ea, mmuOff, f.actual) <==>
          if f.actual.Page16M? then ea % 0x100_0000 == 0 else ea % 0x1000 == 0 && small)
  {}

  /** No address of the page is mapped. */
  ghost predicate Unmapped(l: Layout, ea: Ea, size: nat, mmuOff: bool) {
    forall x: Ea :: ea <= x < ea + size && Supported(x) ==> TableSays(l, x, mmuOff) == PageFault
  }

  /** The modes see the same of an address, unless it is the guest's. */
  predicate SameView(x: Ea, mmuOff: bool, m: bool) { m == mmuOff || !IsGuest(x) }

  /** The addresses of [ea, ea + size) translate to real addresses from `ra`; all else is as before, in either mode. */
  ghost predicate Remapped(l: Layout, l': Layout, ea: nat, size: nat, mmuOff: bool, ra: nat, pp: Prot) {
    forall x: Ea, m: bool :: Supported(x) ==>
      TableSays(l', x, m) == if ea <= x < ea + size && SameView(x, mmuOff, m) then Allowed(ra + (x - ea), pp) else TableSays(l, x, m)
  }

  /** Mapping one page changes the translation of its addresses and of no others. */
  lemma {:induction false} MapEffect(l: Layout, l': Layout, ea: Ea, mmuOff: bool, f: Frame)
    requires WithinSpace(ea, SizeOf(f.actual)) && MapChecks(ea, mmuOff, f)
    requires WithPages(l.frames, l'.frames, PageOf(ea, mmuOff), BasePages(BaseOf(SpaceOf(ea, mmuOff)), f.actual), f)
    ensures Remapped(l, l', ea, SizeOf(f.actual), mmuOff, f.ra, f.pp)
  {
    forall x: Ea, m: bool | Supported(x)
      ensures TableSays(l', x, m) == if ea <= x < ea + SizeOf(f.actual) && SameView(x, mmuOff, m) then Allowed(f.ra + (x - ea), f.pp) else TableSays(l, x, m)
    {
      hide WithinSpace, Supported, WithPages, PageOf;
      if SameView(x, mmuOff, m) {
        Views(l, x, mmuOff, m);
        Views(l', x, mmuOff, m);
      }
      if !SameView(x, mmuOff, m) {
        InsideSpace(ea, SizeOf(f.actual), ea);
        OtherView(ea, f.actual, mmuOff, x);
        SameOutside(l, l', ea, mmuOff, f, PageOf(x, m));
      } else if ea <= x < ea + SizeOf(f.actual) {
        MapInside(l, l', ea, mmuOff, f, x);
      } else {
        MapOutside(l, l', ea, mmuOff, f, x);
      }
    }
  }

  lemma {:induction false} Views(l: Layout, x: Ea, mmuOff: bool, m: bool)
    requires Supported(x) && SameView(x, mmuOff, m)
    ensures TableSays(l, x, m) == TableSays(l, x, mmuOff)
  {}

  lemma {:induction false} OtherView(ea: Ea, actual: PageSize, mmuOff: bool, x: Ea)
    requires Supported(ea) && Supported(x) && IsGuest(x)
    ensures !PartOf(PageOf(ea, mmuOff), BasePages(BaseOf(SpaceOf(ea, mmuOff)), actual), PageOf(x, !mmuOff))
  {}

  lemma {:induction false} SameOutside(l: Layout, l': Layout, ea: Ea, mmuOff: bool, f: Frame, q: Page)
    requires Supported(ea)
    requires WithPages(l.frames, l'.frames, PageOf(ea, mmuOff), BasePages(BaseOf(SpaceOf(ea, mmuOff)), f.actual), f)
    requires !PartOf(PageOf(ea, mmuOff), BasePages(BaseOf(SpaceOf(ea, mmuOff)), f.actual), q)
    ensures SameFrame(l.frames, l'.frames, q)
  {}

  lemma {:induction false} MapInside(l: Layout, l': Layout, ea: Ea, mmuOff: bool, f: Frame, x: Ea)
    requires WithinSpace(ea, SizeOf(f.actual)) && MapChecks(ea, mmuOff, f) && ea <= x < ea + SizeOf(f.actual) && Supported(x)
    requires WithPages(l.frames, l'.frames, PageOf(ea, mmuOff), BasePages(BaseOf(SpaceOf(ea, mmuOff)), f.actual), f)
    ensures TableSays(l', x, mmuOff) == Allowed(f.ra + (x - ea), f.pp)
  {
    hide PartOf, PageOf, WithinSpace, Supported, SameFrame;
    PagesOfPage(ea, f.actual, mmuOff, x);
    OffsetInPage(ea, x, f.actual);
  }

  lemma {:induction false} MapOutside(l: Layout, l': Layout, ea: Ea, mmuOff: bool, f: Frame, x: Ea)
    requires WithinSpace(ea, SizeOf(f.actual)) && MapChecks(ea, mmuOff, f) && !(ea <= x < ea + SizeOf(f.actual)) && Supported(x)
    requires WithPages(l.frames, l'.frames, PageOf(ea, mmuOff), BasePages(BaseOf(SpaceOf(ea, mmuOff)), f.actual), f)
    ensures TableSays(l', x, mmuOff) == TableSays(l, x, mmuOff)
  {
    hide PartOf, PageOf, WithinSpace, Supported;
    PagesElsewhere(ea, f.actual, mmuOff, x);
    assert SameFrame(l.frames, l'.frames, PageOf(x, mmuOff));
  }

  /** The addresses of [ea, ea + size) are unmapped; all else translates as before, in either mode. */
  ghost predicate Cleared(l: Layout, l': Layout, ea: Ea, size: nat, mmuOff: bool) {
    forall x: Ea, m: bool :: Supported(x) ==>
      TableSays(l', x, m) == if ea <= x < ea + size && SameView(x, mmuOff, m) then PageFault else TableSays(l, x, m)
  }

  predicate UnmapChecks(ea: Ea, mmuOff: bool, actual: PageSize) {
    ea % SizeOf(actual) == 0 && SizeOf(BaseOf(SpaceOf(ea, mmuOff))) <= SizeOf(actual)
  }

  lemma {:induction false} UnmapEffect(l: Layout, l': Layout, ea: Ea, mmuOff: bool, actual: PageSize)
    requires WithinSpace(ea, SizeOf(actual)) && UnmapChecks(ea, mmuOff, actual)
    requires WithoutPages(l.frames, l'.frames, PageOf(ea, mmuOff), BasePages(BaseOf(SpaceOf(ea, mmuOff)), actual))
    ensures Cleared(l, l', ea, SizeOf(actual), mmuOff)
  {
    hide PartOf, PageOf, WithinSpace, Supported;
    InsideSpace(ea, SizeOf(actual), ea);
    forall x: Ea, m: bool | Supported(x)
      ensures TableSays(l', x, m) == if ea <= x < ea + SizeOf(actual) && SameView(x, mmuOff, m) then PageFault else TableSays(l, x, m)
    {
      if SameView(x, mmuOff, m) {
        Views(l, x, mmuOff, m);
        Views(l', x, mmuOff, m);
      }
      if !SameView(x, mmuOff, m) {
        OtherView(ea, actual, mmuOff, x);
        assert SameFrame(l.frames, l'.frames, PageOf(x, m));
      } else if ea <= x < ea + SizeOf(actual) {
        PagesOfPage(ea, actual, mmuOff, x);
      } else {
        PagesElsewhere(ea, actual, mmuOff, x);
        assert SameFrame(l.frames, l'.frames, PageOf(x, mmuOff));
      }
    }
  }

  /** Every address of the page is mapped. */
  ghost predicate AllMapped(l: Layout, ea: Ea, size: nat, mmuOff: bool) {
    forall x: Ea :: ea <= x < ea + size && Supported(x) ==> TableSays(l, x, mmuOff) != PageFault
  }

  lemma {:induction false} PartIsNth(p: Page, n: nat, q: Page) returns (j: nat)
    requires PartOf(p, n, q)
    ensures j < n && p.vpn + j * PageSpan(BaseOf(p.space)) < TWO_TO_THE_64 && q == PageAt(p, j)
  {
    j := (q.vpn - p.vpn) / PageSpan(BaseOf(p.space));
  }

  lemma {:induction false} MappedPages(l: Layout, ea: Ea, mmuOff: bool, actual: PageSize)
    requires WithinSpace(ea, SizeOf(actual)) && UnmapChecks(ea, mmuOff, actual)
    ensures var p, n := PageOf(ea, mmuOff), BasePages(BaseOf(SpaceOf(ea, mmuOff)), actual);
      AllKnown(p, n) && (AllIn(l.frames, p, n) <==> AllMapped(l, ea, SizeOf(actual), mmuOff))
  {
    hide PartOf, PageOf, WithinSpace, Supported, PageAt, Known;
    InsideSpace(ea, SizeOf(actual), ea);
    PagesKnown(ea, actual, mmuOff);
    var p, n := PageOf(ea, mmuOff), BasePages(BaseOf(SpaceOf(ea, mmuOff)), actual);
    if AllIn(l.frames, p, n) {
      forall x: Ea | ea <= x < ea + SizeOf(actual) && Supported(x) ensures TableSays(l, x, mmuOff) != PageFault {
        PagesOfPage(ea, actual, mmuOff, x);
        var j := PartIsNth(p, n, PageOf(x, mmuOff));
      }
    }
    if AllMapped(l, ea, SizeOf(actual), mmuOff) {
      forall j: nat | j < n ensures PageAt(p, j) in l.frames { NthPageOf(ea, actual, mmuOff, j); }
    }
  }

  lemma {:induction false} OffsetInPage(ea: Ea, x: Ea, actual: PageSize)
    requires ea % SizeOf(actual) == 0 && ea <= x < ea + SizeOf(actual)
    ensures x % SizeOf(actual) == x - ea
  {
    UniqueQuotient(x, SizeOf(actual), ea / SizeOf(actual), x - ea);
  }

  /** What the guest does: its accesses, and the instructions emulated for it. */
  datatype Event = MoveToMsr(value: nat) | ReturnFromInterrupt | MoveToSrr1(value: nat) | Touch(ea: GuestEa)

  type GuestEa = n: Ea | n < LAYOUT_VM_END

  /** A guest on a machine without segment entries: accesses go straight to the page table. */
  function Replay(l: Layout, msr: nat, srr1: nat, events: seq<Event>): (bool, seq<Outcome>)
    decreases |events|
  {
    if events == [] then (false, [])
    else
      match events[0]
      case MoveToMsr(value) => if Consistent(value) then Replay(l, value, srr1, events[1..]) else (true, [])
      case ReturnFromInterrupt => if Consistent(srr1) then Replay(l, srr1, srr1, events[1..]) else (true, [])
      case MoveToSrr1(value) => Replay(l, msr, value, events[1..])
      case Touch(ea) =>
        var rest := Replay(l, msr, srr1, events[1..]);
        (rest.0, [TableSays(l, ea, !Relocate(msr))] + rest.1)
  }

  /** A return from interrupt takes the MSR that was put into SRR1. */
  lemma {:induction false} ReturnTakesSrr1(l: Layout, msr: nat, srr1: nat, value: nat, rest: seq<Event>)
    ensures Replay(l, msr, srr1, [MoveToSrr1(value), ReturnFromInterrupt] + rest) == Replay(l, msr, value, [MoveToMsr(value)] + rest)
  {
    var events := [MoveToSrr1(value), ReturnFromInterrupt] + rest;
    assert events[1..][0] == ReturnFromInterrupt && events[1..][1..] == rest;
    assert ([MoveToMsr(value)] + rest)[1..] == rest;
  }

  /** The guest's MMU is on from the move of 0x30 to the MSR on, and off from that of 0 on. */
  lemma {:induction false} SwitchedByMsr(l: Layout, msr: nat, srr1: nat, ea: GuestEa, on: bool)
    ensures Replay(l, msr, srr1, [MoveToMsr(if on then 0x30 else 0), Touch(ea)]) == (false, [TableSays(l, ea, !on)])
    ensures Replay(l, msr, srr1, [MoveToMsr(if on then 0x20 else 0x10), Touch(ea)]) == (true, [])
  {
    hide TableSays;
    var v := if on then 0x30 else 0;
    var events := [MoveToMsr(v), Touch(ea)];
    assert events[1..] == [Touch(ea)] && [Touch(ea)][1..] == [];
    var t: seq<Event> := [Touch(ea)];
    assert Replay(l, v, srr1, t[1..]) == (false, []) && !Relocate(v) == !on;
    assert Replay(l, v, srr1, t) == (false, [TableSays(l, ea, !on)] + []);
    assert [TableSays(l, ea, !on)] + [] == [TableSays(l, ea, !on)];
    assert events[1..] == t;
  }

  /** __ilog2 */
  method Ilog2(n: nat) returns (l: nat)
    requires n > 0
    ensures Pow2(l) <= n < Pow2(l + 1)
  {
    hide Pow2;
    PowZero();
    PowSucc(0);
    l := 0;
    var p := 1;
    while 2 * p <= n
      invariant p == Pow2(l) <= n
      decreases n - p
    {
      PowSucc(l);
      l, p := l + 1, 2 * p;
    }
    PowSucc(l);
  }

  class Machine {
    const slb: array<SlbEntry>
    const htab: array<Pte>
    const ptegs: nat
    const k: nat
    var hasGuest: bool
    var msr: nat
    var srr1: nat
    var sr: seq<nat>
    ghost var layout: Layout

    predicate MmuOff()
      reads this
    {
      !Relocate(msr)
    }

    /** The segment entries follow the guest's MSR, whatever the page table holds. */
    ghost predicate Shaped()
      reads this, slb
    {
      && SlbSafe(slb[..], hasGuest, MmuOff()) && Consistent(msr) && IdentitySr(sr)
      && Groups(ptegs) && htab.Length == 8 * ptegs && Pow2(k) <= ptegs < Pow2(k + 1)
    }

    /** And the page table holds exactly `layout`. */
    ghost predicate Valid()
      reads this, slb, htab
    {
      Shaped() && Refines(htab[..], ptegs, layout)
    }

    /** mmu_init: an empty table of pteg_count groups, of which SDR1 lets the hardware use 2^k; and slb_init. */
    constructor (ramSize: nat)
      requires Groups(PtegCount(ramSize))
      ensures Valid() && !hasGuest && layout.frames == map[] && fresh(slb) && fresh(htab)
      ensures ptegs == PtegCount(ramSize) && Pow2(k) <= ptegs < Pow2(k + 1) && msr == srr1 == 0
      ensures slb[..] == [HvEntry(), AilEntry()] + seq(30, _ => Empty) && sr == [0, 1, 2, 3, 4, 5, 6, 7, 8, 9, 10, 11, 12, 13, 14, 15]
    {
      var count := PtegCount(ramSize);
      var log := Ilog2(count);
      k, ptegs := log, count;
      hasGuest, msr, srr1 := false, 0, 0;
      sr := seq(SR_COUNT, i => i);
      layout := Layout(map[], map[], map[]);
      htab := new Pte[8 * count](_ => Pte(0, 0));
      var entries := new SlbEntry[SLB_SIZE](_ => Empty);
      entries[HV_SLOT] := HvEntry();
      entries[AIL_SLOT] := AilEntry();
      slb := entries;
      new;
    }

    /** mmu_guest_update: swap the guest's segment entries when its MMU is switched. */
    method GuestUpdate(turningOn: bool)
      requires SlbSafe(slb[..], hasGuest, turningOn) || (!hasGuest && !turningOn && SlbSafe(slb[..], false, true))
      requires |sr| == SR_COUNT
      modifies slb
      ensures SlbSafe(slb[..], true, !turningOn)
    {
      if turningOn {
        Slbie(slb, 0, Seg1T);
      } else {
        for i := 0 to SR_COUNT
          invariant slb.Length == SLB_SIZE && slb[HV_SLOT] == HvEntry() && slb[AIL_SLOT] == AilEntry() && slb[GRM_SLOT] == Empty
          invariant forall n :: 3 + i <= n < SLB_SIZE ==> slb[n] == Empty || (n < 19 && slb[n] == GuestEntry(n - 3))
          invariant forall n :: 3 <= n < 3 + i ==> slb[n] == Empty
        {
          Slbie(slb, i * 0x1000_0000, Seg256M);
        }
        slb[GRM_SLOT] := GrmEntry();
      }
    }

    /** guest_update_msr; a value with IR and DR different halts the machine. */
    method UpdateMsr(value: nat) returns (halted: bool)
      requires Valid() && hasGuest
      modifies this`msr, slb
      ensures halted <==> !Consistent(value)
      ensures !halted ==> Valid() && msr == value
    {
      var was := MmuOff();
      msr := value;
      if !Consistent(value) { return true; }
      if was != MmuOff() {
        GuestUpdate(!MmuOff());
      }
      return false;
    }

    /** mmu_guest_fault_seg as guest_exc_try calls it, for an address the hardware found no entry for. */
    method SegmentFault(ea: Ea) returns (ok: bool)
      requires Valid() && hasGuest && Supported(ea)
      requires forall i :: 0 <= i < SLB_SIZE ==> !EntryMatches(slb[i], ea)
      modifies slb
      ensures Valid() && ok && IsGuest(ea) && !MmuOff()
      ensures slb[3 + ea / 0x1000_0000] == EntryFor(ea, false) && EntryMatches(EntryFor(ea, false), ea)
    {
      MissIsGuest(slb[..], hasGuest, MmuOff(), ea);
      if ea >= LAYOUT_VM_END { return false; }
      var srIndex := ea / 0x1000_0000;
      var slot := srIndex + 3;
      if slb[slot] != Empty { return false; }
      assert !MmuOff();
      slb[slot] := SlbEntry(ea / 0x1000_0000, Seg256M, sr[srIndex] % 0x100_0000, Page4K);
      return true;
    }

    /** mmu_map: BUG_ON a misaligned request or a full group; otherwise the page is mapped, a second time where it was. */
    method Map(ea: Ea, f: Frame) returns (halted: bool)
      requires Shaped() && WithinSpace(ea, SizeOf(f.actual)) && (IsGuest(ea) ==> hasGuest)
      modifies this`layout, htab
      ensures Shaped()
      ensures !MapChecks(ea, MmuOff(), f) ==> halted && layout == old(layout) && htab[..] == old(htab[..])
      ensures !halted ==> Remapped(old(layout), layout, ea, SizeOf(f.actual), MmuOff(), f.ra, f.pp)
      ensures halted && MapChecks(ea, MmuOff(), f) ==>
        exists j: nat :: StoppedAt(htab[..], ptegs, old(layout).frames, layout.frames, PageOf(ea, MmuOff()), j, f)
      ensures old(Valid()) && Unmapped(old(layout), ea, SizeOf(f.actual), MmuOff()) ==> Valid()
      ensures old(Valid()) && !halted ==> OneEntryEach(htab[..], ptegs, layout, Unmapped(old(layout), ea, SizeOf(f.actual), MmuOff()))
      ensures old(Doubled(htab[..])) ==> Doubled(htab[..])
    {
      hide Unmapped, Remapped, Refines, WithinSpace, WithPages, StoppedAt, SlbSafe, EaToVpn, FirstVpn, PageOf, Offset, AllKnown, FrameOk, Doubled, NoneOf;
      if !MapChecks(ea, MmuOff(), f) { return true; }
      InsideSpace(ea, SizeOf(f.actual), ea);
      var vpn := EaToVpn(ea, MmuOff(), sr);
      VpnOfEa(ea, MmuOff(), sr);
      var p := Page(SpaceOf(ea, MmuOff()), vpn);
      ReadyToMap(layout, ea, MmuOff(), f);
      var ok;
      ghost var l';
      ok, l' := MapVpn(htab, ptegs, p, f, layout);
      if ok { MapEffect(layout, l', ea, MmuOff(), f); }
      ghost var l, t := layout, htab[..];
      assert !ok ==> exists j: nat :: StoppedAt(t, ptegs, l.frames, l'.frames, p, j, f);
      layout := l';
      assert htab[..] == t && p == PageOf(ea, MmuOff());
      halted := !ok;
    }

    /** mmu_map_range. */
    method MapRange(start: Ea, end: Ea, ra: nat, pp: Prot, actual: PageSize) returns (halted: bool)
      requires Shaped() && (start < end ==> WithinSpace(start, end - start)) && (IsGuest(start) ==> hasGuest)
      modifies this`layout, htab
      ensures Shaped()
      ensures var n := if start < end then end - start else 0;
        && (!halted ==> Remapped(old(layout), layout, start, n, MmuOff(), ra, pp))
        && (old(Valid()) && Unmapped(old(layout), start, n, MmuOff()) ==> Valid())
        && (old(Valid()) && !halted ==> OneEntryEach(htab[..], ptegs, layout, Unmapped(old(layout), start, n, MmuOff())))
    {
      hide TableSays, Refines, WithinSpace, StoppedAt, SlbSafe, Supported, MapChecks, Unmapped, Remapped, Doubled;
      var size := SizeOf(actual);
      ghost var l0, valid := layout, Valid();
      if Sub64(end, start) % size != 0 { return true; }
      var addr, r := start, ra;
      NothingRemapped(layout, start, MmuOff(), ra, pp);
      NothingUnmapped(layout, start, MmuOff());
      while addr < end
        invariant start <= addr && (start < end ==> addr <= end && (end - addr) % size == 0) && (start >= end ==> addr == start)
        invariant r == ra + (addr - start)
        invariant Shaped() && Remapped(l0, layout, start, addr - start, MmuOff(), ra, pp)
        invariant valid ==> OneEntryEach(htab[..], ptegs, layout, Unmapped(l0, start, addr - start, MmuOff()))
        decreases end - addr
      {
        WholePage(end - addr, size);
        RestOfRange(l0, layout, start, end, addr, size, MmuOff(), ra, pp);
        ghost var l := layout;
        halted := Map(addr, Frame(r, pp, actual));
        if halted { return; }
        RemappedMore(l0, l, layout, start, addr, size, MmuOff(), ra, pp);
        addr, r := addr + size, r + size;
      }
      halted := false;
    }

    /** mmu_unmap: BUG_ON a page of which a base page is not mapped. */
    method Unmap(ea: Ea, actual: PageSize) returns (halted: bool)
      requires Valid() && WithinSpace(ea, SizeOf(actual)) && (IsGuest(ea) ==> hasGuest)
      modifies this`layout, htab
      ensures Valid()
      ensures halted <==> !UnmapChecks(ea, MmuOff(), actual) || !AllMapped(old(layout), ea, SizeOf(actual), MmuOff())
      ensures !halted ==> Cleared(old(layout), layout, ea, SizeOf(actual), MmuOff())
    {
      hide AllMapped, Cleared, Refines, WithinSpace, WithoutPages, SlbSafe, EaToVpn, FirstVpn, PageOf, Offset, AllKnown;
      if !UnmapChecks(ea, MmuOff(), actual) { return true; }
      InsideSpace(ea, SizeOf(actual), ea);
      var vpn := EaToVpn(ea, MmuOff(), sr);
      VpnOfEa(ea, MmuOff(), sr);
      var p := Page(SpaceOf(ea, MmuOff()), vpn);
      StartOfPage(ea, MmuOff(), actual);
      MappedPages(layout, ea, MmuOff(), actual);
      var ok;
      ghost var l';
      ok, l' := UnmapVpn(htab, ptegs, p, actual, layout);
      if ok { UnmapEffect(layout, l', ea, MmuOff(), actual); }
      layout := l';
      halted := !ok;
    }

    /** A memory access: segment lookup, a segment fault and retry if need be, then the page table. */
    method Access(ea: Ea) returns (o: Outcome)
      requires Valid() && Supported(ea) && (IsGuest(ea) ==> hasGuest) && Searchable(ptegs, k, SpaceOf(ea, MmuOff()))
      modifies slb
      ensures Valid() && o == TableSays(layout, ea, MmuOff())
    {
      hide Refines, Supported, SlbSafe, HwTranslate, TableSays, HwVpn, Searchable, Pow2;
      SlbLength();
      var i := 0;
      while i < SLB_SIZE && !EntryMatches(slb[i], ea)
        invariant 0 <= i <= SLB_SIZE && forall n :: 0 <= n < i ==> !EntryMatches(slb[n], ea)
      {
        i := i + 1;
      }
      if i == SLB_SIZE {
        MissIsGuest(slb[..], hasGuest, MmuOff(), ea);
        var ok := SegmentFault(ea);
        i := 3 + ea / 0x1000_0000;
      }
      MatchIsExpected(slb[..], hasGuest, MmuOff(), ea, i);
      HardwareAgrees(htab[..], ptegs, k, layout, ea, MmuOff());
      o := HwTranslate(htab[..], k, slb[i], ea);
    }

    /** The memory management part of guest_init: RAM mapped for the MMU off, then on. */
    method GuestInit(ramSize: Ea, ra: nat) returns (halted: bool)
      requires Valid() && !hasGuest && MmuOff() && ramSize <= LAYOUT_VM_END
      requires forall p :: p in layout.frames ==> p.space.Hv? || p.space.Ail?
      modifies this, slb, htab
      ensures ramSize < 0x200_0000 || ramSize % 0x100_0000 != 0 ==> halted
      ensures !halted ==> Valid() && hasGuest && !MmuOff() && msr == 0x30
      ensures !halted ==> forall x: Ea, off: bool :: x < ramSize ==> TableSays(layout, x, off) == Real(ra + x, ReadWrite, ReadWrite)
      ensures !halted ==> forall x: Ea, off: bool :: Supported(x) && !IsGuest(x) ==> TableSays(layout, x, off) == old(TableSays(layout, x, off))
    {
      hide Refines, SlbSafe, TableSays, Remapped, Unmapped;
      SlbLength();
      if ramSize < 0x200_0000 || ramSize % 0x100_0000 != 0 { return true; }
      msr := 0;
      sr := seq(SR_COUNT, i => i);
      GuestUpdate(false);
      hasGuest := true;
      ghost var l0 := layout;
      NoGuestPages(layout, ramSize);
      halted := MapRange(0, ramSize, ra, RWRW, Page16M);
      if halted { return; }
      ghost var l1 := layout;
      StillUnmapped(l0, l1, ramSize, ra, RWRW);
      halted := UpdateMsr(0x30);
      halted := MapRange(0, ramSize, ra, RWRW, Page4K);
      if halted { return; }
      BothMapped(l0, l1, layout, ramSize, ra);
    }

    /** A run of the guest: its accesses see what the page table says under its current MSR. */
    method RunGuest(events: seq<Event>) returns (halted: bool, seen: seq<Outcome>)
      requires Valid() && hasGuest && Searchable(ptegs, k, Guest) && Searchable(ptegs, k, RealMode)
      modifies this`msr, this`srr1, slb
      ensures (halted, seen) == Replay(layout, old(msr), old(srr1), events)
      ensures !halted ==> Valid() && hasGuest
    {
      hide Refines, SlbSafe, TableSays, IdentitySr, Consistent, Searchable, Pow2;
      seen := [];
      assert events[0..] == events;
      for i := 0 to |events|
        invariant Valid() && hasGuest
        invariant var rest := Replay(layout, msr, srr1, events[i..]);
          Replay(layout, old(msr), old(srr1), events).0 == rest.0 && Replay(layout, old(msr), old(srr1), events).1 == seen + rest.1
      {
        assert events[i..][0] == events[i] && events[i..][1..] == events[i + 1..];
        assert seen + [] == seen;
        match events[i] {
          case MoveToMsr(value) =>
            halted := UpdateMsr(value);
            if halted { return true, seen; }
          case ReturnFromInterrupt =>
            halted := UpdateMsr(srr1);
            if halted { return true, seen; }
          case MoveToSrr1(value) =>
            srr1 := value;
          case Touch(ea) =>
            var o := Access(ea);
            AppendOne(seen, o, Replay(layout, msr, srr1, events[i + 1..]).1);
            seen := seen + [o];
        }
      }
      halted := false;
    }

    lemma {:induction false} SlbLength()
      requires Valid()
      ensures slb.Length == 32
    {}
  }

  lemma {:induction false} NoGuestPages(l: Layout, size: nat)
    requires forall p :: p in l.frames ==> p.space.Hv? || p.space.Ail?
    requires 0 < size <= LAYOUT_VM_END
    ensures WithinSpace(0, size) && Unmapped(l, 0, size, true) && Unmapped(l, 0, size, false)
  {}

  lemma {:induction false} StillUnmapped(l: Layout, l': Layout, size: nat, ra: nat, pp: Prot)
    requires Remapped(l, l', 0, size, true, ra, pp) && Unmapped(l, 0, size, false) && size <= LAYOUT_VM_END
    ensures Unmapped(l', 0, size, false)
  {
    hide TableSays;
  }

  lemma {:induction false} BothMapped(l: Layout, l1: Layout, l2: Layout, size: nat, ra: nat)
    requires Remapped(l, l1, 0, size, true, ra, RWRW) && Remapped(l1, l2, 0, size, false, ra, RWRW) && size <= LAYOUT_VM_END
    ensures forall x: Ea, off: bool :: x < size ==> TableSays(l2, x, off) == Real(ra + x, ReadWrite, ReadWrite)
    ensures forall x: Ea, off: bool :: Supported(x) && !IsGuest(x) ==> TableSays(l2, x, off) == TableSays(l, x, off)
  {
    hide TableSays;
  }

  lemma {:induction false} AppendOne(a: seq<Outcome>, o: Outcome, b: seq<Outcome>)
    ensures a + ([o] + b) == (a + [o]) + b
  {}

  lemma {:induction false} NothingRemapped(l: Layout, ea: nat, mmuOff: bool, ra: nat, pp: Prot)
    ensures Remapped(l, l, ea, 0, mmuOff, ra, pp)
  {}

  lemma {:induction false} WholePage(d: nat, size: nat)
    requires (size == 0x1000 || size == 0x100_0000) && d > 0 && d % size == 0
    ensures d >= size && (d - size) % size == 0
  {}

  lemma {:induction false} NothingUnmapped(l: Layout, ea: Ea, mmuOff: bool)
    ensures Unmapped(l, ea, 0, mmuOff)
  {}

  lemma {:induction false} RestOfRange(l: Layout, l': Layout, start: Ea, end: Ea, addr: Ea, size: nat, mmuOff: bool, ra: nat, pp: Prot)
    requires start <= addr < addr + size <= end && WithinSpace(start, end - start)
    requires Remapped(l, l', start, addr - start, mmuOff, ra, pp)
    ensures WithinSpace(addr, size) && (IsGuest(addr) ==> IsGuest(start))
    ensures Unmapped(l, start, addr + size - start, mmuOff) <==> Unmapped(l, start, addr - start, mmuOff) && Unmapped(l', addr, size, mmuOff)
    ensures Unmapped(l, start, end - start, mmuOff) ==> Unmapped(l, start, addr + size - start, mmuOff)
  {
    InsideSpace(start, end - start, addr);
    InsideSpace(start, end - start, addr + size - 1);
    hide TableSays, Supported;
  }

  lemma {:induction false} RemappedMore(l0: Layout, l: Layout, l': Layout, start: Ea, addr: Ea, size: nat, mmuOff: bool, ra: nat, pp: Prot)
    requires start <= addr && Remapped(l0, l, start, addr - start, mmuOff, ra, pp) && Remapped(l, l', addr, size, mmuOff, ra + (addr - start), pp)
    ensures Remapped(l0, l', start, addr + size - start, mmuOff, ra, pp)
  {
    hide TableSays, Supported;
  }

  lemma {:induction false} StartOfPage(ea: Ea, mmuOff: bool, actual: PageSize)
    requires WithinSpace(ea, SizeOf(actual)) && UnmapChecks(ea, mmuOff, actual)
    ensures var p := PageOf(ea, mmuOff); p.space == SpaceOf(ea, mmuOff) && p.vpn == FirstVpn(p.space) + Offset(ea) / 0x1000
  {
    PageNumber(ea, mmuOff);
    AlignedOffset(ea, actual);
    OffsetPages(Offset(ea), 0, actual);
  }

  /** An aligned page starts at a base page, and none of its base pages is mapped exactly when no address is. */
  lemma {:induction false} ReadyToMap(l: Layout, ea: Ea, mmuOff: bool, f: Frame)
    requires WithinSpace(ea, SizeOf(f.actual)) && MapChecks(ea, mmuOff, f)
    ensures var p, n := PageOf(ea, mmuOff), BasePages(BaseOf(SpaceOf(ea, mmuOff)), f.actual);
      && AllKnown(p, n) && p.space == SpaceOf(ea, mmuOff) && p.vpn == FirstVpn(p.space) + Offset(ea) / 0x1000
      && (NoneOf(l.frames, p, n) <==> Unmapped(l, ea, SizeOf(f.actual), mmuOff))
  {
    PagesKnown(ea, f.actual, mmuOff);
    PageNumber(ea, mmuOff);
    AlignedOffset(ea, f.actual);
    OffsetPages(Offset(ea), 0, f.actual);
    FreePages(l, ea, mmuOff, f.actual);
  }

  lemma {:induction false} FreePages(l: Layout, ea: Ea, mmuOff: bool, actual: PageSize)
    requires WithinSpace(ea, SizeOf(actual)) && UnmapChecks(ea, mmuOff, actual)
    requires AllKnown(PageOf(ea, mmuOff), BasePages(BaseOf(SpaceOf(ea, mmuOff)), actual))
    ensures NoneOf(l.frames, PageOf(ea, mmuOff), BasePages(BaseOf(SpaceOf(ea, mmuOff)), actual)) <==> Unmapped(l, ea, SizeOf(actual), mmuOff)
  {
    hide PartOf, PageOf, WithinSpace, Supported, PageAt, Known;
    InsideSpace(ea, SizeOf(actual), ea);
    var p, n := PageOf(ea, mmuOff), BasePages(BaseOf(SpaceOf(ea, mmuOff)), actual);
    if NoneOf(l.frames, p, n) {
      forall x: Ea | ea <= x < ea + SizeOf(actual) && Supported(x) ensures TableSays(l, x, mmuOff) == PageFault {
        PagesOfPage(ea, actual, mmuOff, x);
        var j := PartIsNth(p, n, PageOf(x, mmuOff));
      }
    }
    if Unmapped(l, ea, SizeOf(actual), mmuOff) {
      forall j: nat | j < n ensures PageAt(p, j) !in l.frames { NthPageOf(ea, actual, mmuOff, j); }
    }
  }
}
