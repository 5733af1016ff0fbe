/** Page and arena allocation out of interval lists: mem_get_pages and rom_claim. */
module Claims {
  import opened MachineWords
  import BitTricks
  import Masks
  import opened Ranges

  const PAGE_SIZE: nat := 0x1000

  function PageDown(x: nat): nat { x / PAGE_SIZE * PAGE_SIZE }

  function PageUp(x: nat): nat { if x % PAGE_SIZE == 0 then x else (x + PAGE_SIZE - 1) / PAGE_SIZE * PAGE_SIZE }

  // ---------- mem_get_pages

  /** The page-aligned part of a range can hold `length` bytes. */
  predicate HasRoom(r: Range, length: nat) {
    PageUp(r.base) < PageDown(r.limit) && PageDown(r.limit) - PageUp(r.base) >= length
  }

  /** There is room exactly when an aligned block fits and leaves a byte behind it; the first such block is at PageUp of the base. */
  lemma {:induction false} RoomExactly(r: Range, length: nat)
    requires length > 0 && length % 0x1000 == 0 && r.base <= r.limit
    ensures HasRoom(r, length) <==> exists a: nat :: a % 0x1000 == 0 && r.base <= a && a + length <= r.limit
    ensures PageUp(r.base) % 0x1000 == 0 && r.base <= PageUp(r.base) < r.base + 0x1000
  {
    hide PageUp, PageDown, HasRoom;
    PageUpFacts(r.base);
    if a: nat :| a % 0x1000 == 0 && r.base <= a && a + length <= r.limit {
      RoomForBlock(r, length, a);
    }
    if HasRoom(r, length) {
      BlockInRoom(r, length);
    }
  }

  lemma {:induction false} RoomForBlock(r: Range, length: nat, a: nat)
    requires length > 0 && length % 0x1000 == 0 && a % 0x1000 == 0 && r.base <= a && a + length <= r.limit
    ensures HasRoom(r, length)
  {
    hide PageUp, PageDown;
    assert (a + length) % 0x1000 == 0;
    FirstPageUp(r.base, a);
    LastPageDown(a + length, r.limit);
  }

  lemma {:induction false} BlockInRoom(r: Range, length: nat)
    requires HasRoom(r, length)
    ensures var a := PageUp(r.base); a % 0x1000 == 0 && r.base <= a && a + length <= r.limit
  {
    hide PageUp, PageDown;
    PageUpFacts(r.base);
    PageDownFacts(r.limit);
  }

  lemma {:induction false} PageUpFacts(x: nat)
    ensures PageUp(x) % 0x1000 == 0 && x <= PageUp(x) < x + 0x1000
  {}

  lemma {:induction false} PageDownFacts(x: nat)
    ensures PageDown(x) % 0x1000 == 0 && PageDown(x) <= x
  {}

  lemma {:induction false} FirstPageUp(x: nat, a: nat)
    requires a % 0x1000 == 0 && x <= a
    ensures PageUp(x) <= a
  {}

  lemma {:induction false} LastPageDown(a: nat, x: nat)
    requires a % 0x1000 == 0 && a <= x
    ensures a <= PageDown(x)
  {}

  /** A range of exactly one page has no room for a page. */
  lemma {:induction false} PagePassedOver()
    ensures !HasRoom(Range(0x1000, 0x1FFF), 0x1000) && HasRoom(Range(0x1000, 0x2000), 0x1000)
  {}

  /** Every address of the initial memory is free or in exactly one of the blocks given out. */
  ghost predicate Accounted(initial: seq<Range>, free: seq<Range>, given: seq<Range>) {
    && (forall x :: Covers(initial, x) <==> Covers(free, x) || Covers(given, x))
    && (forall x :: !(Covers(free, x) && Covers(given, x)))
    && (forall i, j, x :: 0 <= i < j < |given| ==> !(In(given[i], x) && In(given[j], x)))
    && (forall i :: 0 <= i < |given| ==> given[i].base % PAGE_SIZE == 0)
  }

  class PageSource {
    const free: RangeList
    ghost const initial: seq<Range>
    ghost var given: seq<Range>

    ghost predicate Valid()
      reads this, free
    {
      && free.Valid() && (forall i :: 0 <= i < |free.list| ==> free.list[i].limit < 0x8000_0000_0000_0000)
      && Accounted(initial, free.list, given)
    }

    constructor (free: RangeList)
      requires free.Valid() && forall i :: 0 <= i < |free.list| ==> free.list[i].limit < 0x8000_0000_0000_0000
      ensures Valid() && this.free == free && initial == free.list && given == []
    {
      this.free := free;
      initial := free.list;
      given := [];
    }

    /** mem_get_pages after start-up: page-aligned memory from the first range with room. */
    method GetPages(length: nat) returns (halted: bool, found: bool, ra: nat)
      requires Valid() && length < TWO_TO_THE_64
      modifies this, free
      ensures halted <==> length == 0 || length % 0x1000 != 0 || exists i :: FirstRoom(old(free.list), length, i) && JustBelowPage(old(free.list)[i])
      ensures !halted ==> Valid() && (found <==> exists i :: FirstRoom(old(free.list), length, i))
      ensures !halted && found ==> ra % PAGE_SIZE == 0 && ra + length <= 0x8000_0000_0000_0000 && given == old(given) + [Range(ra, ra + length - 1)]
      ensures !halted && found ==> free.list == CutAll(old(free.list), ra, ra + length - 1)
      ensures !halted ==> forall i :: FirstRoom(old(free.list), length, i) ==> ra == PageUp(old(free.list)[i].base)
      ensures !halted && !found ==> ra == 0 && free.list == old(free.list) && given == old(given) && forall i :: 0 <= i < |free.list| ==> !HasRoom(free.list[i], length)
    {
      hide Accounted, Proper, Covers, Taken, CutAll;
      halted, found, ra := false, false, 0;
      if length == 0 || length % PAGE_SIZE != 0 { return true, false, 0; }
      for i := 0 to |free.list|
        invariant Valid() && free.list == old(free.list) && given == old(given)
        invariant forall j :: 0 <= j < i ==> !HasRoom(free.list[j], length)
      {
        var r := free.list[i];
        var baseAligned, limitAligned := PageUp(r.base), PageDown(r.limit);
        if baseAligned < limitAligned && limitAligned - baseAligned >= length {
          ra := baseAligned;
          RoomFacts(r, length);
          ghost var before := free.list;
          assert FirstRoom(before, length, i);
          OneFirst(before, length, i);
          OnlyThisRange(before, i, ra, ra + length - 1);
          halted := free.Remove(ra, ra + length - 1);
          found := true;
          if halted { return; }
          given := given + [Range(ra, ra + length - 1)];
          Given(initial, before, free.list, old(given), i, Range(ra, ra + length - 1));
          TakenStays(before, free.list, ra, ra + length - 1);
          StillBelow(before, free.list, 0x8000_0000_0000_0000);
          return;
        }
      }
    }
  }

  /** The first range with room for `length` bytes. */
  predicate FirstRoom(s: seq<Range>, length: nat, i: int) {
    0 <= i < |s| && HasRoom(s[i], length) && forall j :: 0 <= j < i ==> !HasRoom(s[j], length)
  }

  /** The range starts a byte below a page, so that cutting its pages out leaves a range of one byte. */
  predicate JustBelowPage(r: Range) { (r.base + 1) % PAGE_SIZE == 0 }

  lemma {:induction false} OneFirst(s: seq<Range>, length: nat, i: nat)
    requires FirstRoom(s, length, i)
    ensures forall j :: FirstRoom(s, length, j) ==> j == i
  {
    hide HasRoom;
  }

  lemma {:induction false} TakenStays(before: seq<Range>, after: seq<Range>, base: Word, limit: Word)
    requires Taken(before, after, base, limit)
    ensures forall x :: Covers(after, x) ==> Covers(before, x)
  {
    hide Covers;
  }

  lemma {:induction false} RoomFacts(r: Range, length: nat)
    requires HasRoom(r, length) && r.limit < 0x8000_0000_0000_0000 && length > 0 && length % PAGE_SIZE == 0
    ensures var ra := PageUp(r.base);
      && ra % PAGE_SIZE == 0 && r.base <= ra < r.base + PAGE_SIZE && ra + length <= r.limit && ra < ra + length - 1
      && (ra == r.base + 1 <==> JustBelowPage(r))
  {}

  /** Among disjoint ranges only the one cut can leave a unit below the cut. */
  lemma {:induction false} OnlyThisRange(s: seq<Range>, i: nat, base: Word, limit: Word)
    requires Proper(s) && i < |s| && s[i].base <= base <= limit < s[i].limit
    ensures OneBelow(s, base, limit) <==> s[i].base + 1 == base
  {
    if OneBelow(s, base, limit) {
      var j :| 0 <= j < |s| && SplitsOne(s[j], base, limit);
      OneRange(s, i, j, base);
    }
    assert s[i].base + 1 == base ==> SplitsOne(s[i], base, limit);
  }

  lemma {:induction false} OneRange(s: seq<Range>, i: nat, j: nat, x: int)
    requires Proper(s) && i < |s| && j < |s| && In(s[i], x) && In(s[j], x)
    ensures i == j
  {}

  lemma {:induction false} Given(initial: seq<Range>, before: seq<Range>, after: seq<Range>, given: seq<Range>, i: nat, b: Range)
    requires Accounted(initial, before, given) && Taken(before, after, b.base, b.limit)
    requires i < |before| && before[i].base <= b.base <= b.limit <= before[i].limit && b.base % PAGE_SIZE == 0
    ensures Accounted(initial, after, given + [b])
  {
    hide Covers;
    forall x ensures (In(b, x) ==> Covers(before, x)) && (Covers(given + [b], x) <==> Covers(given, x) || In(b, x)) {
      if In(b, x) { InCovers(before, i, x); }
      CoversConcat(given, [b], x);
      CoversOne(b, x);
    }
    var given' := given + [b];
    forall j, k, x | 0 <= j < k < |given'| ensures !(In(given'[j], x) && In(given'[k], x)) {
      if k == |given| && In(given'[j], x) {
        assert given'[j] == given[j];
        InCovers(given, j, x);
      }
    }
  }

  lemma {:induction false} StillBelow(before: seq<Range>, after: seq<Range>, bound: nat)
    requires Proper(after) && (forall i :: 0 <= i < |before| ==> before[i].limit < bound)
    requires forall x :: Covers(after, x) ==> Covers(before, x)
    ensures forall i :: 0 <= i < |after| ==> after[i].limit < bound
  {
    forall i | 0 <= i < |after| ensures after[i].limit < bound {
      InCovers(after, i, after[i].limit);
      var j :| 0 <= j < |before| && In(before[j], after[i].limit);
    }
  }

  // ---------- rom_claim

  /** ALIGN_UP with any mask: `x & ~m` is `x - (x & m)`. */
  function AlignUp(x: nat, align: nat): nat
    requires align > 0
  {
    BitTricks.AndBelow(x + align - 1, align - 1);
    if BitTricks.And(x, align - 1) == 0 then x else x + align - 1 - BitTricks.And(x + align - 1, align - 1)
  }

  lemma {:induction false} AlignUpBounds(x: nat, align: nat)
    requires align > 0
    ensures x <= AlignUp(x, align) <= x + align - 1
  {
    BitTricks.AndBelow(x + align - 1, align - 1);
  }

  /** Aligning clears the bits of the mask, whatever it is. */
  lemma {:induction false} AlignUpMasked(x: nat, align: nat)
    requires align > 0
    ensures BitTricks.And(AlignUp(x, align), align - 1) == 0
  {
    hide BitTricks.And;
    ClearsMask(x + align - 1, align - 1);
  }

  lemma {:induction false} ClearsMask(y: nat, m: nat)
    ensures y >= BitTricks.And(y, m) && BitTricks.And(y - BitTricks.And(y, m), m) == 0
    decreases y
  {
    BitTricks.AndBelow(y, m);
    if y > 0 && m > 0 {
      ClearsMask(y / 2, m / 2);
      var c := BitTricks.And(y, m);
      assert c == 2 * BitTricks.And(y / 2, m / 2) + (if y % 2 == 1 && m % 2 == 1 then 1 else 0);
      assert (y - c) / 2 == y / 2 - BitTricks.And(y / 2, m / 2);
    }
  }

  lemma {:induction false} AlignUpAligned(x: nat, k: nat)
    ensures AlignUp(x, BitTricks.Pow2(k)) % BitTricks.Pow2(k) == 0
  {
    hide BitTricks.And, BitTricks.Pow2;
    var a := BitTricks.Pow2(k);
    Masks.AndLowMask(x, k);
    Masks.AndLowMask(x + a - 1, k);
    BitTricks.Quotient(x + a - 1, a);
    BitTricks.UniqueQuotient(a * ((x + a - 1) / a), a, (x + a - 1) / a, 0);
  }

  /** Ranges made of whole pages. */
  ghost predicate WholePages(s: seq<Range>) {
    forall i :: 0 <= i < |s| ==> s[i].base % PAGE_SIZE == 0 && (s[i].limit + 1) % PAGE_SIZE == 0
  }

  datatype Claim = Claim(base: nat, size: nat, fromArena: bool)

  ghost predicate ClaimHas(c: Claim, x: int) { c.base <= x < c.base + c.size }

  /** Claimed memory is not available; arena claims are in the used part of the arena, one after another. */
  ghost predicate ClaimsKept(avail: seq<Range>, claims: seq<Claim>, start: nat, ptr: nat) {
    && (forall i, x :: 0 <= i < |claims| && ClaimHas(claims[i], x) ==> !Covers(avail, x))
    && (forall i :: 0 <= i < |claims| && claims[i].fromArena ==> start <= claims[i].base && claims[i].base + claims[i].size <= ptr)
    && (forall i, j :: 0 <= i < j < |claims| && claims[i].fromArena && claims[j].fromArena ==> claims[i].base + claims[i].size <= claims[j].base)
  }

  class ClaimArena {
    const avail: RangeList
    const start: nat
    const end: nat
    const ramSize: nat
    var ptr: nat
    ghost var claims: seq<Claim>

    ghost predicate Valid()
      reads this, avail
    {
      && avail.Valid() && WholePages(avail.list) && start <= ptr <= end <= ramSize < 0x1_0000_0000
      && ClaimsKept(avail.list, claims, start, ptr)
    }

    /** The state rom_init leaves: all of RAM available, its last 16 MB the arena. */
    constructor (ramSize: nat)
      requires 0x100_0000 <= ramSize < 0x1_0000_0000 && ramSize % PAGE_SIZE == 0
      ensures Valid() && claims == [] && fresh(avail) && end == this.ramSize == ramSize && start == ptr == ramSize - 0x100_0000
    {
      this.ramSize := ramSize;
      start, ptr, end := ramSize - 0x100_0000, ramSize - 0x100_0000, ramSize;
      claims := [];
      var ranges := new RangeList();
      var halted := ranges.Add(0, ramSize - 1);
      avail := ranges;
      new;
      assert ranges.list == [Range(0, ramSize - 1)];
    }

    /**
     rom_claim: a block from the arena when aligned, else where the guest says, taken out of the available
     memory page by page. Of a block that runs past 2^32 only the page it starts in is taken.
     */
    method TakeClaim(addr: nat, size: nat, align: nat) returns (halted: bool, out: nat)
      requires Valid() && addr < TWO_TO_THE_32 && size < TWO_TO_THE_32
      modifies this, avail
      ensures halted <==>
        if align == 0 then PageDown(addr) >= SpanLimit(addr, size)
        else var a := AlignUp(old(ptr), align); a >= end || a + size > end || PageDown(a) >= SpanLimit(a, size)
      ensures !halted ==> out == if align == 0 then addr else AlignUp(old(ptr), align)
      ensures !halted ==> Valid() && avail.list == CutAll(old(avail.list), PageDown(out), SpanLimit(out, size))
      ensures !halted ==> claims == old(claims) + if out + size <= TWO_TO_THE_32 then [Claim(out, size, align != 0)] else []
      ensures !halted ==>
        ((forall x :: out <= x < out + size ==> !Covers(avail.list, x)) <==>
         out + size <= TWO_TO_THE_32 || forall x :: PageDown(out) + PAGE_SIZE <= x < out + size ==> !Covers(old(avail.list), x))
      ensures !halted && align != 0 ==> old(ptr) <= out && ptr == out + size <= end
    {
      hide Covers, Proper, AlignUp, SpanLimit, PageDown, CutAll, WholePages, ClaimsKept;
      if align != 0 {
        AlignUpBounds(ptr, align);
        ptr := AlignUp(ptr, align);
        if ptr >= end { return true, 0; }
        out := ptr;
        ptr := ptr + size;
        if ptr > end { return true, 0; }
      } else {
        out := addr;
      }
      SpanIsPages(out, size);
      NoOneBelow(avail.list, PageDown(out), SpanLimit(out, size));
      ghost var before := avail.list;
      halted := avail.Remove(PageDown(out), SpanLimit(out, size));
      if halted { return; }
      ClaimClear(before, avail.list, out, size);
      PagesLeft(before, PageDown(out), SpanLimit(out, size));
      KeptBelow(before, avail.list, claims, start, old(ptr), ptr, PageDown(out), SpanLimit(out, size));
      if out + size <= TWO_TO_THE_32 {
        SpanOfBlock(out, size);
        Kept(before, avail.list, claims, start, old(ptr), ptr, Claim(out, size, align != 0), PageDown(out), SpanLimit(out, size));
        claims := claims + [Claim(out, size, align != 0)];
      }
    }
  }

  /** The last byte rom_claim takes out, in 32-bit arithmetic. */
  function SpanLimit(out: nat, size: nat): (limit: nat)
    ensures limit < TWO_TO_THE_32
  {
    (PageUp((out + size) % TWO_TO_THE_32) % TWO_TO_THE_32 - 1) % TWO_TO_THE_32
  }

  lemma {:induction false} SpanIsPages(out: nat, size: nat)
    ensures PageDown(out) <= out && PageDown(out) % PAGE_SIZE == 0 && (SpanLimit(out, size) + 1) % PAGE_SIZE == 0
  {
    hide PageUp, PageDown;
    PageDownFacts(out);
    PageUpFacts((out + size) % TWO_TO_THE_32);
    LimitOfPage(PageUp((out + size) % TWO_TO_THE_32));
  }

  lemma {:induction false} LimitOfPage(up: nat)
    requires up % 0x1000 == 0
    ensures ((up % TWO_TO_THE_32 - 1) % TWO_TO_THE_32 + 1) % 0x1000 == 0
  {
    var low := up % TWO_TO_THE_32;
    assert low % 0x1000 == 0;
    assert (low - 1) % TWO_TO_THE_32 == if low == 0 then TWO_TO_THE_32 - 1 else low - 1;
  }

  /** The pages taken out: those of the block; of none at a page's start, up to the byte before; and from 0 on, of none, all. */
  lemma {:induction false} SpanInPages(out: nat, size: nat)
    requires out + size <= TWO_TO_THE_32 && out < TWO_TO_THE_32
    ensures PageDown(out) == out / 0x1000 * 0x1000
    ensures size > 0 ==> SpanLimit(out, size) == (out + size - 1) / 0x1000 * 0x1000 + 0xFFF
    ensures size == 0 && out % 0x1000 != 0 ==> SpanLimit(out, size) == out / 0x1000 * 0x1000 + 0xFFF
    ensures size == 0 && out % 0x1000 == 0 && out > 0 ==> SpanLimit(out, size) == out - 1
    ensures size == 0 && out == 0 ==> SpanLimit(out, size) == 0xFFFF_FFFF
  {
    LastOfSpan(out, size);
    if out + size > 0 { PageOfLast(out + size); }
  }

  lemma {:induction false} PageOfLast(n: nat)
    requires n > 0
    ensures PageUp(n) == (n - 1) / 0x1000 * 0x1000 + 0x1000
    ensures n % 0x1000 != 0 ==> (n - 1) / 0x1000 == n / 0x1000
  {}

  lemma {:induction false} LastOfSpan(out: nat, size: nat)
    requires out + size <= TWO_TO_THE_32
    ensures SpanLimit(out, size) == if out + size == 0 then 0xFFFF_FFFF else PageUp(out + size) - 1
  {
    var n := out + size;
    assert n % TWO_TO_THE_32 == if n < TWO_TO_THE_32 then n else 0;
    assert n < TWO_TO_THE_32 ==> PageUp(n) <= TWO_TO_THE_32;
    hide PageUp;
    assert PageUp(0) == 0 by { PageUpZero(); }
    assert PageUp(TWO_TO_THE_32) == TWO_TO_THE_32 by { PageUpZero(); }
  }

  lemma {:induction false} PageUpZero()
    ensures PageUp(0) == 0 && PageUp(TWO_TO_THE_32) == TWO_TO_THE_32
  {}

  /** Up to 2^32 the whole block is taken out. */
  lemma {:induction false} SpanOfBlock(out: nat, size: nat)
    requires out + size <= TWO_TO_THE_32
    ensures PageDown(out) <= out && out + size - 1 <= SpanLimit(out, size)
  {}

  /** The block is out of the available memory exactly when it ends by 2^32 or nothing past its first page was available. */
  lemma {:induction false} ClaimClear(before: seq<Range>, after: seq<Range>, out: nat, size: nat)
    requires out < TWO_TO_THE_32 && size < TWO_TO_THE_32 && PageDown(out) < SpanLimit(out, size)
    requires Taken(before, after, PageDown(out), SpanLimit(out, size))
    ensures (forall x :: out <= x < out + size ==> !Covers(after, x)) <==>
            out + size <= TWO_TO_THE_32 || forall x :: PageDown(out) + PAGE_SIZE <= x < out + size ==> !Covers(before, x)
  {
    hide Covers, SpanLimit;
    FirstPage(out);
    if out + size <= TWO_TO_THE_32 { SpanOfBlock(out, size); } else { SpanPastTheEnd(out, size); }
  }

  lemma {:induction false} FirstPage(out: nat)
    ensures PageDown(out) <= out < PageDown(out) + PAGE_SIZE
  {}

  /** A guest that claims 0xFFFFFF00 bytes at 0x1800 loses one page, and the next one stays available. */
  lemma {:induction false} ClaimLost(after: seq<Range>, ramSize: nat)
    requires 0x100_0000 <= ramSize < TWO_TO_THE_32 && Taken([Range(0, ramSize - 1)], after, PageDown(0x1800), SpanLimit(0x1800, 0xFFFF_FF00))
    ensures PageDown(0x1800) == 0x1000 && SpanLimit(0x1800, 0xFFFF_FF00) == 0x1FFF && Covers(after, 0x2000)
  {
    hide Taken;
    assert SpanLimit(0x1800, 0xFFFF_FF00) == 0x1FFF;
    StillThere(after, Range(0, ramSize - 1), 0x1000, 0x1FFF, 0x2000);
  }

  lemma {:induction false} StillThere(after: seq<Range>, r: Range, base: Word, limit: Word, x: int)
    requires Taken([r], after, base, limit) && In(r, x) && x > limit
    ensures Covers(after, x)
  {
    hide Covers;
    CoversOne(r, x);
  }

  /** Past 2^32 the call goes through exactly when the block ends in the page it starts in, and takes that page. */
  lemma {:induction false} SpanPastTheEnd(out: nat, size: nat)
    requires out < TWO_TO_THE_32 && size < TWO_TO_THE_32 < out + size
    ensures PageDown(out) < SpanLimit(out, size) <==> out + size - TWO_TO_THE_32 > PageDown(out)
    ensures PageDown(out) < SpanLimit(out, size) ==> SpanLimit(out, size) == PageDown(out) + PAGE_SIZE - 1
  {
    var e: nat := out + size - TWO_TO_THE_32;
    assert (out + size) % TWO_TO_THE_32 == e;
    PageUpBelow(e, out);
    hide PageUp, PageDown;
    var u := PageUp(e);
    assert SpanLimit(out, size) == if u == TWO_TO_THE_32 then TWO_TO_THE_32 - 1 else u - 1;
  }

  lemma {:induction false} PageUpBelow(e: nat, out: nat)
    requires 0 < e < out < TWO_TO_THE_32
    ensures 0 < PageUp(e) <= TWO_TO_THE_32 && PageDown(out) + PAGE_SIZE <= TWO_TO_THE_32
    ensures if e <= PageDown(out) then PageUp(e) <= PageDown(out) else PageUp(e) == PageDown(out) + PAGE_SIZE
  {
    hide PageUp, PageDown;
    PageUpFacts(e);
    PageDownFacts(out);
    FirstPage(out);
    NextMultiple(PageUp(e), PageDown(out), e);
  }

  lemma {:induction false} NextMultiple(u: nat, d: nat, e: nat)
    requires u % 0x1000 == 0 && d % 0x1000 == 0 && e <= u < e + 0x1000
    ensures u <= d <==> e <= d
    ensures d < e < d + 0x1000 ==> u == d + 0x1000
  {}

  /** Whole pages never leave a single unit. */
  lemma {:induction false} NoOneBelow(s: seq<Range>, base: Word, limit: Word)
    requires WholePages(s) && base % PAGE_SIZE == 0
    ensures !OneBelow(s, base, limit)
  {
    forall j | 0 <= j < |s| ensures !SplitsOne(s[j], base, limit) {}
  }

  lemma {:induction false} PagesLeft(s: seq<Range>, base: Word, limit: Word)
    requires base <= limit && WholePages(s) && base % PAGE_SIZE == 0 && (limit + 1) % PAGE_SIZE == 0
    ensures WholePages(CutAll(s, base, limit))
    decreases |s|
  {
    if s != [] {
      PagesLeft(s[..|s| - 1], base, limit);
      assert WholePages(Pieces(s[|s| - 1], base, limit));
    }
  }

  lemma {:induction false} Kept(before: seq<Range>, after: seq<Range>, claims: seq<Claim>, start: nat, ptr: nat, ptr': nat,
                                c: Claim, base: Word, limit: Word)
    requires ClaimsKept(before, claims, start, ptr) && Taken(before, after, base, limit) && ptr <= ptr'
    requires base <= c.base && c.base + c.size - 1 <= limit
    requires c.fromArena ==> start <= ptr <= c.base && c.base + c.size <= ptr'
    ensures ClaimsKept(after, claims + [c], start, ptr')
  {
    hide Covers;
    var all := claims + [c];
    forall i | 0 <= i < |all| ensures all[i] == (if i < |claims| then claims[i] else c) {}
  }

  lemma {:induction false} KeptBelow(before: seq<Range>, after: seq<Range>, claims: seq<Claim>, start: nat, ptr: nat, ptr': nat, base: Word, limit: Word)
    requires ClaimsKept(before, claims, start, ptr) && Taken(before, after, base, limit) && ptr <= ptr'
    ensures ClaimsKept(after, claims, start, ptr')
  {
    hide Covers;
  }
}
