/**
 The allocator over one initialised segment: dlmalloc, dlfree and memalign, with the designated
 victim `dv`, the `top` chunk and the index of binned free chunks.
 */
module Heap {
  import opened MachineWords
  import opened BitTricks
  import opened Masks
  import opened Trie
  import opened Links
  import opened Tiling
  import opened TreeSearch
  import opened Bins

  const MALLOC_ALIGNMENT: nat := 16
  const CHUNK_OVERHEAD: nat := 8
  const MIN_REQUEST: nat := 23
  const MAX_SMALL_REQUEST: nat := 232
  const MAX_REQUEST: nat := TWO_TO_THE_64 - 128
  const MAX_SIZE_T: nat := TWO_TO_THE_64 - 1

  /** The chunk size for a request: pad_request, with the minimum chunk for small requests. */
  function Padded(bytes: nat): nat {
    if bytes < MIN_REQUEST then MIN_CHUNK_SIZE else (bytes + CHUNK_OVERHEAD + 15) / 16 * 16
  }

  lemma {:induction false} PaddedRange(bytes: nat)
    ensures Aligned(Padded(bytes)) && MIN_CHUNK_SIZE <= Padded(bytes)
    ensures bytes + CHUNK_OVERHEAD <= Padded(bytes) <= bytes + 32
    ensures bytes <= MAX_SMALL_REQUEST ==> Padded(bytes) < MIN_LARGE_SIZE - 8
    ensures bytes > MAX_SMALL_REQUEST ==> Padded(bytes) >= MIN_LARGE_SIZE
  {}

  /** The least chunk for a request: a multiple of 16, of at least 32, with room for the bytes and a head word. */
  ghost predicate LeastChunk(bytes: nat, n: nat) {
    && n % 16 == 0 && 32 <= n && bytes + 8 <= n
    && forall m: nat :: m % 16 == 0 && 32 <= m && bytes + 8 <= m ==> n <= m
  }

  lemma {:induction false} PaddedLeast(bytes: nat)
    ensures forall n: nat :: LeastChunk(bytes, n) <==> n == Padded(bytes)
  {
    assert LeastChunk(bytes, Padded(bytes));
  }

  lemma {:induction false} PaddedMore(bytes: nat, a: nat)
    requires a % 16 == 0
    ensures Padded(Padded(bytes) + a + 24) == Padded(bytes) + a + 32
  {}

  /** The segment is tiled and fully mapped. */
  ghost predicate Mapped(s: Tags, base: Ptr, end: Ptr, top: Ptr, topsize: nat, cells: set<Ptr>) {
    && Segment(s, base, top, topsize) && top + topsize == end < TWO_TO_THE_64
    && (forall a :: base <= a < end && Aligned(a) ==> a in s.heads && a in cells)
  }

  /** The designated victim, if any, is a free chunk of the recorded size. */
  ghost predicate Victim(s: Tags, dv: Ptr, dvsize: nat) {
    (dv == 0 <==> dvsize == 0) && (dv != 0 ==> dv in Free(s) && s.heads[dv].size == dvsize)
  }

  /** The free chunk at `p` fits a request of `nb` bytes. */
  ghost predicate Fitting(s: Tags, nb: nat, p: Ptr) {
    p in Free(s) && s.heads[p].size >= nb
  }

  ghost predicate BestFit(s: Tags, nb: nat, p: Ptr) {
    Fitting(s, nb, p) && forall x :: Fitting(s, nb, x) ==> s.heads[p].size <= s.heads[x].size
  }

  ghost predicate NothingFits(s: Tags, nb: nat) {
    forall x :: !Fitting(s, nb, x)
  }

  /** A free chunk other than dv has exactly the size wanted. */
  ghost predicate SameSize(s: Tags, dv: Ptr, nb: nat) {
    exists x :: Fitting(s, nb, x) && s.heads[x].size == nb && x != dv
  }

  /**
   Which free chunk serves a request: for a large one the best fit, dv winning ties; for a small one
   a binned chunk of exactly the size, else dv, else the best fit.
   */
  ghost predicate Chosen(s: Tags, dv: Ptr, nb: nat, p: Ptr) {
    Fitting(s, nb, p) &&
    if nb >= 256 then BestFit(s, nb, p) && (BestFit(s, nb, dv) ==> p == dv)
    else if SameSize(s, dv, nb) then s.heads[p].size == nb && p != dv
    else if Fitting(s, nb, dv) then p == dv
    else BestFit(s, nb, p)
  }

  /** Top serves a request only when no free chunk does. */
  ghost predicate FromTop(s: Tags, top: Ptr, nb: nat, p: Ptr) { p == top && NothingFits(s, nb) }

  /** The bins leave a request to dv or top. */
  ghost predicate LeftToDv(s: Tags, dv: Ptr, dvsize: nat, nb: nat) {
    if nb >= MIN_LARGE_SIZE then NothingFits(s, nb) || BestFit(s, nb, dv)
    else !SameSize(s, dv, nb) && (NothingFits(s, nb) || nb <= dvsize)
  }

  lemma {:induction false} DvServes(s: Tags, dv: Ptr, dvsize: nat, nb: nat)
    requires LeftToDv(s, dv, dvsize, nb) && Victim(s, dv, dvsize) && nb > 0
    ensures nb <= dvsize ==> Chosen(s, dv, nb, dv)
    ensures dvsize < nb && 0 !in s.chunks ==> NothingFits(s, nb)
  {}

  /** The chunk `p` is newly allocated, with at most a minimum chunk to spare; nothing else changed. */
  ghost predicate Added(u: map<Ptr, nat>, u': map<Ptr, nat>, p: Ptr, nb: nat) {
    p !in u && p in u' && nb <= u'[p] < nb + 32 && u' == u[p := u'[p]]
  }

  /** Records with those of `d` laid over them from `lo` up to `hi`. */
  function Overlaid<T>(m: map<Ptr, T>, d: map<Ptr, T>, lo: Ptr, hi: Ptr): map<Ptr, T> {
    map a | a in m :: if lo <= a < hi && a in d then d[a] else m[a]
  }

  /** The power of two internal_memalign aligns to. */
  ghost predicate Alignment(alignment: nat, a: nat, k: nat) {
    5 <= k <= 63 && a == Pow2(k) && alignment <= a && (a == 32 || a < 2 * alignment)
  }

  /** What the rounding loop has in hand after `n` rounds of its 64-bit shift. */
  function AfterShifts(n: nat): nat {
    if n == 0 then 32 else 2 * AfterShifts(n - 1) % TWO_TO_THE_64
  }

  lemma {:induction false} AfterShiftsIs(n: nat)
    ensures AfterShifts(n) == if n <= 58 then Pow2(n + 5) else 0
  {
    hide Pow2;
    if n == 0 {
      PowerOfFive();
    } else {
      AfterShiftsIs(n - 1);
      ShiftedWord(n + 4);
    }
  }

  lemma {:induction false} ShiftedWord(k: nat)
    ensures k < 63 ==> 2 * Pow2(k) % TWO_TO_THE_64 == Pow2(k + 1)
    ensures k == 63 ==> 2 * Pow2(k) % TWO_TO_THE_64 == 0
  {
    hide Pow2;
    PowValues();
    if k < 63 {
      PowSucc(k);
      PowBelow(k + 1, 64);
    }
  }

  /** The rounding loop never ends exactly for the alignments above 2^63. */
  lemma {:induction false} EndlessExactly(alignment: nat)
    requires MIN_CHUNK_SIZE <= alignment < TWO_TO_THE_64
    ensures (forall n: nat :: AfterShifts(n) < alignment) <==> alignment > TWO_TO_THE_63
  {
    hide Pow2, AfterShifts;
    PowValues();
    AfterShiftsIs(58);
    forall n: nat | alignment > TWO_TO_THE_63 ensures AfterShifts(n) < alignment {
      AfterShiftsIs(n);
      if n < 58 { PowBelow(n + 5, 63); }
    }
  }

  /** Rounds up to a power of two; `ended` is false when the loop comes to zero, which it then shifts for ever. */
  method RoundAlignment(alignment: nat) returns (ended: bool, a: nat, ghost k: nat)
    requires alignment < TWO_TO_THE_64
    ensures ended <==> alignment <= TWO_TO_THE_63
    ensures !ended ==> forall n: nat :: AfterShifts(n) < alignment
    ensures ended ==> Alignment(alignment, a, k)
    ensures ended ==> alignment <= a && MIN_CHUNK_SIZE <= a && (a == MIN_CHUNK_SIZE || a < 2 * alignment)
  {
    hide Pow2, And, AfterShifts;
    a, k := if alignment < MIN_CHUNK_SIZE then MIN_CHUNK_SIZE else alignment, 5;
    ended := true;
    PowValues();
    PowerOfFive();
    PowerTest(a);
    EndlessExactly(a);
    if And(a, a - 1) != 0 {
      var wanted := a;
      a := 32;
      while 0 < a < wanted
        invariant 5 <= k <= 64 && a == Pow2(k) % TWO_TO_THE_64 && (k < 64 ==> a == Pow2(k)) && (a == 32 || a < 2 * wanted)
        invariant k == 64 ==> wanted > TWO_TO_THE_63
        decreases 64 - k
      {
        PowSucc(k);
        if k < 63 { PowBelow(k + 1, 64); }
        a, k := a * 2 % TWO_TO_THE_64, k + 1;
      }
      ended := a != 0;
      if k < 63 { PowBelow(k, 63); }
    } else {
      k :| a == Pow2(k);
      if k < 5 { PowBelow(k, 5); }
      if k < 63 { PowBelow(k, 63); }
      if k > 64 { PowBelow(64, k); }
    }
  }

  lemma {:induction false} SixteenDivides(k: nat)
    requires k >= 4
    ensures Pow2(k) % 16 == 0
  {
    hide Pow2;
    if k > 4 {
      SixteenDivides(k - 1);
      PowSucc(k - 1);
      TwiceDivided(Pow2(k - 1));
    } else {
      PowFour();
    }
  }

  lemma {:induction false} TwiceDivided(p: nat)
    requires p % 16 == 0
    ensures 2 * p % 16 == 0
  {}

  lemma {:induction false} PowFour()
    ensures Pow2(4) == 16
  {
    assert Pow2(2) == 4;
  }

  lemma {:induction false} RemainderAligned(m: nat, a: nat, q: nat, r: nat)
    requires m == a * q + r && Aligned(m) && Aligned(a)
    ensures Aligned(r)
  {
    assert a == 16 * (a / 16);
    assert a * q == 16 * (a / 16 * q);
  }

  predicate Multiple(x: nat, a: nat)
    requires a > 0
  {
    x % a == 0
  }

  lemma {:induction false} MultipleOf(x: nat, a: nat, q: nat)
    requires a > 0 && x == a * q
    ensures Multiple(x, a)
  {
    UniqueQuotient(x, a, q, 0);
  }

  lemma {:induction false} MisalignedTest(mem: nat, a: nat, k: nat)
    requires a == Pow2(k)
    ensures And(mem, a - 1) != 0 <==> !Multiple(mem, a)
  {
    AndLowMask(mem, k);
  }

  lemma {:induction false} DivMod(x: nat, a: nat) returns (q: nat, r: nat)
    requires a > 0
    ensures x == a * q + r && r < a && (r == 0 ==> Multiple(x, a))
  {
    q, r := x / a, x % a;
    Quotient(x, a);
  }

  /** Masking with -a rounds down to a multiple of the power of two `a`. */
  lemma {:induction false} MaskedDown(x: nat, a: nat, k: nat, q: nat, r: nat)
    requires k < 64 && a == Pow2(k) < Pow2(64) && x < Pow2(64) && x == a * q + r && r < a
    ensures And(x, Neg(a, 64)) == a * q
  {
    hide Pow2, And;
    UniqueQuotient(x, a, q, r);
    AndHighMask(x, k, 64);
  }

  /** Rounding a misaligned address up. */
  lemma {:induction false} RoundedUp(mem: nat, a: nat, k: nat)
    requires 5 <= k <= 63 && a == Pow2(k) && Aligned(mem) && !Multiple(mem, a) && mem + a < TWO_TO_THE_64
    ensures 32 <= a < Pow2(64) == TWO_TO_THE_64 && Aligned(a)
    ensures var up := And(mem + a - 1, Neg(a, 64)); Multiple(up, a) && Multiple(up + a, a) && mem < up < mem + a && Aligned(up)
  {
    hide Pow2, And, Multiple, Aligned;
    AlignmentFacts(k);
    var q, r := DivMod(mem, a);
    Distribute(a, q);
    MaskedDown(mem + a - 1, a, k, q + 1, r - 1);
    MultipleOf(a * (q + 1), a, q + 1);
    MultipleOf(a * (q + 2), a, q + 2);
    RemainderAligned(mem, a, q, r);
    AlignedSum(mem, a);
    AlignedSum(mem + a, r);
    assert And(mem + a - 1, Neg(a, 64)) == mem + a - r;
  }

  /** An aligned spot inside a chunk, leaving a leader that is a chunk. */
  method AlignedSpot(p: nat, alignment: nat, ghost k: nat) returns (pos: nat)
    requires 5 <= k <= 63 && alignment == Pow2(k) && Aligned(p) && !Multiple(p + 16, alignment)
    requires p + 16 + alignment < TWO_TO_THE_64
    ensures Multiple(pos + 16, alignment) && Aligned(pos - p) && MIN_CHUNK_SIZE <= pos - p <= alignment + 16
  {
    hide Pow2, And, Multiple;
    var mem := p + 16;
    RoundedUp(mem, alignment, k);
    var br := And(mem + alignment - 1, Neg(alignment, 64)) - 16;
    pos := if br - p >= MIN_CHUNK_SIZE then br else br + alignment;
  }

  lemma {:induction false} AlignmentFacts(k: nat)
    requires 5 <= k <= 63
    ensures 32 <= Pow2(k) < Pow2(64) == TWO_TO_THE_64 && Aligned(Pow2(k))
  {
    hide Pow2;
    PowValues();
    PowBelow(k, 64);
    if k > 5 { PowBelow(5, k); }
    PowerOfFive();
    SixteenDivides(k);
  }

  lemma {:induction false} PowerOfFive()
    ensures Pow2(5) == 32
  {}

  lemma {:induction false} Distribute(a: nat, q: nat)
    ensures a * (q + 1) == a * q + a && a * (q + 2) == a * q + 2 * a
  {}

  class Allocator {
    const table: BinTable
    const base: Ptr
    const end: Ptr
    var heads: Heads
    var feet: Feet
    var dv: Ptr
    var dvsize: nat
    var top: Ptr
    var topsize: nat
    ghost var chunks: set<Ptr>

    ghost function Memory(): Tags
      reads this
    {
      Tags(heads, feet, chunks)
    }

    /** All agree, except that the free chunks `out` are in no bin. */
    ghost predicate Without(out: set<Ptr>)
      reads this, table
    {
      && Mapped(Memory(), base, end, top, topsize, table.links.Keys) && Victim(Memory(), dv, dvsize)
      && table.Valid(heads)
      && table.members == Free(Memory()) - {dv} - out && out <= Free(Memory()) - {dv}
    }

    ghost predicate Valid()
      reads this, table
    {
      Without({})
    }

    /** init_top and init_bins over a fresh segment; its memory may hold anything. */
    constructor (base: Ptr, end: Ptr, heads: Heads, feet: Feet, links: Links.Memory)
      requires 0 < base < end < TWO_TO_THE_64 && Aligned(base) && Aligned(end)
      requires forall a :: base <= a < end && Aligned(a) ==> a in heads && a in links
      ensures Valid() && InUse(Memory()) == map[] && Free(Memory()) == {}
      ensures this.base == base && this.end == end && top == base && dv == 0
      ensures fresh(this) && fresh(table)
    {
      this.base := base;
      this.end := end;
      this.heads := heads[base := Head(end - base, true, false)];
      this.feet := feet;
      dv, dvsize, top, topsize := 0, 0, base, end - base;
      chunks := {};
      table := new BinTable(links);
      new;
      AlignedSum(end, base);
      table.HeadsFrame(map[], this.heads);
    }

    lemma {:induction false} FreeChunk(p: Ptr)
      requires Mapped(Memory(), base, end, top, topsize, table.links.Keys) && p in Free(Memory())
      ensures 0 < base <= p && p + heads[p].size < top < end < TWO_TO_THE_64 && MIN_CHUNK_SIZE <= heads[p].size && Aligned(heads[p].size)
      ensures Aligned(p) && heads[p].pinuse && p in table.links
      ensures p + heads[p].size in chunks && p + heads[p].size in heads && heads[p + heads[p].size].cinuse
    {
      FreeFacts(Memory(), base, top, topsize, p);
    }

    lemma {:induction false} NullIsNoChunk()
      requires Mapped(Memory(), base, end, top, topsize, table.links.Keys) && Victim(Memory(), dv, dvsize)
      ensures 0 !in chunks && dvsize < end < TWO_TO_THE_64 && topsize < end
    {
      if dv != 0 { FreeChunk(dv); }
    }

    // ---------- allocation from a free chunk

    /** set_inuse_and_pinuse on a chunk taken out of the index. */
    method TakeWhole(p: Ptr, size: nat)
      requires Without({p}) && size == heads[p].size
      modifies this
      ensures Valid() && InUse(Memory()) == old(InUse(Memory()))[p := size]
      ensures dv == old(dv) && dvsize == old(dvsize) && top == old(top) && topsize == old(topsize)
    {
      hide Segment, TableOk;
      ghost var s := Memory();
      FreeChunk(p);
      Taken(s, base, top, topsize, p);
      TakenEffect(s, base, top, topsize, p);
      ghost var h := heads;
      heads := MarkInUse(heads, p, size);
      table.HeadsFrame(h, heads);
    }

    /** The lower `nb` bytes are allocated; the remainder becomes a free chunk in no bin. */
    method SplitOff(p: Ptr, nb: nat, rsize: nat) returns (r: Ptr)
      requires Without({p}) && heads[p].size == nb + rsize
      requires Aligned(nb) && MIN_CHUNK_SIZE <= nb && MIN_CHUNK_SIZE <= rsize
      modifies this
      ensures Without({r}) && InUse(Memory()) == old(InUse(Memory()))[p := nb]
      ensures r == p + nb && heads[r].size == rsize
      ensures dv == old(dv) && dvsize == old(dvsize) && top == old(top) && topsize == old(topsize)
    {
      hide Segment, TableOk;
      ghost var s := Memory();
      FreeChunk(p);
      Split(s, base, top, topsize, p, nb, rsize);
      SplitEffect(s, p, nb, rsize, feet[p + (nb + rsize) := rsize]);
      assert s.chunks + {p, p + nb} == s.chunks + {p + nb};
      ghost var h := heads;
      r := p + nb;
      heads := heads[p := Head(nb, true, true)];
      heads := heads[r := Head(rsize, true, false)];
      feet := feet[r + rsize := rsize];
      chunks := chunks + {r};
      table.HeadsFrame(h, heads);
    }

    /** insert_chunk for a free chunk in no bin. */
    method Bin(r: Ptr, rsize: nat)
      requires Without({r}) && heads[r].size == rsize
      modifies table
      ensures Valid() && table.links.Keys == old(table.links.Keys)
    {
      hide Segment, TableOk, Mapped, Victim;
      FreeChunk(r);
      table.InsertChunk(r, rsize, heads);
    }

    /** unlink_chunk for a binned chunk. */
    method Unbin(p: Ptr, size: nat, ghost out: set<Ptr>)
      requires Without(out) && p in table.members && heads[p].size == size
      modifies table
      ensures Without(out + {p}) && table.links.Keys == old(table.links.Keys)
    {
      hide Segment, TableOk, Mapped, Victim;
      FreeChunk(p);
      table.UnlinkChunk(p, size, heads);
    }

    /** replace_dv: the old victim, always small, goes to its bin. */
    method ReplaceDv(r: Ptr, rsize: nat)
      requires Without({r}) && heads[r].size == rsize && dvsize < MIN_LARGE_SIZE
      modifies this, table
      ensures Valid() && heads == old(heads) && feet == old(feet) && chunks == old(chunks)
      ensures dv == r && dvsize == rsize && top == old(top)
    {
      hide Segment, TableOk;
      FreeChunk(r);
      NullIsNoChunk();
      hide Mapped;
      if dvsize != 0 {
        FreeChunk(dv);
        table.InsertSmall(dv, dvsize, heads);
      }
      dvsize, dv := rsize, r;
    }

    /** A chunk out of the index is allocated whole, or split with the remainder saved as dv or binned. */
    method Carve(p: Ptr, nb: nat, rsize: nat, toDv: bool)
      requires Without({p}) && heads[p].size == nb + rsize && (toDv ==> dvsize < MIN_LARGE_SIZE)
      requires Aligned(nb) && MIN_CHUNK_SIZE <= nb
      modifies this, table
      ensures Valid() && Added(old(InUse(Memory())), InUse(Memory()), p, nb) && top == old(top)
      ensures dv == if toDv && rsize >= MIN_CHUNK_SIZE then p + nb else old(dv)
    {
      hide Segment, TableOk;
      if rsize < MIN_CHUNK_SIZE {
        TakeWhole(p, rsize + nb);
      } else {
        var r := SplitOff(p, nb, rsize);
        if toDv { ReplaceDv(r, rsize); } else { Bin(r, rsize); }
      }
    }

    // ---------- dlmalloc

    /** The unsigned comparison of remainders decides between the best binned chunk `v` and dv. */
    lemma {:induction false} LargeChoice(nb: nat, v: Ptr, rsize: nat)
      requires Valid() && MIN_LARGE_SIZE <= nb < TWO_TO_THE_64 && dvsize < TWO_TO_THE_64
      requires v == 0 ==> table.NoneFits(heads, nb)
      requires v != 0 ==> table.Fits(heads, nb, v) && heads[v].size == nb + rsize < TWO_TO_THE_64
      ensures v != 0 ==> v in Free(Memory()) && v != dv && v in table.members
      ensures v != 0 && rsize < Sub64(dvsize, nb) ==> Chosen(Memory(), dv, nb, v)
      ensures v == 0 || rsize >= Sub64(dvsize, nb) ==> NothingFits(Memory(), nb) || BestFit(Memory(), nb, dv)
    {
      hide Segment, TableOk;
      NullIsNoChunk();
      assert forall x :: Fitting(Memory(), nb, x) ==> x == dv || x in table.members;
      assert Fitting(Memory(), nb, dv) ==> dvsize >= nb;
    }

    /** tmalloc_large: the best binned chunk, unless dv fits at least as well. */
    method MallocFromTree(nb: nat) returns (p: Ptr)
      requires Valid() && Aligned(nb) && MIN_LARGE_SIZE <= nb < TWO_TO_THE_64
      modifies this, table
      ensures p != 0 ==> Valid() && Added(old(InUse(Memory())), InUse(Memory()), p, nb)
      ensures p != 0 ==> old(Chosen(Memory(), dv, nb, p)) && p != old(dv)
      ensures dv == old(dv) && top == old(top)
      ensures p == 0 ==> unchanged(this, table) && LeftToDv(Memory(), dv, dvsize, nb)
    {
      hide Segment, TableOk;
      var v, rsize := table.SearchLarge(nb, heads);
      NullIsNoChunk();
      p := 0;
      if v != 0 { FreeChunk(v); }
      LargeChoice(nb, v, rsize);
      hide Chosen, BestFit, Fitting, Mapped, Victim;
      if v != 0 && rsize < Sub64(dvsize, nb) {
        assert base <= v < v + nb;
        Unbin(v, rsize + nb, {});
        Carve(v, nb, rsize, false);
        p := v;
      }
    }

    /** The small bins serve a request of bin index nb / 8 exactly, or not at all. */
    lemma {:induction false} SmallExact(nb: nat, i: BinIndex, list: seq<Ptr>)
      requires Valid() && Aligned(nb) && nb == 8 * i && list == table.small[i]
      ensures list != [] <==> SameSize(Memory(), dv, nb)
    {
      forall x ensures x in list <==> x in table.members && heads[x].size == nb { table.SmallInMembers(heads, i, x); }
      hide Segment, TableOk;
      if list != [] {
        assert list[0] in list;
        assert Fitting(Memory(), nb, list[0]);
      }
      if SameSize(Memory(), dv, nb) {
        var x :| Fitting(Memory(), nb, x) && heads[x].size == nb && x != dv;
        assert x in list;
      }
    }

    /** Chunk sizes are multiples of 16, so every other small bin stays empty. */
    lemma {:induction false} OddBinEmpty(i: BinIndex)
      requires Valid() && i % 2 == 1
      ensures |table.small| == 32 && table.small[i] == []
    {
      hide Segment, TableOk;
      table.BinFacts(heads, i);
      if table.small[i] != [] {
        var x := table.small[i][0];
        table.SmallInMembers(heads, i, x);
        FreeChunk(x);
      }
    }

    /** With dv too small, any chunk of the first non-empty small bin that fits is a best fit. */
    lemma {:induction false} SmallBest(nb: nat, i: BinIndex)
      requires Valid() && nb <= 8 * i && dvsize < nb
      requires forall j: BinIndex :: nb <= 8 * j && j < i ==> table.small[j] == []
      ensures forall p :: p in table.members && heads[p].size == 8 * i ==> BestFit(Memory(), nb, p)
    {
      hide Segment, TableOk;
      NullIsNoChunk();
      forall x | Fitting(Memory(), nb, x) ensures 8 * i <= heads[x].size {
        FreeChunk(x);
        if heads[x].size < MIN_LARGE_SIZE { table.SmallInMembers(heads, heads[x].size / 8, x); }
      }
    }

    ghost predicate SmallestInTrees(v: Ptr)
      reads this, table
    {
      && v in table.members && v in heads && heads[v].size >= MIN_LARGE_SIZE
      && forall x :: x in table.members && x in heads && heads[x].size >= MIN_LARGE_SIZE ==> heads[v].size <= heads[x].size
    }

    /** With dv too small and no small bin that fits, the smallest tree chunk is a best fit. */
    lemma {:induction false} TreeBest(nb: nat, v: Ptr)
      requires Valid() && nb < MIN_LARGE_SIZE && dvsize < nb
      requires forall j: BinIndex :: nb <= 8 * j ==> table.small[j] == []
      ensures table.treemap == 0 ==> NothingFits(Memory(), nb)
      ensures SmallestInTrees(v) ==> BestFit(Memory(), nb, v)
    {
      hide Segment, TableOk;
      NullIsNoChunk();
      forall x | Fitting(Memory(), nb, x) ensures x in table.members && heads[x].size >= MIN_LARGE_SIZE && table.treemap != 0 {
        FreeChunk(x);
        if heads[x].size < MIN_LARGE_SIZE { table.SmallInMembers(heads, heads[x].size / 8, x); }
        table.InTree(heads, x);
      }
    }

    /** A small request from the bins: an exact fit, or, when dv is too small, the best fit. */
    method MallocFromBins(nb: nat) returns (p: Ptr)
      requires Valid() && Aligned(nb) && MIN_CHUNK_SIZE <= nb < MIN_LARGE_SIZE - 8
      modifies this, table
      ensures p != 0 ==> Valid() && Added(old(InUse(Memory())), InUse(Memory()), p, nb)
      ensures p != 0 ==> old(Chosen(Memory(), dv, nb, p)) && p != old(dv)
      ensures p == 0 ==> unchanged(this, table) && LeftToDv(Memory(), dv, dvsize, nb)
    {
      hide Segment, TableOk;
      var idx: BinIndex := nb / 8;
      assert nb == 8 * idx && idx < 31;
      NullIsNoChunk();
      table.AllMarks(heads);
      SmallExact(nb, idx, table.small[idx]);
      OddBinEmpty(idx + 1);
      hide Mapped, Victim, Fitting, BestFit;
      var found, bin := RemainderlessBin(table.smallmap, idx);
      p := 0;
      if found {
        p := TakeExact(bin);
      } else if nb > dvsize {
        var any := AnyFrom(table.smallmap, idx);
        if any {
          p := TakeNextSmall(nb, idx);
        } else {
          forall j: BinIndex | nb <= 8 * j ensures table.small[j] == [] { assert idx <= j; }
          TreeBest(nb, 0);
          if table.treemap != 0 {
            p := MallocSmallFromTree(nb);
          }
        }
      }
    }

    /** A remainderless fit. */
    method TakeExact(i: BinIndex) returns (p: Ptr)
      requires Valid() && Marked(table.smallmap, i) && i < 31 && Aligned(8 * i) && i > 0
      modifies this, table
      ensures Valid() && Added(old(InUse(Memory())), InUse(Memory()), p, 8 * i)
      ensures p != 0 && old(p in Free(Memory()) && heads[p].size == 8 * i) && p != old(dv)
    {
      hide Segment, TableOk;
      NullIsNoChunk();
      p := table.UnlinkFirstSmall(i, heads);
      TakeWhole(p, 8 * i);
    }

    /** The first chunk of the next non-empty small bin. */
    method TakeNextSmall(nb: nat, idx: BinIndex) returns (p: Ptr)
      requires Valid() && Aligned(nb) && MIN_CHUNK_SIZE <= nb == 8 * idx && dvsize < nb && idx < 31
      requires table.small[idx] == [] && exists j: BinIndex :: idx <= j && Marked(table.smallmap, j)
      modifies this, table
      ensures p != 0 && Valid() && Added(old(InUse(Memory())), InUse(Memory()), p, nb) && top == old(top)
      ensures old(BestFit(Memory(), nb, p)) && p != old(dv)
      ensures dv == old(if heads[p].size >= nb + MIN_CHUNK_SIZE then p + nb else dv)
    {
      hide Segment, TableOk;
      table.AllMarks(heads);
      var leftbits := LargerSmallBins(table.smallmap, idx);
      EmptyMap(leftbits);
      var i := LeastIndex(leftbits);
      forall j: BinIndex | nb <= 8 * j && j < i ensures table.small[j] == [] {
        assert j == idx || (idx < j && !Marked(leftbits, j));
      }
      SmallBest(nb, i);
      NullIsNoChunk();
      hide BestFit, Fitting, Marked;
      p := table.UnlinkFirstSmall(i, heads);
      Carve(p, nb, 8 * i - nb, true);
    }

    /** tmalloc_small: split the smallest tree chunk, saving the remainder as dv. */
    method MallocSmallFromTree(nb: nat) returns (p: Ptr)
      requires Valid() && Aligned(nb) && MIN_CHUNK_SIZE <= nb < MIN_LARGE_SIZE && dvsize < nb && table.treemap != 0
      requires forall j: BinIndex :: nb <= 8 * j ==> table.small[j] == []
      modifies this, table
      ensures p != 0 && Valid() && Added(old(InUse(Memory())), InUse(Memory()), p, nb) && top == old(top)
      ensures old(BestFit(Memory(), nb, p)) && p != old(dv)
      ensures dv == old(if heads[p].size >= nb + MIN_CHUNK_SIZE then p + nb else dv)
    {
      hide Segment, TableOk;
      var v, rsize := table.SearchSmallest(nb, heads);
      TreeBest(nb, v);
      FreeChunk(v);
      hide BestFit, Fitting;
      assert base <= v < v + nb;
      Unbin(v, rsize + nb, {});
      Carve(v, nb, rsize, true);
      p := v;
    }

    lemma {:induction false} InUseChunk(p: Ptr)
      requires Mapped(Memory(), base, end, top, topsize, table.links.Keys) && p in InUse(Memory())
      ensures 0 < base <= p < p + heads[p].size <= top < end < TWO_TO_THE_64
      ensures MIN_CHUNK_SIZE <= heads[p].size && Aligned(heads[p].size) && Aligned(p) && p in table.links
      ensures p + heads[p].size in heads && heads[p + heads[p].size].pinuse
    {
      Facts(Memory(), base, top, p);
    }

    /** Use the designated victim, splitting it when the remainder is a chunk. */
    method MallocFromDv(nb: nat) returns (p: Ptr)
      requires Valid() && Aligned(nb) && MIN_CHUNK_SIZE <= nb <= dvsize
      modifies this, table
      ensures Valid() && p == old(dv) && p != 0 && Added(old(InUse(Memory())), InUse(Memory()), p, nb)
      ensures top == old(top) && dv == if old(dvsize) - nb >= MIN_CHUNK_SIZE then p + nb else 0
    {
      hide Segment, TableOk;
      NullIsNoChunk();
      var dvs, rsize := dvsize, dvsize - nb;
      p := dv;
      dv, dvsize := 0, 0;
      if rsize >= MIN_CHUNK_SIZE {
        var r := SplitOff(p, nb, rsize);
        FreeChunk(r);
        NullIsNoChunk();
        dv, dvsize := r, rsize;
      } else {
        TakeWhole(p, dvs);
      }
    }

    lemma {:induction false} AboveChunks(nb: nat)
      requires Mapped(Memory(), base, end, top, topsize, table.links.Keys)
      ensures top + nb !in chunks && 0 < base <= top && (base in chunks || base == top) && top + topsize == end
    {}

    /** Split top. */
    method MallocFromTop(nb: nat) returns (p: Ptr)
      requires Valid() && Aligned(nb) && MIN_CHUNK_SIZE <= nb < topsize
      modifies this
      ensures Valid() && p == old(top) && p != 0 && Added(old(InUse(Memory())), InUse(Memory()), p, nb)
      ensures top == p + nb && dv == old(dv)
    {
      hide Segment, TableOk;
      ghost var s, h := Memory(), heads;
      SplitTop(s, base, top, topsize, nb);
      AboveChunks(nb);
      SplitTopEffect(s, top, nb, topsize - nb);
      p := top;
      topsize := topsize - nb;
      top := p + nb;
      heads := heads[top := Head(topsize, true, false)];
      heads := heads[p := Head(nb, true, true)];
      assert heads == SplitHeads(h, p, nb, topsize);
      chunks := chunks + {p};
      table.HeadsFrame(h, heads);
    }

    /** What the bins leave: dv if it is big enough, then top. */
    method MallocFromRest(nb: nat) returns (p: Ptr)
      requires Valid() && Aligned(nb) && MIN_CHUNK_SIZE <= nb && LeftToDv(Memory(), dv, dvsize, nb)
      modifies this, table
      ensures p == 0 ==> unchanged(this, table) && NothingFits(Memory(), nb) && topsize <= nb
      ensures p != 0 ==> Valid() && Added(old(InUse(Memory())), InUse(Memory()), p, nb)
      ensures p != 0 ==> old(Chosen(Memory(), dv, nb, p) || FromTop(Memory(), top, nb, p))
    {
      hide Segment, TableOk, LeftToDv, Chosen, Mapped, Victim;
      NullIsNoChunk();
      DvServes(Memory(), dv, dvsize, nb);
      p := 0;
      if nb <= dvsize {
        p := MallocFromDv(nb);
      } else if nb < topsize {
        p := MallocFromTop(nb);
      }
    }

    /** dlmalloc, up to its call for more memory, where the result is 0. */
    method Malloc(bytes: nat) returns (mem: Ptr)
      requires Valid() && bytes < TWO_TO_THE_64
      modifies this, table
      ensures Valid()
      ensures mem == 0 ==> unchanged(this, table)
      ensures mem == 0 ==> bytes >= MAX_REQUEST || (NothingFits(Memory(), Padded(bytes)) && topsize <= Padded(bytes))
      ensures mem != 0 ==> bytes < MAX_REQUEST && mem % 16 == 0
      ensures mem != 0 ==> Added(old(InUse(Memory())), InUse(Memory()), mem - 16, Padded(bytes))
      ensures mem != 0 ==> old(Chosen(Memory(), dv, Padded(bytes), mem - 16) || FromTop(Memory(), top, Padded(bytes), mem - 16))
      ensures mem == 0 ==> bytes >= 0xFFFF_FFFF_FFFF_FF80 || forall p :: p in Free(Memory()) ==> heads[p].size < bytes + 8
      ensures mem == 0 ==> bytes >= 0xFFFF_FFFF_FFFF_FF80 || forall n: nat :: LeastChunk(bytes, n) ==> topsize <= n
      ensures mem != 0 ==> bytes < 0xFFFF_FFFF_FFFF_FF80
      ensures mem != 0 ==> forall n: nat :: LeastChunk(bytes, n) ==> Added(old(InUse(Memory())), InUse(Memory()), mem - 16, n)
      ensures mem != 0 ==> forall n: nat :: LeastChunk(bytes, n) ==> old(Chosen(Memory(), dv, n, mem - 16) || FromTop(Memory(), top, n, mem - 16))
    {
      hide Segment, TableOk, Padded, Chosen, LeftToDv, NothingFits, FromTop, Mapped, Victim, LeastChunk;
      PaddedLeast(bytes);
      NullIsNoChunk();
      PaddedRange(bytes);
      var p := 0;
      if bytes <= MAX_SMALL_REQUEST {
        p := MallocFromBins(Padded(bytes));
      } else if bytes >= MAX_REQUEST {
        assert MAX_SIZE_T > dvsize && MAX_SIZE_T > topsize;
        return 0;
      } else {
        NoTree(Padded(bytes));
        if table.treemap != 0 {
          p := MallocFromTree(Padded(bytes));
        }
      }
      if p == 0 {
        p := MallocFromRest(Padded(bytes));
        if p == 0 {
          NoRoom(bytes);
          return 0;
        }
      }
      InUseChunk(p);
      mem := p + 16;
    }

    lemma {:induction false} NoRoom(bytes: nat)
      requires Valid() && NothingFits(Memory(), Padded(bytes))
      ensures forall p :: p in Free(Memory()) ==> p in heads && heads[p].size < bytes + 8
    {
      hide TableOk, Padded;
      PaddedLeast(bytes);
      forall p | p in Free(Memory()) ensures p in heads && heads[p].size < bytes + 8 {
        Facts(Memory(), base, top, p);
        assert !Fitting(Memory(), Padded(bytes), p);
        assert LeastChunk(bytes, Padded(bytes));
      }
    }

    lemma {:induction false} NoTree(nb: nat)
      requires Valid() && nb >= MIN_LARGE_SIZE
      ensures table.treemap == 0 ==> LeftToDv(Memory(), dv, dvsize, nb)
    {
      hide Segment, TableOk;
      forall x | Fitting(Memory(), nb, x) && x != dv ensures table.treemap != 0 { table.InTree(heads, x); }
    }

    // ---------- dlfree

    /** [q, n) becomes one free chunk, in no bin; set_free_with_pinuse. */
    method Coalesce(q: Ptr, ghost p: Ptr, n: Ptr, psize: nat)
      requires Mapped(Memory(), base, end, top, topsize, table.links.Keys) && table.Valid(heads)
      requires Backward(Memory(), q, p) && Forward(Memory(), p + heads[p].size, n) && q + psize == n
      requires q in heads && heads[q].pinuse && q !in table.members && table.members <= Free(Memory())
      modifies this`heads, this`feet, this`chunks
      ensures Mapped(Memory(), base, end, top, topsize, table.links.Keys) && table.Valid(heads)
      ensures InUse(Memory()) == old(InUse(Memory())) - {p}
      ensures Free(Memory()) == old(Free(Memory()) - {p + heads[p].size}) + {q}
      ensures q in heads && heads[q].size == psize && forall a :: a in old(heads) && a != q ==> a in heads && heads[a].size == old(heads)[a].size
    {
      hide Segment, TableOk;
      ghost var s, h := Memory(), heads;
      MergeEffect(s, base, top, topsize, q, p, n);
      Merge(s, base, top, topsize, q, n);
      heads := heads[n := heads[n].(pinuse := false)];
      heads := heads[q := Head(psize, true, false)];
      feet := feet[n := psize];
      chunks := Outside(chunks, q, n);
      table.HeadsFrame(h, heads);
    }

    /** [q, top) joins top. */
    method JoinTop(q: Ptr, ghost p: Ptr, psize: nat)
      requires Mapped(Memory(), base, end, top, topsize, table.links.Keys) && table.Valid(heads)
      requires Backward(Memory(), q, p) && p + heads[p].size == top && q + psize == top
      requires q in heads && heads[q].pinuse && q !in table.members && table.members <= Free(Memory())
      modifies this`heads, this`feet, this`chunks, this`top, this`topsize
      ensures Mapped(Memory(), base, end, top, topsize, table.links.Keys) && table.Valid(heads)
      ensures InUse(Memory()) == old(InUse(Memory())) - {p} && Free(Memory()) == old(Free(Memory())) - {q} && top == q
      ensures forall a :: a in old(heads) && a != q ==> a in heads && heads[a].size == old(heads)[a].size
    {
      hide Segment, TableOk;
      ghost var s, h := Memory(), heads;
      MergeTopEffect(s, base, top, topsize, q, p);
      MergeTop(s, base, top, topsize, q);
      topsize := topsize + psize;
      top := q;
      heads := heads[q := Head(topsize, true, false)];
      chunks := set a | a in chunks && a < q;
      table.HeadsFrame(h, heads);
    }

    /** A chunk in use whose pinuse bit is clear follows a free chunk that its foot leads to. */
    lemma {:induction false} PreviousChunk(p: Ptr)
      requires Mapped(Memory(), base, end, top, topsize, table.links.Keys) && p in InUse(Memory())
      ensures !heads[p].pinuse ==> p in feet && feet[p] <= p && Backward(Memory(), p - feet[p], p) && p - feet[p] in Free(Memory())
      ensures !heads[p].pinuse ==> heads[p - feet[p]].size == feet[p] && heads[p - feet[p]].pinuse
    {
      PinuseMeaning(Memory(), base, top, topsize, p);
      if !heads[p].pinuse { FreeChunk(p - feet[p]); }
    }

    /** What follows a chunk in use is top, a chunk in use, or a free chunk followed by one in use. */
    lemma {:induction false} NextChunk(p: Ptr)
      requires Mapped(Memory(), base, end, top, topsize, table.links.Keys) && p in InUse(Memory())
      ensures var next := p + heads[p].size;
        && next in heads && heads[next].pinuse && p < next
        && (heads[next].cinuse ==> next in InUse(Memory()) && Forward(Memory(), next, next) && next != top)
        && (!heads[next].cinuse && next != top ==> next in Free(Memory()) && Forward(Memory(), next, next + heads[next].size))
        && (!heads[next].cinuse && next != top ==> !heads[next + heads[next].size].pinuse)
    {
      Facts(Memory(), base, top, p);
      var next := p + heads[p].size;
      if !heads[next].cinuse && next != top { FreeFacts(Memory(), base, top, topsize, next); }
    }

    /** Chunk `p` is being freed, and `q`, itself or the free chunk before it, is in no bin. */
    ghost predicate Freeing(q: Ptr, p: Ptr)
      reads this, table
    {
      && Mapped(Memory(), base, end, top, topsize, table.links.Keys) && Victim(Memory(), dv, dvsize) && table.Valid(heads)
      && Backward(Memory(), q, p) && q in heads && heads[q].pinuse
      && table.members == Free(Memory()) - {dv} - {q}
    }

    /** A binned chunk follows: unlink it and merge it too. */
    method SwallowNext(q: Ptr, psize0: nat, ghost p: Ptr) returns (psize: nat)
      requires Freeing(q, p) && q + psize0 == p + heads[p].size && q + psize0 in heads
      requires !heads[q + psize0].cinuse && q + psize0 != top && q + psize0 != dv
      modifies this`heads, this`feet, this`chunks, table
      ensures Mapped(Memory(), base, end, top, topsize, table.links.Keys) && table.Valid(heads)
      ensures InUse(Memory()) == old(InUse(Memory())) - {p}
      ensures table.members == Free(Memory()) - {dv} - {q} && q in Free(Memory()) && heads[q].size == psize > 0
      ensures dv != q ==> Victim(Memory(), dv, dvsize)
    {
      hide Segment, TableOk, Mapped, Forward;
      var next := q + psize0;
      NextChunk(p);
      NullIsNoChunk();
      FreeChunk(next);
      var nsize := heads[next].size;
      psize := psize0 + nsize;
      table.UnlinkChunk(next, nsize, heads);
      Coalesce(q, p, q + psize, psize);
    }

    /** The second half of dlfree and dispose_chunk: consolidate forward and file the result. */
    method ConsolidateForward(q: Ptr, psize0: nat, ghost p: Ptr)
      requires Freeing(q, p) && q + psize0 == p + heads[p].size
      requires q == dv && q + psize0 in heads ==> !heads[q + psize0].cinuse
      modifies this, table
      ensures Valid() && InUse(Memory()) == old(InUse(Memory())) - {p}
      ensures if q + psize0 == old(top) then top == q && dv == (if q == old(dv) then 0 else old(dv))
              else top == old(top) && dv == (if q + psize0 == old(dv) then q else old(dv))
    {
      hide Segment, TableOk, Mapped, Forward;
      var next, psize := q + psize0, psize0;
      NextChunk(p);
      NullIsNoChunk();
      if !heads[next].cinuse {
        if next == top {
          JoinTop(q, p, psize);
          if q == dv {
            dv, dvsize := 0, 0;
          }
          return;
        } else if next == dv {
          var dsize := dvsize + psize;
          Coalesce(q, p, q + dsize, dsize);
          dvsize := dsize;
          dv := q;
          return;
        } else {
          psize := SwallowNext(q, psize, p);
          if q == dv {
            dvsize := psize;
            return;
          }
        }
      } else {
        Coalesce(q, p, next, psize);
      }
      Bin(q, psize);
    }

    /** Where the free stretch begins once `p` is given back. */
    ghost function FreedFrom(p: Ptr): Ptr
      reads this
    {
      if p in heads && !heads[p].pinuse && p in feet then p - feet[p] else p
    }

    /** Gives back the chunk `p0` in use: the common body of dlfree and dispose_chunk. */
    method Dispose(p0: Ptr, psize0: nat)
      requires Valid() && p0 in InUse(Memory()) && psize0 == heads[p0].size
      modifies this, table
      ensures Valid() && InUse(Memory()) == old(InUse(Memory())) - {p0}
      ensures var q, next := old(FreedFrom(p0)), p0 + psize0;
        if next == old(top) then top == q && dv == (if q == old(dv) then 0 else old(dv))
        else top == old(top) && dv == (if next == old(dv) then q else old(dv))
    {
      hide Segment, TableOk, Mapped;
      var p, psize := p0, psize0;
      var next := p + psize;
      NextChunk(p);
      PreviousChunk(p);
      NullIsNoChunk();
      if !heads[p].pinuse {
        var prevsize := feet[p];
        var prev := p - prevsize;
        FreeChunk(prev);
        psize := psize + prevsize;
        p := prev;
        if p != dv {
          table.UnlinkChunk(p, prevsize, heads);
        } else if heads[next].pinuse && heads[next].cinuse {
          dvsize := psize;
          Coalesce(p, p0, next, psize);
          return;
        }
      }
      ConsolidateForward(p, psize, p0);
    }

    /** dlfree of a live block, or of null. */
    method FreeMem(mem: Ptr)
      requires Valid() && (mem == 0 || mem - 16 in InUse(Memory()))
      modifies this, table
      ensures Valid()
      ensures mem == 0 ==> unchanged(this, table)
      ensures mem != 0 ==> InUse(Memory()) == old(InUse(Memory())) - {mem - 16}
    {
      if mem != 0 {
        InUseChunk(mem - 16);
        Dispose(mem - 16, heads[mem - 16].size);
      }
    }

    // ---------- memalign

    /** A chunk in use becomes two chunks in use, marked in the order given. */
    method SplitUsed(p: Ptr, nb: nat, rsize: nat, lowerFirst: bool)
      requires Valid() && p in InUse(Memory()) && heads[p].size == nb + rsize
      requires Aligned(nb) && MIN_CHUNK_SIZE <= nb && MIN_CHUNK_SIZE <= rsize
      modifies this`heads, this`chunks
      ensures Valid() && InUse(Memory()) == old(InUse(Memory()))[p := nb][p + nb := rsize] && p + nb !in old(InUse(Memory()))
    {
      hide Segment, TableOk;
      ghost var s, h := Memory(), heads;
      InUseChunk(p);
      AlignedSum(p, nb);
      SplitInUse(s, base, top, topsize, p, nb, rsize);
      SplitInUseEffect(s, p, nb, rsize);
      SetInUseOrder(heads, p, nb, rsize);
      heads := if lowerFirst then SetInUse(heads, p, nb) else SetInUse(heads, p + nb, rsize);
      heads := if lowerFirst then SetInUse(heads, p + nb, rsize) else SetInUse(heads, p, nb);
      chunks := chunks + {p + nb};
      table.HeadsFrame(h, heads);
    }

    /** Gives back the part of the chunk `p` below an aligned spot, which becomes the block's chunk. */
    method TrimLeader(p: Ptr, alignment: nat, ghost k: nat, ghost nb: nat) returns (newp: Ptr)
      requires Valid() && p in InUse(Memory()) && heads[p].size >= nb + alignment + MIN_CHUNK_SIZE && nb >= MIN_CHUNK_SIZE
      requires 5 <= k <= 63 && alignment == Pow2(k) && !Multiple(p + 16, alignment)
      modifies this, table
      ensures Valid() && newp >= 0 && Multiple(newp + 16, alignment)
      ensures newp in InUse(Memory()) && heads[newp].size >= nb && newp !in old(InUse(Memory()))
      ensures InUse(Memory()) == (old(InUse(Memory())) - {p})[newp := heads[newp].size]
    {
      hide Segment, TableOk, Mapped, Multiple, Pow2;
      InUseChunk(p);
      AlignmentFacts(k);
      newp := AlignedSpot(p, alignment, k);
      var leadsize := newp - p;
      var newsize := heads[p].size - leadsize;
      ghost var u := InUse(Memory());
      SplitUsed(p, leadsize, newsize, false);
      Dispose(p, leadsize);
      assert u[p := leadsize][newp := newsize] - {p} == (u - {p})[newp := newsize];
    }

    /** Gives back spare room at the end of the chunk `p`. */
    method TrimEnd(p: Ptr, nb: nat)
      requires Valid() && p in InUse(Memory()) && Aligned(nb) && MIN_CHUNK_SIZE <= nb <= heads[p].size
      modifies this, table
      ensures Valid() && p in InUse(Memory()) && nb <= heads[p].size <= nb + MIN_CHUNK_SIZE
      ensures InUse(Memory()) == old(InUse(Memory()))[p := heads[p].size]
    {
      hide Segment, TableOk, Mapped;
      var size := heads[p].size;
      if size > nb + MIN_CHUNK_SIZE {
        var rsize := size - nb;
        ghost var u := InUse(Memory());
        SplitUsed(p, nb, rsize, true);
        Dispose(p + nb, rsize);
        assert u[p := nb][p + nb := rsize] - {p + nb} == u[p := nb];
      }
    }

    /** internal_memalign, up to the call for more memory. */
    method Memalign(alignment0: nat, bytes: nat) returns (ended: bool, mem: Ptr, ghost a: nat)
      requires Valid() && alignment0 < TWO_TO_THE_64 && bytes < TWO_TO_THE_64
      modifies this, table
      ensures Valid() && (ended <==> alignment0 <= TWO_TO_THE_63) && (!ended ==> mem == 0)
      ensures ended ==> a > 0 && exists k: nat :: Alignment(alignment0, a, k)
      ensures mem == 0 ==> unchanged(this, table)
      ensures ended && mem == 0 ==> var req := Padded(bytes) + a + MIN_CHUNK_SIZE - CHUNK_OVERHEAD;
        req >= MAX_REQUEST || (NothingFits(Memory(), Padded(req)) && topsize <= Padded(req))
      ensures mem != 0 ==> mem > 0 && Multiple(mem, a) && mem - 16 !in old(InUse(Memory())) && mem - 16 in InUse(Memory())
      ensures mem != 0 ==> Padded(bytes) <= heads[mem - 16].size <= Padded(bytes) + MIN_CHUNK_SIZE
      ensures mem != 0 ==> InUse(Memory()) == old(InUse(Memory()))[mem - 16 := heads[mem - 16].size]
      ensures mem != 0 ==> forall n: nat :: LeastChunk(bytes, n) ==> n <= heads[mem - 16].size <= n + 32
      ensures ended && mem == 0 ==> forall n: nat :: LeastChunk(bytes, n) ==>
        n + a + 24 >= 0xFFFF_FFFF_FFFF_FF80 || (NothingFits(Memory(), n + a + 32) && topsize <= n + a + 32)
    {
      hide Segment, TableOk, Mapped, Padded, Chosen, NothingFits, Multiple, Pow2, And, LeastChunk;
      PaddedLeast(bytes);
      ghost var u := InUse(Memory());
      var alignment;
      ghost var k;
      ended, alignment, k := RoundAlignment(alignment0);
      a := alignment;
      if !ended {
        return false, 0, a;
      }
      AlignmentFacts(k);
      PaddedRange(bytes);
      PaddedMore(bytes, alignment);
      if bytes >= MAX_REQUEST - alignment {
        return true, 0, a;
      }
      var nb := Padded(bytes);
      var req := nb + alignment + MIN_CHUNK_SIZE - CHUNK_OVERHEAD;
      PaddedRange(req);
      mem := Malloc(req);
      if mem != 0 {
        var p := mem - 16;
        InUseChunk(p);
        ghost var first := InUse(Memory());
        MisalignedTest(mem, alignment, k);
        if And(mem, alignment - 1) != 0 {
          p := TrimLeader(p, alignment, k, nb);
          InUseChunk(p);
          assert (first - {mem - 16}) == u;
          assert p !in first && p !in u;
        }
        TrimEnd(p, nb);
        mem := p + 16;
      }
    }

    // ---------- programs using the heap

    /** A program may write anything between the head of its chunk and the head of the next. */
    method WriteBlock(p: Ptr, h: Heads, f: Feet, cells: Links.Memory)
      requires Valid() && p in InUse(Memory())
      modifies this, table
      ensures Valid() && InUse(Memory()) == old(InUse(Memory())) && Free(Memory()) == old(Free(Memory()))
      ensures var n := p + old(heads)[p].size;
        && heads.Keys == old(heads).Keys && feet.Keys == old(feet).Keys
        && (forall a :: a in heads ==> heads[a] == if p < a < n && a in h then h[a] else old(heads)[a])
        && (forall a :: a in feet ==> feet[a] == if p < a <= n && a in f then f[a] else old(feet)[a])
        && heads == Overlaid(old(heads), h, p + 1, n) && feet == Overlaid(old(feet), f, p + 1, n + 1)
        && (forall a :: a in table.links && p <= a < n && a in cells ==> table.links[a] == cells[a])
    {
      hide Segment, TableOk, Mapped, Victim, Aligned;
      ghost var s := Memory();
      InUseChunk(p);
      var n := p + heads[p].size;
      FreeNotInside(s, p);
      table.Overwrite(p, n, cells, heads);
      heads := Overlaid(heads, h, p + 1, n);
      feet := Overlaid(feet, f, p + 1, n + 1);
      BlockWritten(s, heads, feet, p);
      table.HeadsFrame(s.heads, heads);
    }

    lemma {:induction false} BlockWritten(s: Tags, h': Heads, f': Feet, p: Ptr)
      requires Mapped(s, base, end, top, topsize, table.links.Keys) && Victim(s, dv, dvsize) && p in InUse(s)
      requires h'.Keys == s.heads.Keys && f'.Keys == s.feet.Keys
      requires forall a :: a in s.heads && !(p < a < p + s.heads[p].size) ==> h'[a] == s.heads[a]
      requires forall a :: a in s.feet && !(p < a <= p + s.heads[p].size) ==> f'[a] == s.feet[a]
      ensures var s' := Tags(h', f', s.chunks);
        && Mapped(s', base, end, top, topsize, table.links.Keys) && Victim(s', dv, dvsize)
        && InUse(s') == InUse(s) && Free(s') == Free(s) && forall x :: x in Free(s) ==> x in h' && h'[x].size == s.heads[x].size
    {
      hide Segment;
      PayloadWritten(s, Tags(h', f', s.chunks), base, top, topsize, p);
      FreeNotInside(s, p);
    }

    lemma {:induction false} FreeNotInside(s: Tags, p: Ptr)
      requires Mapped(s, base, end, top, topsize, table.links.Keys) && p in InUse(s)
      ensures forall x :: x in Free(s) ==> x < p || p + s.heads[p].size <= x
    {
      Facts(s, base, top, p);
    }

    /** Blocks in use do not overlap. */
    lemma {:induction false} BlocksApart(p: Ptr, q: Ptr)
      requires Valid() && p in InUse(Memory()) && q in InUse(Memory()) && p < q
      ensures p + InUse(Memory())[p] <= q
    {
      Facts(Memory(), base, top, p);
      InUseChunk(q);
    }

    /** What traverse_and_check asserts of the chunk `q` after `lastq`. */
    ghost predicate Checked(q: Ptr, lastq: Ptr)
      reads this, table
    {
      && q in heads && q + heads[q].size in heads
      && if heads[q].cinuse then
           q !in table.members && heads[q + heads[q].size].pinuse
         else
           && (q == dv || q in table.members) && (lastq != 0 ==> lastq in heads && heads[lastq].cinuse)
           && heads[q].pinuse && !heads[q + heads[q].size].pinuse
           && q + heads[q].size in feet && feet[q + heads[q].size] == heads[q].size
    }

    lemma {:induction false} ChunkChecked(q: Ptr, lastq: Ptr)
      requires Valid() && q in chunks
      requires lastq == 0 || EndsAt(Memory(), base, lastq, q)
      ensures Checked(q, lastq) && base <= q && q + heads[q].size <= top
      ensures q + heads[q].size in chunks || q + heads[q].size == top
    {
      Facts(Memory(), base, top, q);
      FreeIsPreceded(Memory(), base, top, topsize, q);
      if lastq != 0 { Facts(Memory(), base, top, lastq); }
    }

    /** The chunk at place `i` passes the checks after the one before it and ends where the next starts. */
    ghost predicate MetAt(met: seq<Ptr>, i: int, q: Ptr)
      requires 0 <= i < |met|
      reads this, table
    {
      && met[i] in chunks && met[i] in heads && Checked(met[i], if i == 0 then 0 else met[i - 1])
      && met[i] + heads[met[i]].size == if i + 1 < |met| then met[i + 1] else q
    }

    /** The chunks met so far, in order and without a gap from the base up to `q`, each passing the checks. */
    ghost predicate Walked(met: seq<Ptr>, q: Ptr)
      reads this, table
    {
      && (forall i :: 0 <= i < |met| ==> MetAt(met, i, q))
      && (if met == [] then q == base else met[0] == base)
      && (forall c :: c in chunks && c < q ==> c in met)
    }

    /** traverse_and_check: following next_chunk from the base meets every chunk, each sound, and ends at top. */
    method Traverse() returns (sum: nat, ghost met: seq<Ptr>)
      requires Valid()
      ensures sum == end - base
      ensures Walked(met, top) && forall c :: c in chunks <==> c in met
    {
      hide Segment, TableOk, Mapped, Victim, Checked, Preceded, Walked;
      sum, met := topsize, [];
      var q, lastq := base, 0;
      AboveChunks(0);
      NoneMet();
      while q != top
        invariant base <= q <= top && sum == topsize + (q - base) && (q in chunks || q == top)
        invariant lastq == (if met == [] then 0 else met[|met| - 1]) && Walked(met, q)
        invariant lastq == 0 || EndsAt(Memory(), base, lastq, q)
        decreases top - q
      {
        ChunkChecked(q, lastq);
        SizePositive(q);
        WalkOn(met, lastq, q);
        sum := sum + heads[q].size;
        lastq, met := q, met + [q];
        q := q + heads[q].size;
      }
      AllMet(met);
    }

    lemma {:induction false} NoneMet()
      requires Valid()
      ensures Walked([], base)
    {
      hide Checked;
    }

    lemma {:induction false} AllMet(met: seq<Ptr>)
      requires Valid() && Walked(met, top)
      ensures forall c :: c in chunks <==> c in met
    {
      hide Checked;
      forall c | c in met ensures c in chunks {
        var i :| 0 <= i < |met| && met[i] == c;
        assert MetAt(met, i, top);
      }
    }

    lemma {:induction false} WalkOn(met: seq<Ptr>, lastq: Ptr, q: Ptr)
      requires Valid() && Walked(met, q) && q in chunks && lastq == (if met == [] then 0 else met[|met| - 1]) && Checked(q, lastq)
      ensures q in heads && Walked(met + [q], q + heads[q].size)
    {
      hide Segment, TableOk, Mapped, Victim, Preceded, Checked;
      SizePositive(q);
      NoneInside(q);
      var m, n := met + [q], q + heads[q].size;
      forall i | 0 <= i < |m| ensures MetAt(m, i, n) {
        if i < |met| { assert MetAt(met, i, q); }
      }
      forall c | c in chunks && c < n ensures c in m {
        if c >= q { assert c == q == m[|met|]; }
      }
    }

    lemma {:induction false} NoneInside(q: Ptr)
      requires Valid() && q in chunks && q in heads
      ensures forall c :: c in chunks ==> c <= q || q + heads[q].size <= c
    {
      Facts(Memory(), base, top, q);
    }

    lemma {:induction false} SizePositive(q: Ptr)
      requires Valid() && q in chunks
      ensures q in heads && heads[q].size >= MIN_CHUNK_SIZE
    {
      Facts(Memory(), base, top, q);
    }
  }

  /** What a program asks of the heap. */
  datatype Request =
    | Allocate(bytes: nat)
    | AllocateAligned(alignment: nat, bytes: nat)
    | Release(mem: Ptr)
    | Write(mem: Ptr, heads: Heads, feet: Feet, cells: Links.Memory)

  /** What was asked of a live block. */
  datatype Block = Block(bytes: nat, alignment: nat)

  /** On a multiple of a power of two that is at least the alignment asked for. */
  ghost predicate AlignedFor(m: Ptr, alignment: nat) { m >= 0 && exists k: nat :: alignment <= Pow2(k) && Multiple(m, Pow2(k)) }

  /** The live blocks are the chunks in use, each big enough and aligned as asked. */
  ghost predicate Serves(u: map<Ptr, nat>, live: map<Ptr, Block>) {
    && (forall m :: m in live ==> m - 16 in u && live[m].bytes + 8 <= u[m - 16] && AlignedFor(m, live[m].alignment))
    && (forall p :: p in u ==> p + 16 in live)
  }

  ghost predicate Disjoint(live: map<Ptr, Block>) {
    forall m, n :: m in live && n in live && m < n ==> m + live[m].bytes + 8 <= n
  }

  lemma {:induction false} ServesMore(u: map<Ptr, nat>, live: map<Ptr, Block>, mem: Ptr, b: Block, size: nat)
    requires Serves(u, live) && b.bytes + CHUNK_OVERHEAD <= size && AlignedFor(mem, b.alignment)
    ensures Serves(u[mem - 16 := size], live[mem := b])
  {
    hide AlignedFor;
  }

  lemma {:induction false} ServesLess(u: map<Ptr, nat>, live: map<Ptr, Block>, mem: Ptr)
    requires Serves(u, live)
    ensures Serves(u - {mem - 16}, live - {mem})
  {
    hide AlignedFor;
  }

  lemma {:induction false} PlacedAtSixteen(m: Ptr, alignment: nat)
    requires m >= 0 && m % 16 == 0 && alignment <= MALLOC_ALIGNMENT
    ensures AlignedFor(m, alignment)
  {
    assert Pow2(4) == 16;
    assert Multiple(m, Pow2(4));
  }

  lemma {:induction false} PlacedAt(m: Ptr, alignment: nat, a: nat)
    requires m >= 0 && a > 0 && Multiple(m, a) && exists k: nat :: Alignment(alignment, a, k)
    ensures AlignedFor(m, alignment)
  {
    hide Pow2, Multiple;
    var k: nat :| Alignment(alignment, a, k);
    assert Multiple(m, Pow2(k));
  }

  /** A block asked for at a power of two is on a multiple of it. */
  lemma {:induction false} OnItsPower(m: Ptr, j: nat)
    requires AlignedFor(m, Pow2(j))
    ensures Multiple(m, Pow2(j))
  {
    hide Pow2;
    var k: nat :| Pow2(j) <= Pow2(k) && Multiple(m, Pow2(k));
    if k < j { PowBelow(k, j); }
    PowAdd(j, k - j);
    Quotient(m, Pow2(k));
    var q := m / Pow2(k);
    assert m == Pow2(j) * (Pow2(k - j) * q) by { assert m == Pow2(k) * q; }
    MultipleOf(m, Pow2(j), Pow2(k - j) * q);
  }

  lemma {:induction false} LiveDisjoint(a: Allocator, live: map<Ptr, Block>)
    requires a.Valid() && Serves(InUse(a.Memory()), live)
    ensures Disjoint(live) && forall m :: m in live ==> m % 16 == 0
  {
    hide TableOk, Segment, Mapped, Victim, AlignedFor;
    forall m, n | m in live && n in live && m < n ensures m + live[m].bytes + 8 <= n {
      a.BlocksApart(m - 16, n - 16);
    }
    forall m | m in live ensures m % 16 == 0 {
      a.InUseChunk(m - 16);
    }
  }

  /** The requests that never come back. */
  predicate Endless(r: Request) { r.AllocateAligned? && r.alignment > TWO_TO_THE_63 }

  /** One request, refused when the block named is not live; `ended` is false when it never comes back. */
  method Serve(a: Allocator, r: Request, live: map<Ptr, Block>) returns (ended: bool, live': map<Ptr, Block>)
    requires a.Valid() && Serves(InUse(a.Memory()), live)
    requires (r.Allocate? || r.AllocateAligned?) ==> r.bytes < TWO_TO_THE_64
    requires r.AllocateAligned? ==> r.alignment < TWO_TO_THE_64
    modifies a, a.table
    ensures a.Valid() && Serves(InUse(a.Memory()), live')
    ensures ended <==> !Endless(r)
    ensures r.Write? || !ended ==> live' == live
    ensures r.Release? ==> live' == live - {r.mem}
    ensures r.Allocate? ==> live' == live || exists mem :: mem !in live && live' == live[mem := Block(r.bytes, MALLOC_ALIGNMENT)]
    ensures r.AllocateAligned? ==> live' == live || exists mem :: mem !in live && live' == live[mem := Block(r.bytes, r.alignment)]
  {
    hide TableOk, Segment, Mapped, Victim, Padded, Chosen, NothingFits, Multiple, Alignment, Serves, AlignedFor;
    ended, live' := true, live;
    match r {
      case Allocate(bytes) =>
        live' := ServePlain(a, Block(bytes, MALLOC_ALIGNMENT), live);
      case AllocateAligned(alignment, bytes) =>
        if alignment <= MALLOC_ALIGNMENT {
          live' := ServePlain(a, Block(bytes, alignment), live);
        } else {
          ended, live' := ServeAligned(a, Block(bytes, alignment), live);
        }
      case Release(mem) =>
        if mem in live {
          ghost var u := InUse(a.Memory());
          LiveBlock(u, live, mem);
          a.InUseChunk(mem - 16);
          a.FreeMem(mem);
          ServesLess(u, live, mem);
          live' := live - {mem};
        }
      case Write(mem, heads, feet, cells) =>
        if mem in live {
          LiveBlock(InUse(a.Memory()), live, mem);
          a.WriteBlock(mem - 16, heads, feet, cells);
        }
    }
  }

  method ServePlain(a: Allocator, b: Block, live: map<Ptr, Block>) returns (live': map<Ptr, Block>)
    requires a.Valid() && Serves(InUse(a.Memory()), live) && b.bytes < TWO_TO_THE_64 && b.alignment <= MALLOC_ALIGNMENT
    modifies a, a.table
    ensures a.Valid() && Serves(InUse(a.Memory()), live')
    ensures live' == live || exists mem :: mem !in live && live' == live[mem := b]
  {
    hide TableOk, Segment, Mapped, Victim, Padded, Chosen, NothingFits, Multiple, Serves, AlignedFor;
    live' := live;
    ghost var u := InUse(a.Memory());
    PaddedRange(b.bytes);
    var mem := a.Malloc(b.bytes);
    if mem != 0 {
      LiveBlock(u, live, mem);
      a.InUseChunk(mem - 16);
      PlacedAtSixteen(mem, b.alignment);
      ServesMore(u, live, mem, b, InUse(a.Memory())[mem - 16]);
      live' := live[mem := b];
    }
  }

  method ServeAligned(a: Allocator, b: Block, live: map<Ptr, Block>) returns (ended: bool, live': map<Ptr, Block>)
    requires a.Valid() && Serves(InUse(a.Memory()), live) && b.bytes < TWO_TO_THE_64 && b.alignment < TWO_TO_THE_64
    modifies a, a.table
    ensures a.Valid() && Serves(InUse(a.Memory()), live')
    ensures ended <==> b.alignment <= TWO_TO_THE_63
    ensures live' == live || (ended && exists mem :: mem !in live && live' == live[mem := b])
  {
    hide TableOk, Segment, Mapped, Victim, Padded, Chosen, NothingFits, Multiple, Alignment, Serves, AlignedFor;
    live' := live;
    ghost var u := InUse(a.Memory());
    PaddedRange(b.bytes);
    var mem;
    ghost var power;
    ended, mem, power := a.Memalign(b.alignment, b.bytes);
    if mem != 0 {
      LiveBlock(u, live, mem);
      PlacedAt(mem, b.alignment, power);
      ServesMore(u, live, mem, b, a.heads[mem - 16].size);
      live' := live[mem := b];
    }
  }

  lemma {:induction false} LiveBlock(u: map<Ptr, nat>, live: map<Ptr, Block>, mem: Ptr)
    requires Serves(u, live)
    ensures mem in live <==> mem - 16 in u
  {
    hide AlignedFor;
    if mem - 16 in u { assert mem - 16 + 16 == mem; }
  }

  /**
   Any program: every run of requests, up to the first that never comes back, keeps the heap sound and
   the live blocks apart, aligned as each was asked for and big enough.
   */
  method RunProgram(a: Allocator, requests: seq<Request>) returns (live: map<Ptr, Block>, served: nat)
    requires a.Valid() && InUse(a.Memory()) == map[]
    requires forall r :: r in requests && (r.Allocate? || r.AllocateAligned?) ==> r.bytes < TWO_TO_THE_64
    requires forall r :: r in requests && r.AllocateAligned? ==> r.alignment < TWO_TO_THE_64
    modifies a, a.table
    ensures a.Valid() && Serves(InUse(a.Memory()), live) && Disjoint(live)
    ensures forall m :: m in live ==> m % 16 == 0
    ensures served <= |requests| && (forall i :: 0 <= i < served ==> !Endless(requests[i])) && (served < |requests| ==> Endless(requests[served]))
  {
    hide TableOk, Segment, Mapped, Victim, AlignedFor;
    live, served := map[], 0;
    var ended := true;
    while served < |requests| && ended
      invariant served <= |requests| && a.Valid() && Serves(InUse(a.Memory()), live)
      invariant forall i :: 0 <= i < served ==> !Endless(requests[i])
      invariant !ended ==> served < |requests| && Endless(requests[served])
      decreases |requests| - served, ended
    {
      assert requests[served] in requests;
      ended, live := Serve(a, requests[served], live);
      if ended { served := served + 1; }
    }
    LiveDisjoint(a, live);
  }
}
