/**
 Boundary tags: the chunks of a segment tile it, each head word records its chunk's size and in-use
 bits, and a free chunk's size is repeated at its end.
 */
module Tiling {
  import opened Trie
  import opened Links

  const MIN_CHUNK_SIZE: nat := 32

  /** The prev_foot fields, by chunk address. */
  type Feet = map<Ptr, nat>

  /** The tags of a segment's memory, and the addresses that are chunks. */
  datatype Tags = Tags(heads: Heads, feet: Feet, chunks: set<Ptr>)

  /** Sizes and addresses are multiples of MALLOC_ALIGNMENT. */
  predicate Aligned(n: int) { n % 16 == 0 }

  lemma {:induction false} AlignedSum(a: int, b: int)
    requires Aligned(a) && Aligned(b)
    ensures Aligned(a + b) && Aligned(a - b)
  {}

  /** Where the chunk at `a` ends. */
  function End(s: Tags, a: Ptr): Ptr
    requires a in s.heads
  {
    a + s.heads[a].size
  }

  /** The chunk at `a` is aligned, and a chunk or `hi` follows it immediately. */
  ghost predicate Placed(s: Tags, hi: Ptr, a: Ptr) {
    && a in s.heads && Aligned(a) && Aligned(s.heads[a].size) && s.heads[a].size >= MIN_CHUNK_SIZE
    && End(s, a) <= hi && End(s, a) in s.heads && (End(s, a) in s.chunks || End(s, a) == hi)
    && forall b :: b in s.chunks && a < b < hi ==> End(s, a) <= b
  }

  /** In-use bits and foot at the end of a chunk; a free chunk is followed by one in use. */
  ghost predicate Tagged(s: Tags, a: Ptr) {
    a in s.heads && End(s, a) in s.heads && s.heads[End(s, a)].pinuse == s.heads[a].cinuse &&
    (!s.heads[a].cinuse ==>
       s.heads[End(s, a)].cinuse && End(s, a) in s.feet && s.feet[End(s, a)] == s.heads[a].size)
  }

  ghost predicate EndsAt(s: Tags, lo: Ptr, b: Ptr, a: Ptr) {
    b in s.chunks && lo <= b < a && b in s.heads && End(s, b) == a
  }

  /** A chunk ends where `a` starts. */
  ghost predicate Preceded(s: Tags, lo: Ptr, a: Ptr) {
    exists b :: EndsAt(s, lo, b, a)
  }

  ghost predicate AllPlaced(s: Tags, lo: Ptr, hi: Ptr) {
    forall a {:trigger Placed(s, hi, a)} :: a in s.chunks && lo <= a < hi ==> Placed(s, hi, a)
  }

  ghost predicate AllTagged(s: Tags, lo: Ptr, hi: Ptr) {
    forall a {:trigger Tagged(s, a)} :: a in s.chunks && lo <= a < hi ==> Tagged(s, a)
  }

  ghost predicate AllPreceded(s: Tags, lo: Ptr, hi: Ptr) {
    (lo < hi ==> Preceded(s, lo, hi)) && forall a {:trigger Preceded(s, lo, a)} :: a in s.chunks && lo < a < hi ==> Preceded(s, lo, a)
  }

  /** The chunks in [lo, hi) tile it and their tags agree. */
  ghost predicate Region(s: Tags, lo: Ptr, hi: Ptr) {
    && lo <= hi && lo in s.heads && hi in s.heads && (lo in s.chunks || lo == hi)
    && AllPlaced(s, lo, hi) && AllTagged(s, lo, hi) && AllPreceded(s, lo, hi)
  }

  lemma {:induction false} Facts(s: Tags, lo: Ptr, hi: Ptr, a: Ptr)
    requires Region(s, lo, hi) && a in s.chunks && lo <= a < hi
    ensures Placed(s, hi, a) && Tagged(s, a) && (a == lo || Preceded(s, lo, a))
  {}

  lemma {:induction false} Cut(s: Tags, lo: Ptr, mid: Ptr, hi: Ptr)
    requires Region(s, lo, hi) && mid in s.chunks && lo <= mid < hi
    ensures Region(s, lo, mid) && Region(s, mid, hi)
  {
    forall a | a in s.chunks && lo <= a < mid ensures Placed(s, mid, a) && Tagged(s, a) { Facts(s, lo, hi, a); }
    forall a | (a in s.chunks && mid < a < hi) || a == hi ensures Preceded(s, mid, a) {
      assert Preceded(s, lo, a);
      var b :| EndsAt(s, lo, b, a);
      Facts(s, lo, hi, b);
      assert EndsAt(s, mid, b, a);
    }
    forall a | (a in s.chunks && lo < a < mid) || (a == mid && lo < mid) ensures Preceded(s, lo, a) {
      Facts(s, lo, hi, a);
    }
    Facts(s, lo, hi, mid);
  }

  lemma {:induction false} Join(s: Tags, lo: Ptr, mid: Ptr, hi: Ptr)
    requires Region(s, lo, mid) && Region(s, mid, hi)
    ensures Region(s, lo, hi)
  {
    hide Placed, Tagged, Preceded;
    forall a | a in s.chunks && lo <= a < hi ensures Placed(s, hi, a) && Tagged(s, a) {
      if a < mid { JoinedBelow(s, lo, mid, hi, a); } else { Facts(s, mid, hi, a); }
    }
    forall a | (a in s.chunks && lo < a < hi) || (a == hi && lo < hi) ensures Preceded(s, lo, a) {
      if a <= mid { assert Preceded(s, lo, a); } else { assert Preceded(s, mid, a); PrecededFrom(s, lo, mid, a); }
    }
  }

  lemma {:induction false} JoinedBelow(s: Tags, lo: Ptr, mid: Ptr, hi: Ptr, a: Ptr)
    requires Region(s, lo, mid) && Region(s, mid, hi) && a in s.chunks && lo <= a < mid
    ensures Placed(s, hi, a) && Tagged(s, a)
  {
    Facts(s, lo, mid, a);
  }

  lemma {:induction false} PrecededFrom(s: Tags, lo: Ptr, mid: Ptr, a: Ptr)
    requires Preceded(s, mid, a) && lo <= mid
    ensures Preceded(s, lo, a)
  {
    var b :| EndsAt(s, mid, b, a);
    assert EndsAt(s, lo, b, a);
  }

  /** The tags of [lo, hi), and what they need to know of `hi`, are the same in both. */
  ghost predicate Same(s: Tags, s': Tags, lo: Ptr, hi: Ptr) {
    && (forall a :: lo <= a < hi ==> (a in s'.chunks <==> a in s.chunks))
    && (forall a :: a in s.chunks && lo < a < hi && a in s.heads ==> a in s'.heads && s'.heads[a] == s.heads[a])
    && (forall a :: a in s.chunks && lo < a < hi && a in s.feet ==> a in s'.feet && s'.feet[a] == s.feet[a])
    && lo in s.heads && lo in s'.heads && hi in s.heads && hi in s'.heads
    && (lo < hi ==> s'.heads[lo].size == s.heads[lo].size && s'.heads[lo].cinuse == s.heads[lo].cinuse)
    && (lo < hi ==> s'.heads[hi].pinuse == s.heads[hi].pinuse)
    && (lo < hi && !s.heads[hi].pinuse ==> s'.heads[hi].cinuse && (hi in s.feet ==> hi in s'.feet && s'.feet[hi] == s.feet[hi]))
  }

  lemma {:induction false} SameEnd(s: Tags, s': Tags, lo: Ptr, hi: Ptr, a: Ptr)
    requires Region(s, lo, hi) && Same(s, s', lo, hi) && a in s.chunks && lo <= a < hi
    ensures a in s.heads && a in s'.heads && s'.heads[a].size == s.heads[a].size && s'.heads[a].cinuse == s.heads[a].cinuse
    ensures Placed(s', hi, a)
  {
    hide AllTagged, AllPreceded;
    assert Placed(s, hi, a);
    hide AllPlaced;
    assert End(s, a) in s'.heads by { if End(s, a) in s.chunks && End(s, a) < hi {} }
  }

  lemma {:induction false} SameTag(s: Tags, s': Tags, lo: Ptr, hi: Ptr, a: Ptr)
    requires Region(s, lo, hi) && Same(s, s', lo, hi) && a in s.chunks && lo <= a < hi
    ensures Tagged(s', a)
  {
    SameEnd(s, s', lo, hi, a);
    Facts(s, lo, hi, a);
    var e := End(s, a);
    assert e <= hi && e in s'.heads;
  }

  lemma {:induction false} Frame(s: Tags, s': Tags, lo: Ptr, hi: Ptr)
    requires Region(s, lo, hi) && Same(s, s', lo, hi)
    ensures Region(s', lo, hi)
  {
    forall a | a in s'.chunks && lo <= a < hi ensures Placed(s', hi, a) && Tagged(s', a) {
      SameEnd(s, s', lo, hi, a);
      SameTag(s, s', lo, hi, a);
    }
    forall a | (a in s'.chunks && lo < a < hi) || (a == hi && lo < hi) ensures Preceded(s', lo, a) {
      assert Preceded(s, lo, a);
      var b :| EndsAt(s, lo, b, a);
      SameEnd(s, s', lo, hi, b);
      assert EndsAt(s', lo, b, a);
    }
  }

  /** One chunk tiles its own extent. */
  lemma {:induction false} Single(s: Tags, a: Ptr, hi: Ptr)
    requires a in s.chunks && a in s.heads && Aligned(a) && Aligned(s.heads[a].size) && s.heads[a].size >= MIN_CHUNK_SIZE
    requires hi == End(s, a) && Tagged(s, a)
    requires forall b :: b in s.chunks && a < b ==> hi <= b
    ensures Region(s, a, hi)
  {
    assert EndsAt(s, a, a, hi);
  }

  /** The segment invariant: `top` is the free space above the last chunk. */
  ghost predicate Segment(s: Tags, base: Ptr, top: Ptr, topsize: nat) {
    && 0 < base && Aligned(base) && Aligned(top) && Aligned(topsize) && topsize > 0
    && Region(s, base, top)
    && s.heads[top] == Head(topsize, true, false) && s.heads[base].pinuse
    && forall a :: a in s.chunks ==> base <= a < top
  }

  /** A free chunk has its pinuse bit set; a clear one leads back, through the foot, to a free chunk. */
  lemma {:induction false} PinuseMeaning(s: Tags, base: Ptr, top: Ptr, topsize: nat, a: Ptr)
    requires Segment(s, base, top, topsize) && a in s.chunks
    ensures a in s.heads && (!s.heads[a].cinuse ==> s.heads[a].pinuse)
    ensures !s.heads[a].pinuse ==> FreeBefore(s, a)
  {
    FreeIsPreceded(s, base, top, topsize, a);
    if !s.heads[a].pinuse {
      Facts(s, base, top, a);
      var b :| EndsAt(s, base, b, a);
      Facts(s, base, top, b);
      FreeIsPreceded(s, base, top, topsize, b);
    }
  }

  ghost predicate FreeBefore(s: Tags, a: Ptr) {
    a in s.feet &&
    var b := a - s.feet[a];
    b in s.chunks && b in s.heads && b < a && s.heads[b].size == s.feet[a] && !s.heads[b].cinuse && s.heads[b].pinuse
  }

  lemma {:induction false} FreeIsPreceded(s: Tags, base: Ptr, top: Ptr, topsize: nat, a: Ptr)
    requires Segment(s, base, top, topsize) && a in s.chunks
    ensures a in s.heads && (!s.heads[a].cinuse ==> s.heads[a].pinuse)
  {
    Facts(s, base, top, a);
    if a != base {
      var b :| EndsAt(s, base, b, a);
      Facts(s, base, top, b);
    }
  }

  /** Replacing the chunks of [q, n) by others that tile it keeps the region. */
  lemma {:induction false} Rewrite(s: Tags, s': Tags, base: Ptr, q: Ptr, n: Ptr, top: Ptr)
    requires Region(s, base, top) && q in s.chunks && base <= q < n && (n == top || (n in s.chunks && n < top))
    requires Region(s', q, n) && Same(s, s', base, q) && Same(s, s', n, top)
    ensures Region(s', base, top)
  {
    Cut(s, base, q, top);
    if n < top { Cut(s, base, n, top); }
    Frame(s, s', base, q);
    Frame(s, s', n, top);
    Join(s', base, q, n);
    Join(s', base, n, top);
  }

  /** The surroundings of a free chunk. */
  lemma {:induction false} FreeFacts(s: Tags, base: Ptr, top: Ptr, topsize: nat, p: Ptr)
    requires Segment(s, base, top, topsize) && p in s.chunks && p in s.heads && !s.heads[p].cinuse
    ensures Placed(s, top, p) && s.heads[p].pinuse && base <= p
    ensures End(s, p) in s.chunks && End(s, p) < top && End(s, p) in s.heads && s.heads[End(s, p)].cinuse
    ensures !s.heads[End(s, p)].pinuse
  {
    Facts(s, base, top, p);
    FreeIsPreceded(s, base, top, topsize, p);
  }

  // ---------- allocation

  /** set_inuse_and_pinuse */
  function MarkInUse(h: Heads, p: Ptr, size: nat): Heads
    requires p + size in h && size > 0
  {
    h[p := Head(size, true, true)][p + size := h[p + size].(pinuse := true)]
  }

  /** A free chunk becomes an allocated one of the same size. */
  lemma {:induction false} Taken(s: Tags, base: Ptr, top: Ptr, topsize: nat, p: Ptr)
    requires Segment(s, base, top, topsize) && p in s.chunks && p in s.heads && !s.heads[p].cinuse
    ensures End(s, p) in s.heads && s.heads[p].size > 0
    ensures Segment(s.(heads := MarkInUse(s.heads, p, s.heads[p].size)), base, top, topsize)
  {
    FreeFacts(s, base, top, topsize, p);
    var s' := s.(heads := MarkInUse(s.heads, p, s.heads[p].size));
    Single(s', p, End(s, p));
    Rewrite(s, s', base, p, End(s, p), top);
  }

  /** Head words after splitting `p`: the lower `nb` bytes in use, the rest free. */
  function SplitHeads(h: Heads, p: Ptr, nb: nat, rsize: nat): Heads {
    h[p := Head(nb, true, true)][p + nb := Head(rsize, true, false)]
  }

  /** A free chunk splits into an allocated one and a free remainder. */
  lemma {:induction false} Split(s: Tags, base: Ptr, top: Ptr, topsize: nat, p: Ptr, nb: nat, rsize: nat)
    requires Segment(s, base, top, topsize) && p in s.chunks && p in s.heads && !s.heads[p].cinuse
    requires Aligned(nb) && MIN_CHUNK_SIZE <= nb && MIN_CHUNK_SIZE <= rsize && s.heads[p].size == nb + rsize
    ensures p + nb !in s.chunks && base <= p + nb < top
    ensures Segment(Tags(SplitHeads(s.heads, p, nb, rsize), s.feet[End(s, p) := rsize], s.chunks + {p + nb}), base, top, topsize)
  {
    FreeFacts(s, base, top, topsize, p);
    var r, n := p + nb, End(s, p);
    var s' := Tags(SplitHeads(s.heads, p, nb, rsize), s.feet[n := rsize], s.chunks + {r});
    AlignedSum(p, nb);
    AlignedSum(s.heads[p].size, nb);
    Single(s', p, r);
    Single(s', r, n);
    Join(s', p, r, n);
    Rewrite(s, s', base, p, n, top);
  }

  /** The lower part of top becomes an allocated chunk. */
  lemma {:induction false} SplitTop(s: Tags, base: Ptr, top: Ptr, topsize: nat, nb: nat)
    requires Segment(s, base, top, topsize) && Aligned(nb) && MIN_CHUNK_SIZE <= nb < topsize
    ensures top !in s.chunks
    ensures Segment(Tags(SplitHeads(s.heads, top, nb, topsize - nb), s.feet, s.chunks + {top}), base, top + nb, topsize - nb)
  {
    var s' := Tags(SplitHeads(s.heads, top, nb, topsize - nb), s.feet, s.chunks + {top});
    AlignedSum(top, nb);
    AlignedSum(topsize, nb);
    Single(s', top, top + nb);
    Frame(s, s', base, top);
    Join(s', base, top, top + nb);
  }

  /** set_inuse: the pinuse bit is kept. */
  function SetInUse(h: Heads, p: Ptr, size: nat): Heads
    requires p in h && p + size in h && size > 0
  {
    h[p := Head(size, h[p].pinuse, true)][p + size := h[p + size].(pinuse := true)]
  }

  /** The two halves of a chunk may be marked in either order. */
  lemma {:induction false} SetInUseOrder(h: Heads, p: Ptr, nb: nat, rsize: nat)
    requires p in h && p + nb in h && p + nb + rsize in h && nb > 0 && rsize > 0
    ensures SetInUse(SetInUse(h, p, nb), p + nb, rsize) == SetInUse(SetInUse(h, p + nb, rsize), p, nb)
  {}

  lemma {:induction false} EndsKnown(s: Tags, lo: Ptr, hi: Ptr)
    requires Region(s, lo, hi)
    ensures lo in s.heads && hi in s.heads
  {}

  lemma {:induction false} TwoMarked(h: Heads, p: Ptr, nb: nat, rsize: nat)
    requires p in h && p + nb in h && p + nb + rsize in h && nb > 0 && rsize > 0
    ensures var r, n, h' := p + nb, p + nb + rsize, SetInUse(SetInUse(h, p + nb, rsize), p, nb);
      && SetInUse(h, r, rsize).Keys == h.Keys && h'.Keys == h.Keys && h'[p] == Head(nb, h[p].pinuse, true) && h'[r] == Head(rsize, true, true) && h'[n] == h[n].(pinuse := true)
      && forall a :: a in h && a != p && a != r && a != n ==> h'[a] == h[a]
  {}

  /** An allocated chunk splits into two allocated ones. */
  lemma {:induction false} SplitInUse(s: Tags, base: Ptr, top: Ptr, topsize: nat, p: Ptr, nb: nat, rsize: nat)
    requires Segment(s, base, top, topsize) && p in s.chunks && p in s.heads && s.heads[p].cinuse && p + nb in s.heads
    requires Aligned(nb) && MIN_CHUNK_SIZE <= nb && MIN_CHUNK_SIZE <= rsize && s.heads[p].size == nb + rsize
    ensures p + nb !in s.chunks && base <= p + nb < top && End(s, p) in s.heads
    ensures Segment(Tags(SetInUse(SetInUse(s.heads, p + nb, rsize), p, nb), s.feet, s.chunks + {p + nb}), base, top, topsize)
  {
    hide Region, SetInUse;
    Facts(s, base, top, p);
    var r, n := p + nb, End(s, p);
    assert r + rsize == n;
    TwoMarked(s.heads, p, nb, rsize);
    EndsKnown(s, base, top);
    var s' := Tags(SetInUse(SetInUse(s.heads, r, rsize), p, nb), s.feet, s.chunks + {r});
    AlignedSum(p, nb);
    AlignedSum(s.heads[p].size, nb);
    Single(s', p, r);
    Single(s', r, n);
    Join(s', p, r, n);
    Rewrite(s, s', base, p, n, top);
  }

  // ---------- coalescing

  /** Head words after [q, n) becomes one free chunk below the chunk at `n`. */
  function MergedHeads(h: Heads, q: Ptr, n: Ptr): Heads
    requires n in h && q < n
  {
    h[n := h[n].(pinuse := false)][q := Head(n - q, true, false)]
  }

  function Outside(chunks: set<Ptr>, q: Ptr, n: Ptr): set<Ptr> {
    set a | a in chunks && (a <= q || n <= a)
  }

  /** Chunks merge into one free chunk between two in use. */
  lemma {:induction false} Merge(s: Tags, base: Ptr, top: Ptr, topsize: nat, q: Ptr, n: Ptr)
    requires Segment(s, base, top, topsize) && q in s.chunks && q in s.heads && s.heads[q].pinuse
    requires q < n && n in s.chunks && n in s.heads && s.heads[n].cinuse
    ensures Segment(Tags(MergedHeads(s.heads, q, n), s.feet[n := n - q], Outside(s.chunks, q, n)), base, top, topsize)
  {
    var s' := Tags(MergedHeads(s.heads, q, n), s.feet[n := n - q], Outside(s.chunks, q, n));
    Facts(s, base, top, q);
    Facts(s, base, top, n);
    AlignedSum(n, q);
    Single(s', q, n);
    Rewrite(s, s', base, q, n, top);
  }

  /** The chunks above `q` merge into top. */
  lemma {:induction false} MergeTop(s: Tags, base: Ptr, top: Ptr, topsize: nat, q: Ptr)
    requires Segment(s, base, top, topsize) && q in s.chunks && q in s.heads && s.heads[q].pinuse
    ensures q < top
    ensures Segment(Tags(s.heads[q := Head(top - q + topsize, true, false)], s.feet, set a | a in s.chunks && a < q),
                    base, q, top - q + topsize)
  {
    var s' := Tags(s.heads[q := Head(top - q + topsize, true, false)], s.feet, set a | a in s.chunks && a < q);
    Facts(s, base, top, q);
    AlignedSum(top, q);
    AlignedSum(top - q, topsize);
    Cut(s, base, q, top);
    Frame(s, s', base, q);
  }

  // ---------- chunks in use and free

  /** The allocated chunks and their sizes. */
  ghost function InUse(s: Tags): map<Ptr, nat> {
    map a | a in s.chunks && a in s.heads && s.heads[a].cinuse :: s.heads[a].size
  }

  /** The free chunks other than top. */
  ghost function Free(s: Tags): set<Ptr> {
    set a | a in s.chunks && a in s.heads && !s.heads[a].cinuse
  }

  lemma {:induction false} TakenEffect(s: Tags, base: Ptr, top: Ptr, topsize: nat, p: Ptr)
    requires Segment(s, base, top, topsize) && p in Free(s) && End(s, p) in s.heads && s.heads[p].size > 0
    ensures var s' := s.(heads := MarkInUse(s.heads, p, s.heads[p].size));
      InUse(s') == InUse(s)[p := s.heads[p].size] && Free(s') == Free(s) - {p}
  {}

  lemma {:induction false} SplitEffect(s: Tags, p: Ptr, nb: nat, rsize: nat, f: Feet)
    requires p !in InUse(s) && p + nb !in s.chunks && nb > 0
    ensures var s' := Tags(SplitHeads(s.heads, p, nb, rsize), f, s.chunks + {p, p + nb});
      InUse(s') == InUse(s)[p := nb] && Free(s') == Free(s) - {p} + {p + nb}
  {}

  lemma {:induction false} SplitTopEffect(s: Tags, p: Ptr, nb: nat, rsize: nat)
    requires p !in s.chunks && p + nb !in s.chunks && nb > 0
    ensures var s' := Tags(SplitHeads(s.heads, p, nb, rsize), s.feet, s.chunks + {p});
      InUse(s') == InUse(s)[p := nb] && Free(s') == Free(s)
  {}

  lemma {:induction false} SplitInUseEffect(s: Tags, p: Ptr, nb: nat, rsize: nat)
    requires p in InUse(s) && p + nb !in s.chunks && nb > 0 && rsize > 0 && p + nb in s.heads && p + nb + rsize in s.heads
    ensures var s' := Tags(SetInUse(SetInUse(s.heads, p + nb, rsize), p, nb), s.feet, s.chunks + {p + nb});
      InUse(s') == InUse(s)[p := nb][p + nb := rsize] && Free(s') == Free(s)
  {}

  /** `q` is the chunk `p` in use, or the free chunk just before it. */
  ghost predicate Backward(s: Tags, q: Ptr, p: Ptr) {
    p in InUse(s) && (q == p || (q in Free(s) && End(s, q) == p))
  }

  /** `n` is the end `m` of a chunk, or the end of the free chunk at `m`. */
  ghost predicate Forward(s: Tags, m: Ptr, n: Ptr) {
    n in InUse(s) && (n == m || (m in Free(s) && End(s, m) == n))
  }

  lemma {:induction false} Swallowed(s: Tags, base: Ptr, top: Ptr, topsize: nat, q: Ptr, p: Ptr, a: Ptr)
    requires Segment(s, base, top, topsize) && Backward(s, q, p) && a in s.chunks
    ensures a < q || a == q || a == p || End(s, p) <= a
    ensures q <= p < End(s, p) <= top && q in s.chunks && q in s.heads && End(s, p) in s.heads && s.heads[End(s, p)].pinuse
  {
    Facts(s, base, top, p);
    Facts(s, base, top, q);
  }

  lemma {:induction false} SwallowedNext(s: Tags, base: Ptr, top: Ptr, topsize: nat, m: Ptr, n: Ptr, a: Ptr)
    requires Segment(s, base, top, topsize) && Forward(s, m, n) && a in s.chunks
    ensures a < m || a == m || n <= a
    ensures m <= n
  {
    if m != n { Facts(s, base, top, m); }
  }

  lemma {:induction false} MergeEffect(s: Tags, base: Ptr, top: Ptr, topsize: nat, q: Ptr, p: Ptr, n: Ptr)
    requires Segment(s, base, top, topsize) && Backward(s, q, p) && Forward(s, End(s, p), n)
    ensures q < n && n in s.heads
    ensures var s' := Tags(MergedHeads(s.heads, q, n), s.feet[n := n - q], Outside(s.chunks, q, n));
      InUse(s') == InUse(s) - {p} && Free(s') == Free(s) - {End(s, p)} + {q}
  {
    forall a | a in s.chunks ensures a < q || a == q || a == p || a == End(s, p) || n <= a {
      Swallowed(s, base, top, topsize, q, p, a);
      SwallowedNext(s, base, top, topsize, End(s, p), n, a);
    }
    Swallowed(s, base, top, topsize, q, p, p);
    SwallowedNext(s, base, top, topsize, End(s, p), n, p);
    hide Segment;
  }

  lemma {:induction false} MergeTopEffect(s: Tags, base: Ptr, top: Ptr, topsize: nat, q: Ptr, p: Ptr)
    requires Segment(s, base, top, topsize) && Backward(s, q, p) && End(s, p) == top
    ensures var s' := Tags(s.heads[q := Head(top - q + topsize, true, false)], s.feet, set a | a in s.chunks && a < q);
      InUse(s') == InUse(s) - {p} && Free(s') == Free(s) - {q}
  {
    forall a | a in s.chunks ensures a < q || a == q || a == p {
      Swallowed(s, base, top, topsize, q, p, a);
    }
    hide Region;
  }

  /** Tags inside a block's payload, and the foot behind it, mean nothing. */
  lemma {:induction false} PayloadWritten(s: Tags, s': Tags, base: Ptr, top: Ptr, topsize: nat, p: Ptr)
    requires Segment(s, base, top, topsize) && p in InUse(s)
    requires s'.chunks == s.chunks && s'.heads.Keys == s.heads.Keys
    requires forall a :: a in s.heads && !(p < a < End(s, p)) ==> s'.heads[a] == s.heads[a]
    requires forall a :: a in s.feet && !(p < a <= End(s, p)) ==> a in s'.feet && s'.feet[a] == s.feet[a]
    ensures Segment(s', base, top, topsize) && InUse(s') == InUse(s) && Free(s') == Free(s)
  {
    Facts(s, base, top, p);
    hide AllPlaced, AllTagged, AllPreceded;
    var n := End(s, p);
    assert forall a :: a in s.chunks ==> !(p < a < n);
    Single(s', p, n);
    Rewrite(s, s', base, p, n, top);
  }

  // ---------- consequences

  /** Every address below top is in exactly one chunk. */
  lemma {:induction false} Covered(s: Tags, base: Ptr, top: Ptr, topsize: nat, x: int)
    requires Segment(s, base, top, topsize) && base <= x < top
    ensures exists a :: Holds(s, a, x)
    ensures forall a, b :: Holds(s, a, x) && Holds(s, b, x) ==> a == b
  {
    CoveredBelow(s, base, top, top, x);
    forall a, b | Holds(s, a, x) && Holds(s, b, x) ensures a == b {
      Facts(s, base, top, a);
      Facts(s, base, top, b);
    }
  }

  ghost predicate Holds(s: Tags, a: Ptr, x: int) {
    a in s.chunks && a in s.heads && a <= x < End(s, a)
  }

  lemma {:induction false} CoveredBelow(s: Tags, base: Ptr, top: Ptr, hi: Ptr, x: int)
    requires Region(s, base, top) && base <= x < hi && (hi == top || (hi in s.chunks && hi < top))
    ensures exists a :: Holds(s, a, x)
    decreases hi - base
  {
    assert Preceded(s, base, hi);
    var b :| EndsAt(s, base, b, hi);
    if b <= x {
      assert Holds(s, b, x);
    } else {
      CoveredBelow(s, base, top, b, x);
    }
  }
}
