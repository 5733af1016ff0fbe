/**
 The free-chunk index of a malloc_state: small bins (rings with a header) and tree bins, their bin
 maps, and the macros that insert, unlink and search.
 */
module Bins {
  import opened MachineWords
  import opened BitTricks
  import opened Trie
  import opened Links
  import opened TreeLinks
  import opened TreeSearch

  const MIN_LARGE_SIZE: nat := 256

  /** The chunks of small bin `i`, in fd order from the header. */
  ghost predicate SmallOk(m: Memory, h: Heads, bins: BinMap, i: BinIndex, list: seq<Ptr>) {
    && (Marked(bins, i) <==> list != [])
    && SmallBinAt(i) in m
    && (list != [] ==> Ring(m, [SmallBinAt(i)] + list))
    && forall p :: p in list ==> SmallMember(m, h, i, p)
  }

  ghost predicate SmallMember(m: Memory, h: Heads, i: BinIndex, p: Ptr) {
    p > 0 && p in m && p in h && h[p].size == 8 * i
  }

  ghost predicate TreeOk(m: Memory, h: Heads, bins: BinMap, i: BinIndex, root: Ptr, t: Tree) {
    && (Marked(bins, i) <==> t.Node?)
    && Rep(m, h, i, root, TreeBinAt(i), t)
    && Separate(t) && Shaped(t, Low(i), Width(i))
    && forall s :: s in Sizes(t) ==> 256 <= s < TWO_TO_THE_64 && TreeBin(s) == i
  }

  /** The chunk is in the bin of its size. */
  ghost predicate Held(h: Heads, small: seq<seq<Ptr>>, trees: seq<Tree>, x: Ptr)
    requires |small| == 32 && |trees| == 32
  {
    x in h &&
    if h[x].size < MIN_LARGE_SIZE then x in small[h[x].size / 8] else x in Chunks(trees[TreeBin(h[x].size)])
  }

  lemma {:induction false} SmallFrame(m: Memory, m': Memory, h: Heads, h': Heads, b: BinMap, b': BinMap, i: BinIndex, list: seq<Ptr>)
    requires SmallOk(m, h, b, i, list) && (Marked(b, i) <==> Marked(b', i))
    requires SmallBinAt(i) in m' && m'[SmallBinAt(i)] == m[SmallBinAt(i)]
    requires Agree(m, m', h, h', set p | p in list)
    ensures SmallOk(m', h', b', i, list)
  {
    forall p | p in list ensures SmallMember(m', h', i, p) { assert SmallMember(m, h, i, p); }
    if list != [] { RingFrame(m, m', [SmallBinAt(i)] + list); }
  }

  lemma {:induction false} TreeFrame(m: Memory, m': Memory, h: Heads, h': Heads, b: BinMap, b': BinMap, i: BinIndex, root: Ptr, t: Tree)
    requires TreeOk(m, h, b, i, root, t) && (Marked(b, i) <==> Marked(b', i))
    requires Agree(m, m', h, h', Chunks(t))
    ensures TreeOk(m', h', b', i, root, t)
  {
    RepFrame(m, m', h, h', i, root, TreeBinAt(i), t);
  }

  lemma {:induction false} TreeMember(m: Memory, h: Heads, b: BinMap, i: BinIndex, root: Ptr, t: Tree, x: Ptr)
    requires TreeOk(m, h, b, i, root, t) && x in Chunks(t)
    ensures x > 0 && x in m && x in h && h[x].size >= 256 && h[x].size < TWO_TO_THE_64 && TreeBin(h[x].size) == i
    ensures h[x].size in Sizes(t) && m[x].index == i
  {
    RepSizes(m, h, i, root, TreeBinAt(i), t, x);
  }

  /** All bins agree with the chunk sizes `h`, and together they hold exactly `members`. */
  ghost predicate TableOk(m: Memory, h: Heads, smallmap: BinMap, treemap: BinMap, treebins: seq<Ptr>,
                          small: seq<seq<Ptr>>, trees: seq<Tree>, members: set<Ptr>)
  {
    && |small| == 32 && |trees| == 32 && |treebins| == 32
    && (forall i: BinIndex :: SmallOk(m, h, smallmap, i, small[i]))
    && (forall i: BinIndex :: TreeOk(m, h, treemap, i, treebins[i], trees[i]))
    && (forall x :: x in members <==> Held(h, small, trees, x))
  }

  lemma {:induction false} SmallClass(m: Memory, h: Heads, smallmap: BinMap, treemap: BinMap, treebins: seq<Ptr>,
                   small: seq<seq<Ptr>>, trees: seq<Tree>, members: set<Ptr>, i: BinIndex, x: Ptr)
    requires TableOk(m, h, smallmap, treemap, treebins, small, trees, members)
    ensures x in small[i] <==> x in members && h[x].size == 8 * i
    ensures x in small[i] ==> x > 0 && x in m && x in h
  {
    assert SmallOk(m, h, smallmap, i, small[i]);
    if x in small[i] {
      assert SmallMember(m, h, i, x);
      assert Held(h, small, trees, x);
    }
  }

  lemma {:induction false} TreeClass(m: Memory, h: Heads, smallmap: BinMap, treemap: BinMap, treebins: seq<Ptr>,
                  small: seq<seq<Ptr>>, trees: seq<Tree>, members: set<Ptr>, i: BinIndex, x: Ptr)
    requires TableOk(m, h, smallmap, treemap, treebins, small, trees, members)
    ensures x in Chunks(trees[i]) <==> x in members && h[x].size >= 256 && TreeBin(h[x].size) == i
    ensures x in Chunks(trees[i]) ==> x > 0 && x in m && x in h && m[x].index == i && h[x].size < TWO_TO_THE_64
    ensures x in Chunks(trees[i]) ==> h[x].size in Sizes(trees[i])
  {
    assert TreeOk(m, h, treemap, i, treebins[i], trees[i]);
    if x in Chunks(trees[i]) {
      TreeMember(m, h, treemap, i, treebins[i], trees[i], x);
      assert Held(h, small, trees, x);
    }
  }

  /** Rewriting one small bin leaves every other bin as it was. */
  lemma {:induction false} SmallBinChanged(m: Memory, m': Memory, h: Heads, sm: BinMap, sm': BinMap, tm: BinMap, tb: seq<Ptr>,
                        small: seq<seq<Ptr>>, trees: seq<Tree>, members: set<Ptr>, members': set<Ptr>,
                        i: BinIndex, list: seq<Ptr>, x: Ptr)
    requires TableOk(m, h, sm, tm, tb, small, trees, members)
    requires SmallOk(m', h, sm', i, list)
    requires forall j: BinIndex :: j != i ==> (Marked(sm', j) <==> Marked(sm, j))
    requires LinksChangedAt(m, m', {SmallBinAt(i), x} + set p | p in small[i])
    requires x > 0 && x in h && h[x].size == 8 * i
    requires forall y :: y in list <==> (y in small[i] && y != x) || (y == x && x in members')
    requires members' == members + {x} || members' == members - {x}
    ensures TableOk(m', h, sm', tm, tb, small[i := list], trees, members')
  {
    hide TreeOk, Chunks;
    var small' := small[i := list];
    forall j: BinIndex ensures SmallOk(m', h, sm', j, small'[j]) {
      if j != i {
        forall p | p in small[j] ensures p !in small[i] && p != x && p > 0 {
          SmallClass(m, h, sm, tm, tb, small, trees, members, j, p);
          SmallClass(m, h, sm, tm, tb, small, trees, members, i, p);
        }
        SmallFrame(m, m', h, h, sm, sm', j, small[j]);
      }
    }
    forall j: BinIndex ensures TreeOk(m', h, tm, j, tb[j], trees[j]) {
      forall p | p in Chunks(trees[j]) ensures p !in small[i] && p != x && p > 0 {
        TreeClass(m, h, sm, tm, tb, small, trees, members, j, p);
        SmallClass(m, h, sm, tm, tb, small, trees, members, i, p);
      }
      TreeFrame(m, m', h, h, tm, tm, j, tb[j], trees[j]);
    }
    forall y ensures y in members' <==> Held(h, small', trees, y) {
      SmallClass(m, h, sm, tm, tb, small, trees, members, i, y);
      assert y in members <==> Held(h, small, trees, y);
    }
  }

  /** What the assignments of insert_small_chunk make of the bin's ring. */
  lemma {:induction false} FrontLinked(m: Memory, b: Ptr, list: seq<Ptr>, x: Ptr, f: Ptr)
    requires b in m && x in m && x != b && x !in list && (list != [] ==> Ring(m, [b] + list))
    requires f == if list == [] then b else m[b].fd
    ensures f in m && f != x && (f == b || f in list)
    ensures Ring(LinkBetween(m, b, f, x), [b] + ([x] + list))
  {
    var s := [b] + list;
    if list == [] {
      RingOfTwo(m, b, x);
      assert [b] + ([x] + list) == [b, x];
    } else {
      assert s[0] == b;
      RingNeighbours(m, s, b);
      RingLinkBetween(m, s, x);
      assert s[1..] == list;
      SecondInserted(b, x, list);
    }
  }

  lemma {:induction false} SecondInserted(b: Ptr, x: Ptr, list: seq<Ptr>)
    ensures [b, x] + list == [b] + ([x] + list)
  {}

  lemma {:induction false} SmallMembersFrame(m: Memory, m': Memory, h: Heads, i: BinIndex, list: seq<Ptr>)
    requires forall p :: p in list ==> SmallMember(m, h, i, p)
    requires m.Keys == m'.Keys
    ensures forall p :: p in list ==> SmallMember(m', h, i, p)
  {}

  lemma {:induction false} HeadedWithout(b: Ptr, list: seq<Ptr>, x: Ptr)
    requires NoDuplicates([b] + list) && x in list
    ensures x != b && Without([b] + list, x) == [b] + Without(list, x)
    ensures forall p :: p in Without(list, x) <==> p in list && p != x
    ensures Without(list, x) == [] <==> |list| == 1
  {
    var s := [b] + list;
    assert s[1..] == list;
    forall j, k | 0 <= j < k < |list| ensures list[j] != list[k] { assert s[j + 1] == list[j] && s[k + 1] == list[k]; }
    forall k | 0 <= k < |list| ensures list[k] != b { assert s[k + 1] == list[k] && s[0] == b; }
    WithoutContents(list, x);
  }

  lemma {:induction false} RingDistinct(m: Memory, s: seq<Ptr>)
    requires Ring(m, s)
    ensures NoDuplicates(s)
  {}

  /** What unlink_small_chunk makes of the ring; with a single chunk the stale header is left alone. */
  lemma {:induction false} MiddleUnlinked(m: Memory, b: Ptr, list: seq<Ptr>, x: Ptr)
    requires Ring(m, [b] + list) && x in list
    ensures x in m && m[x].fd in m && m[x].bk in m
    ensures Without(list, x) == [] <==> m[x].fd == m[x].bk
    ensures Without(list, x) != [] ==> Ring(Bridge(m, m[x].bk, m[x].fd), [b] + Without(list, x))
    ensures forall p :: p in Without(list, x) <==> p in list && p != x
    ensures LinksChangedAt(m, Bridge(m, m[x].bk, m[x].fd), {b, x} + set p | p in list)
  {
    hide Ring, Without, NoDuplicates;
    var s := [b] + list;
    assert x in s;
    RingDistinct(m, s);
    HeadedWithout(b, list, x);
    RingNeighbours(m, s, x);
    RingBridge(m, s, x);
    var m' := Bridge(m, m[x].bk, m[x].fd);
    assert forall p :: p in s ==> p == b || p in list;
  }

  lemma {:induction false} SmallBinsUntouched(m: Memory, m': Memory, h: Heads, sm: BinMap, tm: BinMap, tb: seq<Ptr>,
                           small: seq<seq<Ptr>>, trees: seq<Tree>, members: set<Ptr>, i: BinIndex, x: Ptr, j: BinIndex)
    requires TableOk(m, h, sm, tm, tb, small, trees, members)
    requires LinksChangedAt(m, m', {x} + Chunks(trees[i]))
    requires x > 0 && x in h && h[x].size >= 256
    ensures SmallOk(m', h, sm, j, small[j])
  {
    assert SmallOk(m, h, sm, j, small[j]);
    forall p | p in small[j] ensures p !in Chunks(trees[i]) && p != x {
      SmallClass(m, h, sm, tm, tb, small, trees, members, j, p);
      TreeClass(m, h, sm, tm, tb, small, trees, members, i, p);
    }
    TreeClass(m, h, sm, tm, tb, small, trees, members, i, SmallBinAt(j));
    SmallFrame(m, m', h, h, sm, sm, j, small[j]);
  }

  lemma {:induction false} TreeBinsUntouched(m: Memory, m': Memory, h: Heads, sm: BinMap, tm: BinMap, tm': BinMap, tb: seq<Ptr>,
                          small: seq<seq<Ptr>>, trees: seq<Tree>, members: set<Ptr>, i: BinIndex, x: Ptr, j: BinIndex)
    requires TableOk(m, h, sm, tm, tb, small, trees, members)
    requires LinksChangedAt(m, m', {x} + Chunks(trees[i])) && j != i && (Marked(tm', j) <==> Marked(tm, j))
    requires x in h && h[x].size >= 256 && TreeBin(h[x].size) == i
    ensures TreeOk(m', h, tm', j, tb[j], trees[j])
  {
    forall p | p in Chunks(trees[j]) ensures p !in Chunks(trees[i]) && p != x {
      TreeClass(m, h, sm, tm, tb, small, trees, members, j, p);
      TreeClass(m, h, sm, tm, tb, small, trees, members, i, p);
    }
    TreeFrame(m, m', h, h, tm, tm', j, tb[j], trees[j]);
  }

  /** Rewriting one tree bin leaves every other bin as it was. */
  lemma {:induction false} TreeBinChanged(m: Memory, m': Memory, h: Heads, sm: BinMap, tm: BinMap, tm': BinMap, tb: seq<Ptr>, root: Ptr,
                       small: seq<seq<Ptr>>, trees: seq<Tree>, members: set<Ptr>, members': set<Ptr>,
                       i: BinIndex, t: Tree, x: Ptr)
    requires TableOk(m, h, sm, tm, tb, small, trees, members)
    requires TreeOk(m', h, tm', i, root, t)
    requires forall j: BinIndex :: j != i ==> (Marked(tm', j) <==> Marked(tm, j))
    requires LinksChangedAt(m, m', {x} + Chunks(trees[i]))
    requires x > 0 && x in h && h[x].size >= 256 && TreeBin(h[x].size) == i
    requires (members' == members + {x} && Chunks(t) == Chunks(trees[i]) + {x})
          || (members' == members - {x} && Chunks(t) == Chunks(trees[i]) - {x})
    ensures TableOk(m', h, sm, tm', tb[i := root], small, trees[i := t], members')
  {
    hide SmallOk, TreeOk, Chunks, LinksChangedAt, TreeBin;
    var trees', tb' := trees[i := t], tb[i := root];
    forall j: BinIndex ensures SmallOk(m', h, sm, j, small[j]) {
      SmallBinsUntouched(m, m', h, sm, tm, tb, small, trees, members, i, x, j);
    }
    forall j: BinIndex ensures TreeOk(m', h, tm', j, tb'[j], trees'[j]) {
      if j != i { TreeBinsUntouched(m, m', h, sm, tm, tm', tb, small, trees, members, i, x, j); }
    }
    HeldAfter(h, small, trees, members, members', i, t, x);
  }

  lemma {:induction false} HeldAfter(h: Heads, small: seq<seq<Ptr>>, trees: seq<Tree>, members: set<Ptr>, members': set<Ptr>,
                  i: BinIndex, t: Tree, x: Ptr)
    requires |small| == 32 && |trees| == 32 && forall y :: y in members <==> Held(h, small, trees, y)
    requires x in h && h[x].size >= 256 && TreeBin(h[x].size) == i
    requires (members' == members + {x} && Chunks(t) == Chunks(trees[i]) + {x})
          || (members' == members - {x} && Chunks(t) == Chunks(trees[i]) - {x})
    ensures forall y :: y in members' <==> Held(h, small, trees[i := t], y)
  {
    forall y ensures y in members' <==> Held(h, small, trees[i := t], y) {
      assert y in members <==> Held(h, small, trees, y);
    }
  }

  lemma {:induction false} RestFits(rest: Tree, nb: nat, rsize: nat)
    requires rest.Node? && Words(rest)
    requires forall s: nat :: s in Sizes(rest) && s >= nb ==> nb + rsize <= s
    requires forall s: nat :: s in Sizes(rest) ==> s >= nb
    ensures rsize < TWO_TO_THE_64 - nb
  {
    assert rest.size in Sizes(rest);
  }

  lemma {:induction false} SmallestOfTree(t: Tree, lo: nat, w: nat, nb: nat, rsize: nat)
    requires t.Node? && Shaped(t, lo, w) && nb + rsize <= t.size && (forall s: nat :: s in Sizes(t) ==> s >= nb)
    requires forall s: nat :: s in Sizes(LeftmostChild(t)) && s >= nb ==> nb + rsize <= s
    ensures forall s: nat :: s in Sizes(t) ==> nb + rsize <= s
  {
    forall s: nat | s in Sizes(t) ensures nb + rsize <= s {
      if t.left.Node? && s in Sizes(t.right) {
        assert t.left.size in Sizes(t.left);
        RightIsLarger(t, lo, w, t.left.size, s);
      }
    }
  }

  class BinTable {
    var links: Memory
    var smallmap: BinMap
    var treemap: BinMap
    var treebins: seq<Ptr>
    ghost var small: seq<seq<Ptr>>
    ghost var trees: seq<Tree>
    ghost var members: set<Ptr>

    /** The index agrees with chunk sizes `h` and holds exactly `members`. */
    ghost predicate Valid(h: Heads)
      reads this
    {
      TableOk(links, h, smallmap, treemap, treebins, small, trees, members)
    }

    /** init_bins: header rings of their own, empty trees. */
    constructor (memory: Memory)
      ensures Valid(map[])
      ensures members == {} && fresh(this)
      ensures forall x :: x in memory && x > 0 ==> x in links
    {
      links := memory + map i: int | -32 <= i < 0 :: Cell(i, i, 0, 0, 0, 0);
      smallmap := 0;
      treemap := 0;
      treebins := seq(32, _ => 0);
      small := seq(32, _ => []);
      trees := seq(32, _ => Nil);
      members := {};
      new;
      EmptyMap(0);
    }

    /** Only chunk sizes matter to the index. */
    lemma {:induction false} HeadsFrame(h: Heads, h': Heads)
      requires Valid(h)
      requires forall x :: x in members ==> x in h' && h'[x].size == h[x].size
      ensures Valid(h')
    {
      forall i: BinIndex ensures SmallOk(links, h', smallmap, i, small[i]) {
        forall p | p in small[i] ensures p in members { SmallInMembers(h, i, p); }
        SmallFrame(links, links, h, h', smallmap, smallmap, i, small[i]);
      }
      forall i: BinIndex ensures TreeOk(links, h', treemap, i, treebins[i], trees[i]) {
        forall p | p in Chunks(trees[i]) ensures p in members { TreeInMembers(h, i, p); }
        TreeFrame(links, links, h, h', treemap, treemap, i, treebins[i], trees[i]);
      }
      forall x ensures x in members <==> Held(h', small, trees, x) {
        if Held(h', small, trees, x) {
          if h'[x].size < MIN_LARGE_SIZE {
            SmallInMembers(h, h'[x].size / 8, x);
          } else {
            TreeInMembers(h, TreeBin(h'[x].size), x);
          }
        }
      }
    }

    /** Cells of chunks in no bin may hold anything: what a program writes into its blocks is harmless. */
    method Overwrite(lo: Ptr, hi: Ptr, cells: Memory, ghost h: Heads)
      requires Valid(h) && 0 < lo && forall x :: x in members ==> x < lo || hi <= x
      modifies this
      ensures Valid(h) && members == old(members) && links.Keys == old(links.Keys)
      ensures forall a :: a in links && lo <= a < hi && a in cells ==> links[a] == cells[a]
    {
      ghost var m0 := links;
      links := map a | a in links :: if lo <= a < hi && a in cells then cells[a] else links[a];
      forall i: BinIndex ensures SmallOk(links, h, smallmap, i, small[i]) {
        assert SmallOk(m0, h, smallmap, i, small[i]);
        forall p | p in small[i] ensures p in members { SmallClass(m0, h, smallmap, treemap, treebins, small, trees, members, i, p); }
        SmallFrame(m0, links, h, h, smallmap, smallmap, i, small[i]);
      }
      forall i: BinIndex ensures TreeOk(links, h, treemap, i, treebins[i], trees[i]) {
        forall p | p in Chunks(trees[i]) ensures p in members { TreeClass(m0, h, smallmap, treemap, treebins, small, trees, members, i, p); }
        TreeFrame(m0, links, h, h, treemap, treemap, i, treebins[i], trees[i]);
      }
    }

    lemma {:induction false} SmallInMembers(h: Heads, i: BinIndex, x: Ptr)
      requires Valid(h)
      ensures x in small[i] <==> x in members && h[x].size == 8 * i
      ensures x in small[i] ==> x > 0 && x in links && x in h
    {
      SmallClass(links, h, smallmap, treemap, treebins, small, trees, members, i, x);
    }

    lemma {:induction false} TreeInMembers(h: Heads, i: BinIndex, x: Ptr)
      requires Valid(h)
      ensures x in Chunks(trees[i]) <==> x in members && h[x].size >= 256 && TreeBin(h[x].size) == i
      ensures x in Chunks(trees[i]) ==> x > 0 && x in links && x in h && links[x].index == i
      ensures x in Chunks(trees[i]) ==> h[x].size in Sizes(trees[i]) && h[x].size < TWO_TO_THE_64
    {
      TreeClass(links, h, smallmap, treemap, treebins, small, trees, members, i, x);
    }

    lemma {:induction false} BinFacts(h: Heads, i: BinIndex)
      requires Valid(h)
      ensures |small| == 32 && |trees| == 32 && |treebins| == 32
      ensures SmallOk(links, h, smallmap, i, small[i]) && TreeOk(links, h, treemap, i, treebins[i], trees[i])
    {}

    lemma {:induction false} AllMarks(h: Heads)
      requires Valid(h)
      ensures |small| == 32
      ensures forall i: BinIndex :: Marked(smallmap, i) <==> small[i] != []
    {
      forall i: BinIndex ensures Marked(smallmap, i) <==> small[i] != [] { BinFacts(h, i); }
    }

    lemma {:induction false} InTree(h: Heads, x: Ptr)
      requires Valid(h) && x in members && x in h && h[x].size >= MIN_LARGE_SIZE
      ensures treemap != 0
    {
      var i := TreeBin(h[x].size);
      TreeInMembers(h, i, x);
      BinFacts(h, i);
      EmptyMap(treemap);
    }

    // ---------- small bins

    /** insert_small_chunk: at the front of the bin of its size. */
    method InsertSmall(x: Ptr, size: nat, ghost h: Heads)
      requires Valid(h)
      requires x > 0 && x in links && x !in members
      requires x in h && h[x].size == size && size < MIN_LARGE_SIZE && size % 8 == 0
      modifies this
      ensures Valid(h) && members == old(members) + {x}
      ensures links.Keys == old(links.Keys) && treemap == old(treemap) && trees == old(trees)
      ensures small == old(small)[size / 8 := [x] + old(small)[size / 8]]
    {
      var i: BinIndex := size / 8;
      var b := SmallBinAt(i);
      var f := b;
      ghost var m0, sm0, list := links, smallmap, small[i];
      assert SmallOk(links, h, smallmap, i, list);
      SmallInMembers(h, i, x);
      var marked := IsMarked(smallmap, i);
      if !marked {
        smallmap := MarkBin(smallmap, i);
      } else {
        f := links[b].fd;
      }
      FrontLinked(m0, b, list, x, f);
      links := links[b := links[b].(fd := x)];
      links := links[f := links[f].(bk := x)];
      links := links[x := links[x].(fd := f, bk := b)];
      assert links == LinkBetween(m0, b, f, x);
      SmallMembersFrame(m0, links, h, i, list);
      small := small[i := [x] + list];
      members := members + {x};
      SmallBinChanged(m0, links, h, sm0, smallmap, treemap, treebins, old(small), trees,
                      old(members), members, i, [x] + list, x);
    }

    /** unlink_small_chunk. */
    method UnlinkSmall(x: Ptr, size: nat, ghost h: Heads)
      requires Valid(h)
      requires x in members && x in h && h[x].size == size && size < MIN_LARGE_SIZE && size % 8 == 0
      modifies this
      ensures Valid(h) && members == old(members) - {x}
      ensures links.Keys == old(links.Keys) && treemap == old(treemap) && trees == old(trees)
      ensures small == old(small)[size / 8 := Without(old(small)[size / 8], x)]
    {
      var i: BinIndex := size / 8;
      ghost var m0, sm0, list := links, smallmap, small[i];
      SmallInMembers(h, i, x);
      assert SmallOk(links, h, smallmap, i, list);
      MiddleUnlinked(m0, SmallBinAt(i), list, x);
      var f, b := links[x].fd, links[x].bk;
      if b == f {
        smallmap := ClearBin(smallmap, i);
      } else {
        links := links[f := links[f].(bk := b)];
        links := links[b := links[b].(fd := f)];
        assert links == Bridge(m0, b, f);
      }
      SmallMembersFrame(m0, links, h, i, list);
      small := small[i := Without(list, x)];
      members := members - {x};
      SmallBinChanged(m0, links, h, sm0, smallmap, treemap, treebins, old(small), trees,
                      old(members), members, i, Without(list, x), x);
    }

    // ---------- tree bins

    /** insert_large_chunk. */
    method InsertLarge(x: Ptr, size: nat, h: Heads)
      requires Valid(h)
      requires x > 0 && x in links && x !in members
      requires x in h && h[x].size == size && MIN_LARGE_SIZE <= size < TWO_TO_THE_64
      modifies this
      ensures Valid(h) && members == old(members) + {x}
      ensures links.Keys == old(links.Keys) && smallmap == old(smallmap) && small == old(small)
      ensures var i := TreeBin(size);
        && Shaped(old(trees)[i], Low(i), Width(i)) && Low(i) <= size < Low(i) + Pow2(Width(i))
        && trees == old(trees)[i := Insert(old(trees)[i], size, x, Low(i), Width(i))]
    {
      hide TableOk, SmallOk, Insert, Shaped, Separate, Rep, TreeBin, Pow2, Low, Width, Sizes;
      var i := ComputeTreeIndex(size);
      BinFacts(h, i);
      ghost var m0, tm0, tb0, tree := links, treemap, treebins, trees[i];
      TreeInMembers(h, i, x);
      BinCovers(size);
      InsertCorrect(tree, size, x, Low(i), Width(i));
      ghost var tree' := Insert(tree, size, x, Low(i), Width(i));
      var marked := IsMarked(treemap, i);
      var links', root := LinkLarge(links, h, treebins[i], i, x, size, marked, tree);
      if !marked {
        treemap := MarkBin(treemap, i);
      }
      links := links';
      treebins := treebins[i := root];
      trees := trees[i := tree'];
      members := members + {x};
      TreeBinChanged(m0, links, h, smallmap, tm0, treemap, tb0, root, small, old(trees),
                     old(members), members, i, tree', x);
    }

    /** unlink_large_chunk. */
    method UnlinkLarge(x: Ptr, ghost h: Heads)
      requires Valid(h)
      requires x in members && x in h && h[x].size >= MIN_LARGE_SIZE
      modifies this
      ensures Valid(h) && members == old(members) - {x}
      ensures links.Keys == old(links.Keys) && smallmap == old(smallmap) && small == old(small)
      ensures var i := TreeBin(h[x].size);
        x in Chunks(old(trees)[i]) && trees == old(trees)[i := Remove(old(trees)[i], x)]
    {
      hide TableOk, SmallOk, Shaped, Separate, Rep, TreeBin;
      BinFacts(h, TreeBin(h[x].size));
      TreeInMembers(h, TreeBin(h[x].size), x);
      var i: BinIndex := links[x].index;
      ghost var m0, tm0, tb0, tree := links, treemap, treebins, trees[i];
      RemoveCorrect(tree, x, Low(i), Width(i));
      ghost var tree' := Remove(tree, x);
      var links', root := UnlinkFromTree(links, h, treebins[i], i, x, tree);
      RepRoot(links', h, i, root, TreeBinAt(i), tree');
      if root == 0 {
        treemap := ClearBin(treemap, i);
      }
      links := links';
      treebins := treebins[i := root];
      trees := trees[i := tree'];
      members := members - {x};
      TreeBinChanged(m0, links, h, smallmap, tm0, treemap, tb0, root, small, old(trees),
                     old(members), members, i, tree', x);
    }

    /** unlink_first_small_chunk: the header is the known predecessor of the first chunk. */
    method UnlinkFirstSmall(i: BinIndex, ghost h: Heads) returns (p: Ptr)
      requires Valid(h) && Marked(smallmap, i)
      modifies this
      ensures Valid(h) && p in old(members) && members == old(members) - {p}
      ensures p > 0 && p in h && h[p].size == 8 * i
      ensures i < |old(small)| && old(small)[i] != [] && p == old(small)[i][0] && small == old(small)[i := old(small)[i][1..]]
      ensures links.Keys == old(links.Keys) && treemap == old(treemap) && trees == old(trees)
    {
      var b := SmallBinAt(i);
      BinFacts(h, i);
      RingNeighbours(links, [b] + small[i], b) by { assert ([b] + small[i])[0] == b; }
      p := links[b].fd;
      assert p == small[i][0] by { assert ([b] + small[i])[0] == b && ([b] + small[i])[1] == small[i][0]; }
      SmallInMembers(h, i, p);
      UnlinkSmall(p, 8 * i, h);
    }

    /** insert_chunk */
    method InsertChunk(x: Ptr, size: nat, h: Heads)
      requires Valid(h)
      requires x > 0 && x in links && x !in members
      requires x in h && h[x].size == size && size < TWO_TO_THE_64 && size % 8 == 0
      modifies this
      ensures Valid(h) && members == old(members) + {x} && links.Keys == old(links.Keys)
    {
      hide TableOk;
      if size < MIN_LARGE_SIZE { InsertSmall(x, size, h); } else { InsertLarge(x, size, h); }
    }

    /** unlink_chunk */
    method UnlinkChunk(x: Ptr, size: nat, ghost h: Heads)
      requires Valid(h) && x in members && x in h && h[x].size == size && size % 8 == 0
      modifies this
      ensures Valid(h) && members == old(members) - {x} && links.Keys == old(links.Keys)
    {
      hide TableOk;
      if size < MIN_LARGE_SIZE { UnlinkSmall(x, size, h); } else { UnlinkLarge(x, h); }
    }

    // ---------- searches

    lemma {:induction false} SizesOfBin(h: Heads, i: BinIndex)
      requires Valid(h)
      ensures Words(trees[i])
      ensures forall s: nat :: s in Sizes(trees[i]) ==> 256 <= s && TreeBin(s) == i
    {
      BinFacts(h, i);
    }

    /** No binned chunk fits. */
    ghost predicate NoneFits(h: Heads, nb: nat)
      reads this
    {
      forall x :: x in members && x in h ==> h[x].size < nb
    }

    /** The binned chunk `v` fits, and no binned chunk fits better. */
    ghost predicate Fits(h: Heads, nb: nat, v: Ptr)
      reads this
    {
      && v in members && v in h && h[v].size >= nb
      && forall x :: x in members && x in h && h[x].size >= nb ==> h[v].size <= h[x].size
    }

    lemma {:induction false} BestInBin(h: Heads, nb: nat, j: BinIndex, v: Ptr)
      requires Valid(h) && 256 <= nb && v in Chunks(trees[j]) && v in h && h[v].size >= nb
      requires forall s: nat :: s in Sizes(trees[j]) && s >= nb ==> h[v].size <= s
      requires forall k: BinIndex, s: nat :: k < j && s in Sizes(trees[k]) ==> s < nb
      ensures Fits(h, nb, v)
    {
      hide TableOk, TreeBin, Sizes, Chunks;
      TreeInMembers(h, j, v);
      forall x | x in members && x in h && h[x].size >= nb ensures h[v].size <= h[x].size {
        var k := TreeBin(h[x].size);
        TreeInMembers(h, k, x);
        if k > j && h[x].size < h[v].size { TreeBinMonotone(h[x].size, h[v].size); }
      }
    }

    lemma {:induction false} NothingInBins(h: Heads, nb: nat)
      requires Valid(h) && 256 <= nb
      requires forall k: BinIndex, s: nat :: s in Sizes(trees[k]) ==> s < nb
      ensures NoneFits(h, nb)
    {
      forall x | x in members && x in h ensures h[x].size < nb {
        if h[x].size >= nb { TreeInMembers(h, TreeBin(h[x].size), x); }
      }
    }

    lemma {:induction false} LowerBins(h: Heads, nb: nat, k: BinIndex, s: nat)
      requires Valid(h) && 256 <= nb && k < TreeBin(nb) && s in Sizes(trees[k])
      ensures s < nb
    {
      SizesOfBin(h, k);
      if s >= nb { TreeBinMonotone(nb, s); }
    }

    /** The search of tmalloc_large: the best fitting binned chunk, or none exactly when none fits. */
    method SearchLarge(nb: nat, h: Heads) returns (v: Ptr, rsize: nat)
      requires Valid(h) && MIN_LARGE_SIZE <= nb < TWO_TO_THE_64
      ensures v == 0 ==> NoneFits(h, nb) && rsize == TWO_TO_THE_64 - nb
      ensures v != 0 ==> Fits(h, nb, v) && v > 0 && h[v].size == nb + rsize
    {
      var idx := ComputeTreeIndex(nb);
      BinCovers(nb);
      BinFacts(h, idx);
      SizesOfBin(h, idx);
      v, rsize := 0, TWO_TO_THE_64 - nb;
      var t := treebins[idx];
      ghost var tree := trees[idx];
      ghost var rest, par: Ptr, lo, w := tree, TreeBinAt(idx), Low(idx), Width(idx);
      RepRoot(links, h, idx, t, TreeBinAt(idx), tree);
      NoSizes(Nil);
      if t != 0 {
        v, rsize, t, rest, par, lo, w := WalkForFit(links, h, t, idx, nb, tree);
      }
      RepRoot(links, h, idx, t, par, rest);
      if t == 0 && v == 0 {
        forall s: nat | s in Sizes(tree) ensures s < nb {
          assert s < nb || AtMost(Sizes(rest), nb, s);
        }
        v, rsize := NextBinSearch(nb, h, idx);
      } else {
        v, rsize := SameBinSearch(nb, h, idx, t, v, rsize, rest, par, lo, w);
      }
    }

    /** When the walk left a candidate or a subtree, the best fit is in this bin. */
    method SameBinSearch(nb: nat, h: Heads, ghost idx: BinIndex, t: Ptr, v0: Ptr, rsize0: nat,
                         ghost rest: Tree, ghost par: Ptr, ghost lo: nat, ghost w: nat)
      returns (v: Ptr, rsize: nat)
      requires Valid(h) && MIN_LARGE_SIZE <= nb < TWO_TO_THE_64 && idx == TreeBin(nb)
      requires Rep(links, h, idx, t, par, rest) && Shaped(rest, lo, w) && WalkDone(h, trees[idx], nb, v0, rsize0, rest)
      requires v0 != 0 || rest.Node?
      ensures v != 0 && Fits(h, nb, v) && v > 0 && h[v].size == nb + rsize
    {
      SizesOfBin(h, idx);
      hide TableOk, Rep, Shaped, Chunks, Sizes;
      v, rsize := Leftmost(links, h, t, nb, v0, rsize0, idx, par, rest, lo, w);
      if v0 == 0 { RestFits(rest, nb, rsize); }
      TreeInMembers(h, idx, v);
      forall s: nat | s in Sizes(trees[idx]) && s >= nb ensures h[v].size <= s {
        if AtMost(Sizes(rest), nb, s) {}
      }
      forall k: BinIndex, s: nat | k < idx && s in Sizes(trees[k]) ensures s < nb { LowerBins(h, nb, k, s); }
      BestInBin(h, nb, idx, v);
    }

    /** Otherwise it is in the next non-empty bin, if there is one. */
    method NextBinSearch(nb: nat, h: Heads, idx: BinIndex) returns (v: Ptr, rsize: nat)
      requires Valid(h) && MIN_LARGE_SIZE <= nb < TWO_TO_THE_64 && idx == TreeBin(nb)
      requires forall s: nat :: s in Sizes(trees[idx]) ==> s < nb
      ensures v == 0 ==> NoneFits(h, nb) && rsize == TWO_TO_THE_64 - nb
      ensures v != 0 ==> Fits(h, nb, v) && v > 0 && h[v].size == nb + rsize
    {
      v, rsize := 0, TWO_TO_THE_64 - nb;
      var leftbits := BinsAfter(treemap, idx);
      EmptyMap(leftbits);
      if leftbits != 0 {
        var i := LeastIndex(leftbits);
        BinFacts(h, i);
        SizesOfBin(h, i);
        NoSizes(Nil);
        forall s: nat | s in Sizes(trees[i]) ensures s >= nb {
          if s < nb { TreeBinMonotone(s, nb); }
        }
        forall k: BinIndex, s: nat | k < i && s in Sizes(trees[k]) ensures s < nb {
          if k < idx { LowerBins(h, nb, k, s); } else if k > idx { BinFacts(h, k); }
        }
        hide TableOk, TreeOk, Rep, Shaped, Chunks, Sizes;
        v, rsize := Leftmost(links, h, treebins[i], nb, v, rsize, i, TreeBinAt(i), trees[i], Low(i), Width(i));
        RestFits(trees[i], nb, rsize);
        BestInBin(h, nb, i, v);
      } else {
        forall k: BinIndex, s: nat | s in Sizes(trees[k]) ensures s < nb {
          if k < idx { LowerBins(h, nb, k, s); } else if k > idx { BinFacts(h, k); NoSizes(Nil); }
        }
        NothingInBins(h, nb);
      }
    }

    /** The search of tmalloc_small: the smallest chunk in the first non-empty tree bin. */
    method SearchSmallest(nb: nat, h: Heads) returns (v: Ptr, rsize: nat)
      requires Valid(h) && nb < MIN_LARGE_SIZE && treemap != 0
      ensures v in members && v > 0 && v in h && h[v].size == nb + rsize && h[v].size >= MIN_LARGE_SIZE
      ensures forall x :: x in members && x in h && h[x].size >= MIN_LARGE_SIZE ==> h[v].size <= h[x].size
    {
      var i := LeastIndex(treemap);
      BinFacts(h, i);
      SizesOfBin(h, i);
      var t := treebins[i];
      NodeFacts(links, h, i, t, TreeBinAt(i), trees[i]);
      v, rsize := t, h[t].size - nb;
      ghost var d := trees[i].left.Nil?;
      ChildShaped(trees[i], Low(i), Width(i), d);
      ghost var child := Child(trees[i], d);
      var c := if links[t].left != 0 then links[t].left else links[t].right;
      {
        hide TableOk, TreeOk, Rep, Shaped, Chunks, Sizes;
        v, rsize := Leftmost(links, h, c, nb, v, rsize, i, t, child, LowBelow(Low(i), Width(i), d), WidthBelow(Width(i)));
      }
      SmallestOfTree(trees[i], Low(i), Width(i), nb, rsize);
      SmallestOverall(h, nb, i, v);
    }

    lemma {:induction false} SmallestOverall(h: Heads, nb: nat, i: BinIndex, v: Ptr)
      requires Valid(h) && v in Chunks(trees[i]) && v in h
      requires forall k: BinIndex :: k < i ==> !Marked(treemap, k)
      requires forall s: nat :: s in Sizes(trees[i]) ==> h[v].size <= s
      ensures v in members && v > 0 && h[v].size >= MIN_LARGE_SIZE
      ensures forall x :: x in members && x in h && h[x].size >= MIN_LARGE_SIZE ==> h[v].size <= h[x].size
    {
      TreeInMembers(h, i, v);
      forall x | x in members && x in h && h[x].size >= MIN_LARGE_SIZE ensures h[v].size <= h[x].size {
        var k := TreeBin(h[x].size);
        TreeInMembers(h, k, x);
        BinFacts(h, k);
        NoSizes(Nil);
        if k > i && h[x].size < h[v].size { TreeBinMonotone(h[x].size, h[v].size); }
      }
    }
  }
}
