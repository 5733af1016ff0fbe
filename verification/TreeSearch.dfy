/**
 Best fit over the tree bins: the search parts of tmalloc_large and tmalloc_small.
 */
module TreeSearch {
  import opened MachineWords
  import opened BitTricks
  import opened Trie
  import opened Links
  import opened TreeLinks

  /** Something that fits and is no larger than `s` is among the sizes. */
  ghost predicate AtMost(sizes: set<nat>, nb: nat, s: nat) { exists z :: z in sizes && nb <= z <= s }

  /** The chunk `v`, of size nb + rsize, or nothing so far. */
  ghost predicate Candidate(h: Heads, chunks: set<Ptr>, nb: nat, v: Ptr, rsize: nat) {
    if v == 0 then rsize == Sub64Zero(nb) else v in chunks && v in h && h[v].size == nb + rsize && v > 0
  }

  /** `-nb` as an unsigned word: no remainder can reach it. */
  function Sub64Zero(nb: nat): int { TWO_TO_THE_64 as int - nb }

  /** Every size that fits is matched by the candidate or by something still to be searched. */
  ghost predicate Covered(sizes: set<nat>, nb: nat, v: Ptr, rsize: nat, rest: set<nat>) {
    forall s: nat :: s in sizes && s >= nb ==> (v != 0 && nb + rsize <= s) || AtMost(rest, nb, s)
  }

  ghost predicate Words(t: Tree) { forall s: nat :: s in Sizes(t) ==> s < TWO_TO_THE_64 }

  lemma {:induction false} RightIsLarger(t: Tree, lo: nat, w: nat, l: nat, r: nat)
    requires t.Node? && Shaped(t, lo, w) && l in Sizes(t.left) && r in Sizes(t.right)
    ensures w > 0 && l < lo + Pow2(w - 1) <= r
  {
    SizesInRange(t.left, lo, w - 1, l);
    SizesInRange(t.right, lo + Pow2(w - 1), w - 1, r);
  }

  /** The range of a child; a subtree of width 0 has none, and any range will do. */
  function LowBelow(lo: nat, w: nat, d: bool): nat { if w == 0 then lo else HalfLow(lo, w, d) }

  function WidthBelow(w: nat): nat { if w == 0 then 0 else w - 1 }

  lemma {:induction false} ChildShaped(t: Tree, lo: nat, w: nat, d: bool)
    requires t.Node? && Shaped(t, lo, w)
    ensures Shaped(Child(t, d), LowBelow(lo, w, d), WidthBelow(w))
    ensures Sizes(Child(t, d)) <= Sizes(t) && Chunks(Child(t, d)) <= Chunks(t)
  {}

  lemma {:induction false} LeftmostCovers(t: Tree, lo: nat, w: nat, nb: nat, s: nat)
    requires t.Node? && Shaped(t, lo, w) && AtMost(Sizes(t), nb, s) && t.size > s
    requires forall z: nat :: z in Sizes(t) ==> z >= nb
    ensures AtMost(Sizes(LeftmostChild(t)), nb, s)
  {
    var z :| z in Sizes(t) && nb <= z <= s;
    if t.left.Node? && z in Sizes(t.right) {
      RightIsLarger(t, lo, w, t.left.size, z);
      assert t.left.size in Sizes(t.left);
    }
  }

  lemma {:induction false} NodeFacts(m: Memory, h: Heads, idx: nat, p: Ptr, par: Ptr, t: Tree)
    requires Rep(m, h, idx, p, par, t) && t.Node?
    ensures p in m && p in h && p > 0 && h[p].size == t.size && t.size in Sizes(t) && p in Chunks(t)
    ensures Rep(m, h, idx, m[p].left, p, t.left) && Rep(m, h, idx, m[p].right, p, t.right)
    ensures (m[p].left != 0 <==> t.left.Node?) && (m[p].right != 0 <==> t.right.Node?)
    ensures t.left.Node? ==> m[p].left == Root(t.left)
    ensures t.right.Node? ==> m[p].right == Root(t.right)
  {
    assert Member(m, h, idx, t.ring[0], t.size);
    RepRoot(m, h, idx, m[p].left, p, t.left);
    RepRoot(m, h, idx, m[p].right, p, t.right);
  }

  lemma {:induction false} NoSizes(t: Tree)
    requires t.Nil?
    ensures Sizes(t) == {} && Chunks(t) == {}
  {}

  /** The final loop: along leftmost children, keep the best fit. */
  method Leftmost(links: Memory, h: Heads, t0: Ptr, nb: nat, v0: Ptr, rsize0: nat,
                  ghost idx: nat, ghost par: Ptr, ghost tree: Tree, ghost lo: nat, ghost w: nat)
    returns (v: Ptr, rsize: nat)
    requires Rep(links, h, idx, t0, par, tree) && Shaped(tree, lo, w) && Words(tree) && nb < TWO_TO_THE_64
    requires rsize0 == 0 || forall s: nat :: s in Sizes(tree) ==> s >= nb
    ensures (v == v0 && rsize == rsize0) || (Candidate(h, Chunks(tree), nb, v, rsize) && v != 0 && rsize < rsize0)
    ensures forall s: nat :: s in Sizes(tree) && s >= nb ==> nb + rsize <= s
  {
    hide Rep, Shaped, Chunks, Sizes;
    v, rsize := v0, rsize0;
    var t := t0;
    RepRoot(links, h, idx, t, par, tree);
    ghost var cur, p := tree, par;
    ghost var lo': nat, w': nat := lo, w;
    while t != 0
      invariant Rep(links, h, idx, t, p, cur) && Shaped(cur, lo', w') && (t == 0 <==> cur.Nil?)
      invariant Sizes(cur) <= Sizes(tree) && Chunks(cur) <= Chunks(tree)
      invariant (v == v0 && rsize == rsize0) || (Candidate(h, Chunks(tree), nb, v, rsize) && v != 0 && rsize < rsize0)
      invariant forall s: nat :: s in Sizes(tree) && s >= nb ==> nb + rsize <= s || AtMost(Sizes(cur), nb, s)
      decreases cur
    {
      NodeFacts(links, h, idx, t, p, cur);
      var trem := Sub64(h[t].size, nb);
      if trem < rsize {
        rsize := trem;
        v := t;
      }
      forall s: nat | s in Sizes(tree) && s >= nb ensures nb + rsize <= s || AtMost(Sizes(LeftmostChild(cur)), nb, s) {
        if nb + rsize > s { LeftmostCovers(cur, lo', w', nb, s); }
      }
      ChildShaped(cur, lo', w', !cur.left.Node?);
      p := t;
      lo', w' := LowBelow(lo', w', !cur.left.Node?), WidthBelow(w');
      cur := LeftmostChild(cur);
      t := if links[t].left != 0 then links[t].left else links[t].right;
    }
    forall s: nat | s in Sizes(tree) && s >= nb ensures nb + rsize <= s {
      NoSizes(cur);
    }
  }

  /** State of the walk for the requested size: the subtree reached and the deepest untaken right subtree. */
  ghost predicate Walking(tree: Tree, h: Heads, nb: nat, key: nat, lo: nat, w: nat, cur: Tree, rst: Tree, v: Ptr, rsize: nat) {
    && cur.Node? && Shaped(cur, lo, w) && KeyFor(key, nb, lo, w)
    && Sizes(cur) <= Sizes(tree) && Chunks(cur) <= Chunks(tree)
    && Sizes(rst) <= Sizes(tree) && Chunks(rst) <= Chunks(tree)
    && Candidate(h, Chunks(tree), nb, v, rsize) && rsize != 0
    && (forall s: nat :: s in Sizes(rst) ==> s >= lo + Pow2(w))
    && Covered(Sizes(tree), nb, v, rsize, Sizes(cur) + Sizes(rst))
  }

  /** Taking one step down keeps everything that fits covered. */
  lemma {:induction false} StepCovers(sizes: set<nat>, nb: nat, v: Ptr, rsize: nat, key: nat, lo: nat, w: nat, cur: Tree, rst: Tree, rst': Tree)
    requires cur.Node? && Shaped(cur, lo, w) && KeyFor(key, nb, lo, w) && w > 0
    requires forall s: nat :: s in Sizes(rst) ==> s >= lo + Pow2(w)
    requires Covered(sizes, nb, v, rsize, Sizes(cur) + Sizes(rst))
    requires cur.size >= nb ==> v != 0 && nb + rsize <= cur.size
    requires var d := TopBit(key) == 1;
      rst' == if !d && cur.right.Node? then cur.right else rst
    ensures var d := TopBit(key) == 1;
      && Covered(sizes, nb, v, rsize, Sizes(Child(cur, d)) + Sizes(rst'))
      && forall s: nat :: s in Sizes(rst') ==> s >= HalfLow(lo, w, d) + Pow2(w - 1)
  {
    hide Shaped, Pow2, Sizes, Double64, TopBit;
    var d := TopBit(key) == 1;
    NextKey(key, nb, lo, w);
    PowSucc(w - 1);
    forall s: nat | s in Sizes(rst') ensures s >= HalfLow(lo, w, d) + Pow2(w - 1) {
      RestAbove(nb, d, lo, w, cur, rst, rst', s);
    }
    forall s: nat | s in sizes && s >= nb
      ensures (v != 0 && nb + rsize <= s) || AtMost(Sizes(Child(cur, d)) + Sizes(rst'), nb, s)
    {
      if !(v != 0 && nb + rsize <= s) {
        var z :| z in Sizes(cur) + Sizes(rst) && nb <= z <= s;
        StepCoversOne(nb, d, lo, w, cur, rst, rst', s, z);
      }
    }
  }

  lemma {:induction false} RestAbove(nb: nat, d: bool, lo: nat, w: nat, cur: Tree, rst: Tree, rst': Tree, s: nat)
    requires cur.Node? && Shaped(cur, lo, w) && w > 0 && forall y: nat :: y in Sizes(rst) ==> y >= lo + Pow2(w)
    requires rst' == (if !d && cur.right.Node? then cur.right else rst) && s in Sizes(rst')
    ensures s >= HalfLow(lo, w, d) + Pow2(w - 1)
  {
    PowSucc(w - 1);
    if rst' == cur.right && !d { SizesInRange(cur.right, lo + Pow2(w - 1), w - 1, s); }
  }

  lemma {:induction false} StepCoversOne(nb: nat, d: bool, lo: nat, w: nat, cur: Tree, rst: Tree, rst': Tree, s: nat, z: nat)
    requires cur.Node? && Shaped(cur, lo, w) && w > 0 && lo <= nb < lo + Pow2(w) && d == (nb >= lo + Pow2(w - 1))
    requires forall y: nat :: y in Sizes(rst) ==> y >= lo + Pow2(w)
    requires z in Sizes(cur) + Sizes(rst) && nb <= z <= s && z != cur.size
    requires rst' == if !d && cur.right.Node? then cur.right else rst
    ensures AtMost(Sizes(Child(cur, d)) + Sizes(rst'), nb, s)
  {
    PowSucc(w - 1);
    var half := lo + Pow2(w - 1);
    var y := z;
    if z in Sizes(rst) {
      if rst' != rst {
        SizesInRange(cur.right, half, w - 1, cur.right.size);
        y := cur.right.size;
      }
    } else if z in Sizes(cur.left) {
      SizesInRange(cur.left, lo, w - 1, z);
    }
    hide Shaped, Pow2;
    assert y in Sizes(Child(cur, d)) + Sizes(rst') && nb <= y <= s;
  }

  lemma {:induction false} DistinctChildren(m: Memory, h: Heads, idx: nat, p: Ptr, par: Ptr, t: Tree)
    requires Rep(m, h, idx, p, par, t) && t.Node? && Separate(t) && p in m
    ensures m[p].right != 0 ==> m[p].right != m[p].left
    ensures Separate(t.left) && Separate(t.right)
  {
    ChildFacts(m, h, idx, m[p].left, p, t.left);
    ChildFacts(m, h, idx, m[p].right, p, t.right);
  }

  /** What the walk leaves behind: a best candidate so far, and a subtree that may hold a better fit. */
  ghost predicate WalkDone(h: Heads, tree: Tree, nb: nat, v: Ptr, rsize: nat, rest: Tree) {
    && Candidate(h, Chunks(tree), nb, v, rsize)
    && ((v != 0 && rsize == 0) || forall s: nat :: s in Sizes(rest) ==> s >= nb)
    && Covered(Sizes(tree), nb, v, rsize, Sizes(rest))
    && Sizes(rest) <= Sizes(tree) && Chunks(rest) <= Chunks(tree)
  }

  lemma {:induction false} ExactFit(h: Heads, tree: Tree, nb: nat, v: Ptr, rest: Tree)
    requires Candidate(h, Chunks(tree), nb, v, 0) && v != 0
    requires Sizes(rest) <= Sizes(tree) && Chunks(rest) <= Chunks(tree)
    ensures WalkDone(h, tree, nb, v, 0, rest)
  {}

  /** The candidate after looking at the chunk at the current node; the wrapped difference rules out misfits. */
  lemma {:induction false} Considered(h: Heads, tree: Tree, nb: nat, t: Ptr, size: nat, v: Ptr, rsize: nat, v': Ptr, rsize': nat)
    requires 0 < nb < TWO_TO_THE_64 && size < TWO_TO_THE_64 && Candidate(h, Chunks(tree), nb, v, rsize)
    requires t in Chunks(tree) && t in h && h[t].size == size && t > 0
    requires v != 0 ==> v in h && h[v].size < TWO_TO_THE_64
    requires if Sub64(size, nb) < rsize then v' == t && rsize' == Sub64(size, nb) else v' == v && rsize' == rsize
    ensures Candidate(h, Chunks(tree), nb, v', rsize')
    ensures size >= nb ==> v' != 0 && nb + rsize' <= size
    ensures v != 0 ==> v' != 0 && rsize' <= rsize
    ensures v' != 0 ==> v' in h && h[v'].size < TWO_TO_THE_64
  {}

  lemma {:induction false} CoveredBy(sizes: set<nat>, nb: nat, v: Ptr, rsize: nat, v': Ptr, rsize': nat, rest: set<nat>)
    requires Covered(sizes, nb, v, rsize, rest) && (v != 0 ==> v' != 0 && rsize' <= rsize)
    ensures Covered(sizes, nb, v', rsize', rest)
  {}

  /** The first loop of tmalloc_large: follow the bits of nb, remembering the deepest untaken right subtree. */
  method WalkForFit(links: Memory, h: Heads, root: Ptr, i: BinIndex, nb: nat, ghost tree: Tree)
    returns (v: Ptr, rsize: nat, t: Ptr, ghost rest: Tree, ghost par: Ptr, ghost lo: nat, ghost w: nat)
    requires Rep(links, h, i, root, TreeBinAt(i), tree) && tree.Node? && Separate(tree) && Words(tree)
    requires Shaped(tree, Low(i), Width(i)) && Low(i) <= nb < Low(i) + Pow2(Width(i)) && 0 < nb < TWO_TO_THE_64
    ensures Rep(links, h, i, t, par, rest) && Shaped(rest, lo, w)
    ensures WalkDone(h, tree, nb, v, rsize, rest)
    ensures v != 0 ==> v in h && h[v].size == nb + rsize
  {
    hide Rep, Shaped, Chunks, Sizes, Separate, Covered, Candidate, Low, Width, Pow2, KeyFor;
    v, rsize := 0, TWO_TO_THE_64 - nb;
    t := root;
    var sizebits := Shl64(nb, LeftShift(i));
    FirstKey(nb, i);
    var rst := 0;
    ghost var rstTree, rstPar := Nil, 0;
    ghost var rlo: nat, rw: nat := 0, 0;
    ghost var cur := tree;
    par, lo, w := TreeBinAt(i), Low(i), Width(i);
    WalkStarts(tree, h, nb, sizebits, lo, w);
    EmptyTree(links, h, i);
    while true
      invariant Walking(tree, h, nb, sizebits, lo, w, cur, rstTree, v, rsize)
      invariant Rep(links, h, i, t, par, cur) && Separate(cur)
      invariant Rep(links, h, i, rst, rstPar, rstTree) && Shaped(rstTree, rlo, rw)
      invariant v != 0 ==> v in h && h[v].size < TWO_TO_THE_64
      decreases cur
    {
      NodeFacts(links, h, i, t, par, cur);
      var trem := Sub64(h[t].size, nb);
      ghost var v0, rsize0 := v, rsize;
      if trem < rsize {
        v, rsize := t, trem;
        if rsize == 0 {
          rest := cur;
          Considered(h, tree, nb, t, h[t].size, v0, rsize0, v, rsize);
          ExactFit(h, tree, nb, v, rest);
          return;
        }
      }
      Considered(h, tree, nb, t, h[t].size, v0, rsize0, v, rsize);
      StepDown(links, h, i, t, par, tree, nb, sizebits, lo, w, cur, rstTree, v0, rsize0, v, rsize);
      DistinctChildren(links, h, i, t, par, cur);
      var d := TopBit(sizebits) == 1;
      var rt := links[t].right;
      ghost var p := t;
      t := if d then links[t].right else links[t].left;
      if rt != 0 && rt != t {
        rst := rt;
        rstTree, rstPar, rlo, rw := cur.right, p, LowBelow(lo, w, true), WidthBelow(w);
        ChildShaped(cur, lo, w, true);
      }
      if t == 0 {
        t := rst;
        rest, par, lo, w := rstTree, rstPar, rlo, rw;
        return;
      }
      ChildShaped(cur, lo, w, d);
      cur, par, lo, w := Child(cur, d), p, HalfLow(lo, w, d), w - 1;
      sizebits := Double64(sizebits);
    }
  }

  lemma {:induction false} EmptyTree(m: Memory, h: Heads, idx: nat)
    ensures Rep(m, h, idx, 0, 0, Nil) && Shaped(Nil, 0, 0)
  {}

  lemma {:induction false} WalkStarts(tree: Tree, h: Heads, nb: nat, key: nat, lo: nat, w: nat)
    requires tree.Node? && Shaped(tree, lo, w) && KeyFor(key, nb, lo, w) && 0 < nb < TWO_TO_THE_64
    ensures Walking(tree, h, nb, key, lo, w, tree, Nil, 0, TWO_TO_THE_64 - nb)
  {
    forall s: nat | s in Sizes(tree) && s >= nb ensures AtMost(Sizes(tree) + Sizes(Nil), nb, s) {}
  }

  /** One step of the walk when the current node is not an exact fit. */
  lemma {:induction false} StepDown(m: Memory, h: Heads, idx: nat, t: Ptr, par: Ptr, tree: Tree, nb: nat, key: nat, lo: nat, w: nat,
                                    cur: Tree, rst: Tree, v0: Ptr, rsize0: nat, v: Ptr, rsize: nat)
    requires Walking(tree, h, nb, key, lo, w, cur, rst, v0, rsize0) && Rep(m, h, idx, t, par, cur)
    requires Candidate(h, Chunks(tree), nb, v, rsize) && rsize != 0
    requires cur.size >= nb ==> v != 0 && nb + rsize <= cur.size
    requires v0 != 0 ==> v != 0 && rsize <= rsize0
    ensures w > 0
    ensures var d := TopBit(key) == 1;
      var rst' := if !d && cur.right.Node? then cur.right else rst;
      && (Child(cur, d).Node? ==> Walking(tree, h, nb, Double64(key), HalfLow(lo, w, d), w - 1, Child(cur, d), rst', v, rsize))
      && (Child(cur, d).Nil? ==> WalkDone(h, tree, nb, v, rsize, rst'))
  {
    hide Shaped, Covered, Candidate, Pow2, Sizes, Chunks, Rep, KeyFor, TopBit, Double64;
    assert cur.size != nb;
    KeyRange(key, nb, lo, w);
    Descend(cur, nb, lo, w);
    NextKey(key, nb, lo, w);
    var d := TopBit(key) == 1;
    var rst' := if !d && cur.right.Node? then cur.right else rst;
    CoveredBy(Sizes(tree), nb, v0, rsize0, v, rsize, Sizes(cur) + Sizes(rst));
    StepCovers(Sizes(tree), nb, v, rsize, key, lo, w, cur, rst, rst');
    ChildShaped(cur, lo, w, d);
    ChildShaped(cur, lo, w, true);
    if Child(cur, d).Nil? {
      NoSizes(Child(cur, d));
      assert Sizes(Child(cur, d)) + Sizes(rst') == Sizes(rst');
      AboveRequest(nb, d, lo, w);
    }
  }

  lemma {:induction false} KeyRange(key: nat, nb: nat, lo: nat, w: nat)
    requires KeyFor(key, nb, lo, w)
    ensures lo <= nb < lo + Pow2(w)
  {}

  /** Sizes above the half that nb is in are above nb. */
  lemma {:induction false} AboveRequest(nb: nat, d: bool, lo: nat, w: nat)
    requires w > 0 && lo <= nb < lo + Pow2(w) && (d <==> nb >= lo + Pow2(w - 1))
    ensures nb < HalfLow(lo, w, d) + Pow2(w - 1)
  {
    PowSucc(w - 1);
  }
}
