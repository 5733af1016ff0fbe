/**
 insert_large_chunk and unlink_large_chunk on the linked tree of one bin: each is proved to carry out
 the corresponding operation on the trie that the links represent.
 */
module TreeLinks {
  import opened MachineWords
  import opened BitTricks
  import opened Trie
  import opened Links

  /** Addresses of bin headers inside the malloc_state, away from all chunks. */
  function SmallBinAt(i: BinIndex): Ptr { -1 - i }

  function TreeBinAt(i: BinIndex): Ptr { -33 - i }

  /** Link fields change at most at the given addresses. */
  ghost predicate LinksChangedAt(m: Memory, m': Memory, changed: set<Ptr>) {
    forall p :: p in m ==> p in m' && (p !in changed ==> m'[p] == m[p])
  }

  /** Every chunk of a linked trie has its node's size. */
  lemma {:induction false} RepSizes(m: Memory, h: Heads, idx: nat, p: Ptr, par: Ptr, t: Tree, x: Ptr)
    requires Rep(m, h, idx, p, par, t) && x in Chunks(t)
    ensures x > 0 && x in m && x in h && h[x].size in Sizes(t) && m[x].index == idx
    decreases t
  {
    if x in t.ring {
      var k :| 0 <= k < |t.ring| && t.ring[k] == x;
      assert Member(m, h, idx, t.ring[k], t.size);
    } else if x in Chunks(t.left) {
      RepSizes(m, h, idx, m[p].left, p, t.left, x);
    } else {
      RepSizes(m, h, idx, m[p].right, p, t.right, x);
    }
  }

  /** A single chunk on its own: `X->fd = X->bk = X`, no children. */
  lemma {:induction false} LoneNode(m: Memory, h: Heads, idx: nat, x: Ptr, par: Ptr, size: nat)
    requires x > 0 && x in m && x in h && h[x].size == size
    requires m[x] == Cell(x, x, 0, 0, par, idx)
    ensures Rep(m, h, idx, x, par, Node(size, [x], Nil, Nil))
  {
    var t := Node(size, [x], Nil, Nil);
    assert forall k :: 0 <= k < |t.ring| ==> Member(m, h, idx, t.ring[k], size);
  }

  /** Memory after insert_large_chunk chains `x` behind the head `p` of a ring. */
  function Chain(m: Memory, p: Ptr, x: Ptr, idx: nat): Memory
    requires x in m && p in m && p != x && m[p].fd in m && m[p].fd != x
  {
    LinkBetween(m[x := m[x].(left := 0, right := 0, parent := 0, index := idx)], p, m[p].fd, x)
  }

  lemma {:induction false} ChainedMembers(m: Memory, h: Heads, idx: nat, p: Ptr, par: Ptr, t: Tree, x: Ptr, q: Ptr)
    requires NodeAt(m, h, idx, p, par, t) && x !in t.ring
    requires x > 0 && x in m && x in h && h[x].size == t.size
    requires m[p].fd in m && m[p].fd != x && p != x && (q in t.ring || q == x)
    ensures Member(Chain(m, p, x, idx), h, idx, q, t.size) && (q != p ==> Chained(Chain(m, p, x, idx), q))
  {
    if q != x {
      var k :| 0 <= k < |t.ring| && t.ring[k] == q;
      assert Member(m, h, idx, t.ring[k], t.size);
      if k > 0 { assert Chained(m, t.ring[k]); }
    }
  }

  lemma {:induction false} ChainedLinks(m: Memory, idx: nat, p: Ptr, ring: seq<Ptr>, x: Ptr)
    requires Ring(m, ring) && ring != [] && ring[0] == p && x !in ring && x in m
    ensures m[p].fd in ring && p in m && m[p].fd in m && m[p].fd != x && p != x
    ensures Ring(Chain(m, p, x, idx), [p, x] + ring[1..])
  {
    var m1 := m[x := m[x].(left := 0, right := 0, parent := 0, index := idx)];
    RingFrame(m, m1, ring);
    RingNeighbours(m, ring, p);
    RingLinkBetween(m1, ring, x);
  }

  lemma {:induction false} ChainedRing(m: Memory, h: Heads, idx: nat, p: Ptr, par: Ptr, t: Tree, x: Ptr)
    requires NodeAt(m, h, idx, p, par, t) && x !in t.ring
    requires x > 0 && x in m && x in h && h[x].size == t.size
    ensures m[p].fd in t.ring && m[p].fd in m && m[p].fd != x && p != x
    ensures NodeAt(Chain(m, p, x, idx), h, idx, p, par, InsertHere(t, t.size, x))
  {
    ChainedLinks(m, idx, p, t.ring, x);
    hide Ring;
    var u := InsertHere(t, t.size, x);
    RingWithSecond(t.ring, x);
    var m' := Chain(m, p, x, idx);
    forall q | q in u.ring ensures Member(m', h, idx, q, t.size) && (q != p ==> Chained(m', q)) {
      ChainedMembers(m, h, idx, p, par, t, x, q);
    }
    hide Member, Chained;
    assert u.ring[0] == p && NoDuplicates(u.ring);
  }

  /** Linking a chunk into the ring of its size. */
  lemma {:induction false} ChainedNode(m: Memory, h: Heads, idx: nat, p: Ptr, par: Ptr, t: Tree, x: Ptr)
    requires Rep(m, h, idx, p, par, t) && t.Node? && Separate(t) && x !in Chunks(t)
    requires x > 0 && x in m && x in h && h[x].size == t.size
    ensures p in m && m[p].fd in t.ring && m[p].fd in m && m[p].fd != x && p != x
    ensures Rep(Chain(m, p, x, idx), h, idx, p, par, InsertHere(t, t.size, x))
  {
    ChainedRing(m, h, idx, p, par, t, x);
    var m' := Chain(m, p, x, idx);
    assert p in t.ring;
    assert forall q :: q in m && q !in t.ring && q != x ==> m'[q] == m[q];
    assert m'[p].left == m[p].left && m'[p].right == m[p].right;
    RepFrame(m, m', h, h, idx, m[p].left, p, t.left);
    RepFrame(m, m', h, h, idx, m[p].right, p, t.right);
  }

  /** The pointer to a node is a chunk of the node's size. */
  lemma {:induction false} NodeAtPath(m: Memory, h: Heads, idx: nat, root: Ptr, par: Ptr, tree: Tree, path: Path)
    requires Rep(m, h, idx, root, par, tree) && IsPath(tree, path) && At(tree, path).Node?
    ensures var p := Root(At(tree, path));
      && Rep(m, h, idx, p, ParentAt(par, tree, path), At(tree, path))
      && p in At(tree, path).ring && p in m && p in h && h[p].size == At(tree, path).size && p > 0
      && m[p].left == Root(At(tree, path).left) && m[p].right == Root(At(tree, path).right)
      && (m[p].left == 0 <==> At(tree, path).left.Nil?) && (m[p].right == 0 <==> At(tree, path).right.Nil?)
  {
    RepAt(m, h, idx, root, par, tree, path);
    var t := At(tree, path);
    var p := Root(t);
    assert Member(m, h, idx, t.ring[0], t.size);
    RepRoot(m, h, idx, m[p].left, p, t.left);
    RepRoot(m, h, idx, m[p].right, p, t.right);
  }

  /** A walk by key bits has reached the subtree at `path`, which covers [lo, lo + 2^w). */
  ghost predicate Walk(tree: Tree, size: nat, lo0: nat, w0: nat, path: Path, key: nat, lo: nat, w: nat) {
    && Shaped(tree, lo0, w0) && lo0 <= size < lo0 + Pow2(w0)
    && IsPath(tree, path) && At(tree, path).Node?
    && Shaped(At(tree, path), lo, w) && KeyFor(key, size, lo, w)
    && InsertPath(tree, size, lo0, w0) == path + InsertPath(At(tree, path), size, lo, w)
  }

  /** The start of the half of [lo, lo + 2^w) that a child covers. */
  function HalfLow(lo: nat, w: nat, d: bool): nat
    requires w > 0
  {
    if d then lo + Pow2(w - 1) else lo
  }

  lemma {:induction false} DescendByKey(here: Tree, size: nat, key: nat, lo: nat, w: nat)
    requires here.Node? && here.size != size && Shaped(here, lo, w) && KeyFor(key, size, lo, w)
    ensures w > 0
    ensures var d, lo' := TopBit(key) == 1, HalfLow(lo, w, TopBit(key) == 1);
      && Shaped(Child(here, d), lo', w - 1) && KeyFor(Double64(key), size, lo', w - 1)
      && InsertPath(here, size, lo, w) == [d] + InsertPath(Child(here, d), size, lo', w - 1)
  {
    Descend(here, size, lo, w);
    NextKey(key, size, lo, w);
  }

  lemma {:induction false} PathAssoc(a: Path, d: bool, b: Path)
    ensures a + ([d] + b) == a + [d] + b
    ensures a + [] == a
  {}

  lemma {:induction false} WalkStep(tree: Tree, size: nat, lo0: nat, w0: nat, path: Path, key: nat, lo: nat, w: nat)
    requires Walk(tree, size, lo0, w0, path, key, lo, w) && At(tree, path).size != size
    ensures w > 0 && IsPath(tree, path + [TopBit(key) == 1])
    ensures var d := TopBit(key) == 1;
      var c := Child(At(tree, path), d);
      && At(tree, path + [d]) == c
      && (c.Nil? ==> InsertPath(tree, size, lo0, w0) == path + [d])
      && (c.Node? ==> Walk(tree, size, lo0, w0, path + [d], Double64(key), HalfLow(lo, w, TopBit(key) == 1), w - 1))
  {
    var here := At(tree, path);
    DescendByKey(here, size, key, lo, w);
    var d := TopBit(key) == 1;
    var lo' := HalfLow(lo, w, TopBit(key) == 1);
    AtExtend(tree, path, d);
    PathAssoc(path, d, InsertPath(Child(here, d), size, lo', w - 1));
    PathAssoc(path + [d], d, []);
  }

  /** The walk of insert_large_chunk, down to the node of that size or to a missing child. */
  method FindPlace(links: Memory, h: Heads, root: Ptr, i: BinIndex, size: nat, ghost tree: Tree)
    returns (t: Ptr, found: bool, right: bool, ghost path: Path)
    requires Rep(links, h, i, root, TreeBinAt(i), tree) && tree.Node? && Shaped(tree, Low(i), Width(i))
    requires Low(i) <= size < Low(i) + Pow2(Width(i)) && size < TWO_TO_THE_64
    ensures t in h && (found <==> h[t].size == size)
    ensures IsPath(tree, path) && At(tree, path).Node? && t == Root(At(tree, path))
    ensures found ==> InsertPath(tree, size, Low(i), Width(i)) == path && At(tree, path).size == size
    ensures !found ==> InsertPath(tree, size, Low(i), Width(i)) == path + [right] && Child(At(tree, path), right).Nil?
  {
    t := root;
    var key := Shl64(size, LeftShift(i));
    FirstKey(size, i);
    ghost var lo, w := Low(i), Width(i);
    path := [];
    found, right := true, false;
    assert [] + InsertPath(tree, size, lo, w) == InsertPath(tree, size, lo, w);
    NodeAtPath(links, h, i, root, TreeBinAt(i), tree, path);
    while h[t].size != size
      invariant Walk(tree, size, Low(i), Width(i), path, key, lo, w)
      invariant t == Root(At(tree, path)) && t in h && h[t].size == At(tree, path).size
      decreases At(tree, path)
    {
      NodeAtPath(links, h, i, root, TreeBinAt(i), tree, path);
      WalkStep(tree, size, Low(i), Width(i), path, key, lo, w);
      right := TopBit(key) == 1;
      var c := if right then links[t].right else links[t].left;
      if c == 0 {
        found := false;
        return;
      }
      t := c;
      lo, w := HalfLow(lo, w, TopBit(key) == 1), w - 1;
      key := Double64(key);
      path := path + [right];
      NodeAtPath(links, h, i, root, TreeBinAt(i), tree, path);
    }
    PathAssoc(path, right, []);
  }

  /** Memory after insert_large_chunk makes `x` a new leaf under the chunk `p`. */
  function Hang(m: Memory, p: Ptr, right: bool, x: Ptr, idx: nat): Memory
    requires p in m && p != x
  {
    m[x := Cell(x, x, 0, 0, p, idx)][p := SetChild(m[p], right, x)]
  }

  lemma {:induction false} InsertedAtChild(m: Memory, h: Heads, i: BinIndex, root: Ptr, tree: Tree, path: Path, right: bool, x: Ptr, size: nat)
    requires Rep(m, h, i, root, TreeBinAt(i), tree) && Separate(tree)
    requires IsPath(tree, path) && At(tree, path).Node? && Child(At(tree, path), right).Nil?
    requires x > 0 && x !in Chunks(tree) && x in h && h[x].size == size
    ensures var p := Root(At(tree, path));
      && p in m && p != x && p in Chunks(tree) && IsPath(tree, path + [right])
      && At(tree, path + [right]).Nil?
      && Rep(Hang(m, p, right, x, i), h, i, root, TreeBinAt(i), Put(tree, path + [right], Node(size, [x], Nil, Nil)))
  {
    hide Separate, Put, Rep;
    var p := Root(At(tree, path));
    NodeAtPath(m, h, i, root, TreeBinAt(i), tree, path);
    ChunksAt(tree, path);
    AtExtend(tree, path, right);
    ParentExtend(TreeBinAt(i), tree, path, right);
    var m' := Hang(m, p, right, x, i);
    LoneNode(m', h, i, x, p, size);
    RepPut(m, m', h, i, root, TreeBinAt(i), tree, path + [right], Node(size, [x], Nil, Nil), x);
  }

  lemma {:induction false} InsertedInRing(m: Memory, h: Heads, i: BinIndex, root: Ptr, tree: Tree, path: Path, x: Ptr)
    requires Rep(m, h, i, root, TreeBinAt(i), tree) && Separate(tree)
    requires IsPath(tree, path) && At(tree, path).Node?
    requires x > 0 && x in m && x !in Chunks(tree) && x in h && h[x].size == At(tree, path).size
    ensures var p, t := Root(At(tree, path)), At(tree, path);
      && p in m && p != x && m[p].fd in m && m[p].fd != x && p in Chunks(tree) && m[p].fd in Chunks(tree)
      && t.ring != []
      && Rep(Chain(m, p, x, i), h, i, root, TreeBinAt(i), Put(tree, path, InsertHere(t, t.size, x)))
  {
    hide Rep, Separate, Put, InsertHere, Shaped, IsPath;
    var t := At(tree, path);
    var p := Root(t);
    NodeAtPath(m, h, i, root, TreeBinAt(i), tree, path);
    ChunksAt(tree, path);
    var par := ParentAt(TreeBinAt(i), tree, path);
    ChainedNode(m, h, i, p, par, t, x);
    assert m[p].fd in Chunks(t);
    RepPutInPlace(m, Chain(m, p, x, i), h, i, root, TreeBinAt(i), tree, path, InsertHere(t, t.size, x));
  }

  lemma {:induction false} ChainChanges(m: Memory, p: Ptr, x: Ptr, idx: nat, chunks: set<Ptr>)
    requires x in m && p in m && p != x && m[p].fd in m && m[p].fd != x && p in chunks && m[p].fd in chunks
    ensures Chain(m, p, x, idx).Keys == m.Keys && LinksChangedAt(m, Chain(m, p, x, idx), {x} + chunks)
  {}

  lemma {:induction false} HangChanges(m: Memory, p: Ptr, right: bool, x: Ptr, idx: nat, chunks: set<Ptr>)
    requires x in m && p in m && p != x && p in chunks
    ensures Hang(m, p, right, x, idx).Keys == m.Keys && LinksChangedAt(m, Hang(m, p, right, x, idx), {x} + chunks)
  {}

  /** The body of insert_large_chunk, on the tree of bin `i`: memory and tree pointer afterwards. */
  method LinkLarge(links: Memory, h: Heads, root: Ptr, i: BinIndex, x: Ptr, size: nat, marked: bool, ghost tree: Tree)
    returns (links': Memory, root': Ptr)
    requires Rep(links, h, i, root, TreeBinAt(i), tree) && Shaped(tree, Low(i), Width(i)) && Separate(tree)
    requires Low(i) <= size < Low(i) + Pow2(Width(i)) && size < TWO_TO_THE_64
    requires marked <==> tree.Node?
    requires x > 0 && x in links && x !in Chunks(tree) && x in h && h[x].size == size
    ensures Rep(links', h, i, root', TreeBinAt(i), Insert(tree, size, x, Low(i), Width(i)))
    ensures links'.Keys == links.Keys && LinksChangedAt(links, links', {x} + Chunks(tree))
  {
    if !marked {
      links' := links[x := Cell(x, x, 0, 0, TreeBinAt(i), i)];
      root' := x;
      LoneNode(links', h, i, x, TreeBinAt(i), size);
    } else {
      root' := root;
      links' := LinkIntoTree(links, h, root, i, x, size, tree);
    }
  }

  method LinkIntoTree(links: Memory, h: Heads, root: Ptr, i: BinIndex, x: Ptr, size: nat, ghost tree: Tree)
    returns (links': Memory)
    requires Rep(links, h, i, root, TreeBinAt(i), tree) && Shaped(tree, Low(i), Width(i)) && Separate(tree)
    requires Low(i) <= size < Low(i) + Pow2(Width(i)) && size < TWO_TO_THE_64 && tree.Node?
    requires x > 0 && x in links && x !in Chunks(tree) && x in h && h[x].size == size
    ensures Rep(links', h, i, root, TreeBinAt(i), Insert(tree, size, x, Low(i), Width(i)))
    ensures links'.Keys == links.Keys && LinksChangedAt(links, links', {x} + Chunks(tree))
  {
    var t, found, right;
    ghost var path;
    t, found, right, path := FindPlace(links, h, root, i, size, tree);
    InsertIsPut(tree, size, x, Low(i), Width(i));
    if found {
      InsertedInRing(links, h, i, root, tree, path, x);
      ChainChanges(links, t, x, i, Chunks(tree));
      links' := Chain(links, t, x, i);
    } else {
      InsertedAtChild(links, h, i, root, tree, path, right, x, size);
      HangChanges(links, t, right, x, i, Chunks(tree));
      links' := Hang(links, t, right, x, i);
    }
  }

  // ---------- unlinking

  /** A subtree under a new parent. */
  lemma {:induction false} Reparent(m: Memory, m': Memory, h: Heads, idx: nat, c: Ptr, par: Ptr, par': Ptr, t: Tree)
    requires Rep(m, h, idx, c, par, t) && t.Node? && c in m && Separate(t)
    requires c in m' && m'[c] == m[c].(parent := par')
    requires forall q :: q in Chunks(t) && q != c && q in m ==> q in m' && m'[q] == m[q]
    ensures Rep(m', h, idx, c, par', t)
  {
    RingFrame(m, m', t.ring);
    forall k | 0 <= k < |t.ring| ensures Member(m', h, idx, t.ring[k], t.size) {
      assert Member(m, h, idx, t.ring[k], t.size);
    }
    forall k | 1 <= k < |t.ring| ensures Chained(m', t.ring[k]) { assert Chained(m, t.ring[k]); }
    assert c in t.ring;
    RepFrame(m, m', h, h, idx, m[c].left, c, t.left);
    RepFrame(m, m', h, h, idx, m[c].right, c, t.right);
  }

  /** `R->parent = XP`, then X's children, if any, move under R. */
  function Adopt(m: Memory, x: Ptr, r: Ptr, xp: Ptr): (m': Memory)
    requires x in m && r in m && r != x
    requires m[x].left != 0 ==> m[x].left in m && m[x].left != r && m[x].left != x
    requires m[x].right != 0 ==> m[x].right in m && m[x].right != r && m[x].right != x
    requires m[x].left != 0 ==> m[x].left != m[x].right
    ensures m'.Keys == m.Keys && m'[x] == m[x]
    ensures m'[r].fd == m[r].fd && m'[r].bk == m[r].bk && m'[r].index == m[r].index && m'[r].parent == xp
    ensures m'[r].left == if m[x].left != 0 then m[x].left else m[r].left
    ensures m'[r].right == if m[x].right != 0 then m[x].right else m[r].right
    ensures m[x].left != 0 ==> m'[m[x].left] == m[m[x].left].(parent := r)
    ensures m[x].right != 0 ==> m'[m[x].right] == m[m[x].right].(parent := r)
    ensures forall q :: q in m && q != r && (m[x].left == 0 || q != m[x].left) && (m[x].right == 0 || q != m[x].right)
                        ==> m'[q] == m[q]
  {
    var c0, c1 := m[x].left, m[x].right;
    var m1 := m[r := m[r].(parent := xp)];
    var m2 := if c0 != 0 then m1[r := m1[r].(left := c0)][c0 := m1[c0].(parent := r)] else m1;
    if c1 != 0 then m2[r := m2[r].(right := c1)][c1 := m2[c1].(parent := r)] else m2
  }

  /** The chunks of a ring other than its head carry no tree links; nor does a leaf. */
  ghost predicate Unattached(m: Memory, h: Heads, idx: nat, ring: seq<Ptr>, size: nat) {
    && ring != [] && Ring(m, ring)
    && (forall q :: q in ring ==> Member(m, h, idx, q, size))
    && (forall q :: q in ring && q != ring[0] ==> Chained(m, q))
    && m[ring[0]].left == 0 && m[ring[0]].right == 0
  }

  /** A ring that replaces the chunk `x` as the node over x's children. */
  lemma {:induction false} Adopted(m: Memory, h: Heads, idx: nat, x: Ptr, xp: Ptr, ring: seq<Ptr>, size: nat, l: Tree, r: Tree)
    requires x in m && Unattached(m, h, idx, ring, size)
    requires Rep(m, h, idx, m[x].left, x, l) && Rep(m, h, idx, m[x].right, x, r)
    requires Separate(l) && Separate(r) && Chunks(l) !! Chunks(r) && x !in ring && x !in Chunks(l) && x !in Chunks(r)
    requires forall q :: q in ring ==> q !in Chunks(l) && q !in Chunks(r)
    ensures AdoptReady(m, x, ring[0])
    ensures Rep(Adopt(m, x, ring[0], xp), h, idx, ring[0], xp, Node(size, ring, l, r))
  {
    var p := ring[0];
    ChildFacts(m, h, idx, m[x].left, x, l);
    ChildFacts(m, h, idx, m[x].right, x, r);
    var m' := Adopt(m, x, p, xp);
    var t := Node(size, ring, l, r);
    AdoptedNode(m, h, idx, x, xp, ring, size, l, r);
    if l.Node? { Reparent(m, m', h, idx, m[x].left, x, p, l); }
    if r.Node? { Reparent(m, m', h, idx, m[x].right, x, p, r); }
  }

  ghost predicate AdoptReady(m: Memory, x: Ptr, p: Ptr) {
    && x in m && p in m && p != x
    && (m[x].left != 0 ==> m[x].left in m && m[x].left != p && m[x].left != x)
    && (m[x].right != 0 ==> m[x].right in m && m[x].right != p && m[x].right != x)
    && (m[x].left != 0 ==> m[x].left != m[x].right)
  }

  lemma {:induction false} ChildFacts(m: Memory, h: Heads, idx: nat, c: Ptr, par: Ptr, t: Tree)
    requires Rep(m, h, idx, c, par, t)
    ensures c == 0 <==> t.Nil?
    ensures c != 0 ==> c in m && c in Chunks(t) && c > 0
  {}

  lemma {:induction false} AdoptedNode(m: Memory, h: Heads, idx: nat, x: Ptr, xp: Ptr, ring: seq<Ptr>, size: nat, l: Tree, r: Tree)
    requires Unattached(m, h, idx, ring, size) && AdoptReady(m, x, ring[0])
    requires m[x].left == 0 || m[x].left !in ring
    requires m[x].right == 0 || m[x].right !in ring
    ensures NodeAt(Adopt(m, x, ring[0], xp), h, idx, ring[0], xp, Node(size, ring, l, r))
  {
    var m' := Adopt(m, x, ring[0], xp);
    assert forall q :: q in ring ==> q > 0 by {
      forall q | q in ring ensures q > 0 { assert Member(m, h, idx, q, size); }
    }
    RingFrame(m, m', ring);
    forall k | 0 <= k < |ring| ensures Member(m', h, idx, ring[k], size) { assert Member(m, h, idx, ring[k], size); }
    forall k | 1 <= k < |ring| ensures Chained(m', ring[k]) { assert Chained(m, ring[k]); }
  }

  /** Memory `m1` still has `x` over its old children, and a loose ring that is to take x's place. */
  ghost predicate Detached(m: Memory, m1: Memory, h: Heads, idx: nat, x: Ptr, t: Tree, u: Tree) {
    && x in m1 && x in Chunks(t) && x !in Chunks(u) && m1.Keys == m.Keys && x > 0
    && u.Node? && Unattached(m1, h, idx, u.ring, u.size)
    && Rep(m1, h, idx, m1[x].left, x, u.left) && Rep(m1, h, idx, m1[x].right, x, u.right)
    && Separate(u) && Chunks(u) <= Chunks(t)
    && (forall c :: c in m && c !in Chunks(t) ==> m1[c] == m[c])
  }

  lemma {:induction false} MembersOf(m: Memory, h: Heads, idx: nat, p: Ptr, par: Ptr, t: Tree, q: Ptr)
    requires NodeAt(m, h, idx, p, par, t) && q in t.ring
    ensures Member(m, h, idx, q, t.size) && (q != p ==> Chained(m, q))
  {
    var k :| 0 <= k < |t.ring| && t.ring[k] == q;
    assert Member(m, h, idx, t.ring[k], t.size);
    if k > 0 { assert Chained(m, t.ring[k]); }
  }

  /** Unlinking `x` from a larger ring leaves a ring without it. */
  lemma {:induction false} BridgedRing(m: Memory, h: Heads, idx: nat, p: Ptr, par: Ptr, t: Tree, x: Ptr)
    requires NodeAt(m, h, idx, p, par, t) && x in t.ring && |t.ring| > 1
    ensures x in m && m[x].fd in m && m[x].bk in m && m[x].fd in t.ring && m[x].bk in t.ring
    ensures m[x].fd != x && m[x].bk != x
    ensures var m1 := Bridge(m, m[x].bk, m[x].fd);
      && Ring(m1, Without(t.ring, x))
      && (forall q :: q in t.ring ==> Member(m1, h, idx, q, t.size) && (q != p ==> Chained(m1, q)))
      && (forall q :: q in m && q !in t.ring ==> m1[q] == m[q])
      && m1[x] == m[x] && m1[p].left == m[p].left && m1[p].right == m[p].right && m1[p].parent == m[p].parent
  {
    RingNeighbours(m, t.ring, x);
    RingBridge(m, t.ring, x);
    var m1 := Bridge(m, m[x].bk, m[x].fd);
    forall q | q in t.ring ensures Member(m1, h, idx, q, t.size) && (q != p ==> Chained(m1, q)) {
      MembersOf(m, h, idx, p, par, t, q);
    }
  }

  /** A chained chunk leaves its ring; the node stays where it is. */
  lemma {:induction false} ChainedUnlinked(m: Memory, h: Heads, idx: nat, p: Ptr, par: Ptr, t: Tree, x: Ptr)
    requires Rep(m, h, idx, p, par, t) && t.Node? && Separate(t) && x in t.ring && x != p
    ensures x in m && m[x].fd in m && m[x].bk in m && m[x].bk != x && m[x].parent == 0
    ensures Rep(Bridge(m, m[x].bk, m[x].fd), h, idx, p, par, DropHere(t, x))
    ensures forall q :: q in m && q !in Chunks(t) ==> Bridge(m, m[x].bk, m[x].fd)[q] == m[q]
  {
    var k :| 0 <= k < |t.ring| && t.ring[k] == x;
    BridgedRing(m, h, idx, p, par, t, x);
    MembersOf(m, h, idx, p, par, t, x);
    var m1 := Bridge(m, m[x].bk, m[x].fd);
    WithoutContents(t.ring, x);
    var u := DropHere(t, x);
    assert u.ring[0] == p by { assert Without(t.ring, x) == [p] + Without(t.ring[1..], x); }
    NodeFromMembers(m1, h, idx, p, par, u);
    RepFrame(m, m1, h, h, idx, m[p].left, p, t.left);
    RepFrame(m, m1, h, h, idx, m[p].right, p, t.right);
  }

  lemma {:induction false} NodeFromMembers(m: Memory, h: Heads, idx: nat, p: Ptr, par: Ptr, t: Tree)
    requires t.Node? && t.ring != [] && t.ring[0] == p && Ring(m, t.ring) && p in m && m[p].parent == par
    requires forall q :: q in t.ring ==> Member(m, h, idx, q, t.size) && (q != p ==> Chained(m, q))
    ensures NodeAt(m, h, idx, p, par, t)
  {
    assert Member(m, h, idx, t.ring[0], t.size);
    forall k | 1 <= k < |t.ring| ensures Chained(m, t.ring[k]) { assert t.ring[k] in t.ring && t.ring[k] != p; }
  }

  lemma {:induction false} HeadlessRing(m: Memory, ring: seq<Ptr>, x: Ptr)
    requires |ring| > 1 && ring[0] == x && Ring(m, Without(ring, x))
    ensures Ring(m, [ring[|ring| - 1]] + ring[1..|ring| - 1])
  {
    var n := |ring| - 1;
    assert Without(ring, x) == ring[1..];
    RingRotate(m, ring[1..]);
    assert ring[1..][..n - 1] == ring[1..n];
    assert ring[1..][n - 1] == ring[n];
  }

  /** The head of a larger ring: its predecessor in the ring takes its place. */
  lemma {:induction false} HeadDetached(m: Memory, h: Heads, idx: nat, x: Ptr, par: Ptr, t: Tree)
    requires Rep(m, h, idx, x, par, t) && t.Node? && Separate(t) && |t.ring| > 1
    ensures x in m && x in t.ring && m[x].fd in m && m[x].bk in m && m[x].bk != x
    ensures DropHere(t, x).Node? && m[x].bk == Root(DropHere(t, x))
    ensures Detached(m, Bridge(m, m[x].bk, m[x].fd), h, idx, x, t, DropHere(t, x))
  {
    assert x == t.ring[0];
    BridgedRing(m, h, idx, x, par, t, x);
    var m1 := Bridge(m, m[x].bk, m[x].fd);
    HeadlessRing(m1, t.ring, x);
    RingWithoutHead(t.ring);
    assert m[t.ring[0]].bk == Prev(t.ring, 0) == t.ring[|t.ring| - 1];
    var u := DropHere(t, x);
    DropHereChunks(t, x);
    hide Ring;
    assert Unattached(m1, h, idx, u.ring, u.size) by {
      forall q | q in u.ring ensures q in t.ring && q != x {}
      assert u.ring[0] in u.ring && Chained(m1, u.ring[0]);
    }
    hide Unattached, Member, Chained, DropHere;
    RepFrame(m, m1, h, h, idx, m[x].left, x, t.left);
    RepFrame(m, m1, h, h, idx, m[x].right, x, t.right);
  }

  lemma {:induction false} NodeParts(m: Memory, h: Heads, idx: nat, p: Ptr, par: Ptr, t: Tree)
    requires Rep(m, h, idx, p, par, t) && t.Node?
    ensures p in m && p > 0 && p in t.ring && p == Root(t)
    ensures Rep(m, h, idx, m[p].left, p, t.left) && Rep(m, h, idx, m[p].right, p, t.right)
  {
    assert Member(m, h, idx, t.ring[0], t.size);
  }

  /** What the node becomes: its leaf's chunks above its own subtrees without the leaf. */
  lemma {:induction false} LeafMoves(t: Tree, x: Ptr)
    requires t.Node? && Separate(t) && |t.ring| == 1 && (t.left.Node? || t.right.Node?) && x in t.ring
    ensures var path := LeafPath(t);
      var leaf, rest, u := At(t, path), Put(t, path, Nil), DropHere(t, x);
      && path != [] && leaf.Node? && leaf.left.Nil? && leaf.right.Nil? && rest.Node? && rest.ring == t.ring
      && u == Node(leaf.size, leaf.ring, rest.left, rest.right) && Root(u) == Root(leaf)
      && Separate(u) && Chunks(u) <= Chunks(t) && x !in Chunks(u)
  {
    hide Separate, Put, At;
    LeafIsLeaf(t);
    LeafChunks(t);
    DropHereChunks(t, x);
  }

  /** Clearing the slot of the leaf leaves the rest of the tree, and the leaf's chunks by themselves. */
  lemma {:induction false} LeafCut(m: Memory, h: Heads, idx: nat, x: Ptr, par: Ptr, t: Tree, path: Path)
    requires Rep(m, h, idx, x, par, t) && Separate(t) && IsPath(t, path) && path != []
    requires At(t, path).Node? && At(t, path).left.Nil? && At(t, path).right.Nil?
    ensures var leaf, rp := At(t, path), ParentAt(par, t, path);
      && rp in m && rp in Chunks(t) && Root(leaf) != 0
      && var m1 := m[rp := SetChild(m[rp], path[|path| - 1], 0)];
        Rep(m1, h, idx, x, par, Put(t, path, Nil)) && Unattached(m1, h, idx, leaf.ring, leaf.size)
  {
    hide Separate, Put, At, Unattached, ParentAt;
    var leaf, rp := At(t, path), ParentAt(par, t, path);
    ParentInside(m, h, idx, x, par, t, path);
    NodeAtPath(m, h, idx, x, par, t, path);
    RepSizes(m, h, idx, x, par, t, rp);
    var m1 := m[rp := SetChild(m[rp], path[|path| - 1], 0)];
    RepPut(m, m1, h, idx, x, par, t, path, Nil, 0);
    LeafUnattached(m, m1, h, idx, rp, leaf, rp);
  }

  /** A leaf below the node is cut off, to take the node's place. */
  lemma {:induction false} LeafDetached(m: Memory, h: Heads, idx: nat, x: Ptr, par: Ptr, t: Tree)
    requires Rep(m, h, idx, x, par, t) && t.Node? && Separate(t) && |t.ring| == 1 && (t.left.Node? || t.right.Node?)
    ensures var path := LeafPath(t);
      var rp := ParentAt(par, t, path);
      && path != [] && rp in m && x in t.ring && DropHere(t, x).Node? && Root(At(t, path)) == Root(DropHere(t, x))
      && Root(At(t, path)) != 0
      && Detached(m, m[rp := SetChild(m[rp], path[|path| - 1], 0)], h, idx, x, t, DropHere(t, x))
  {
    hide Rep, DropHere, Separate, At, Put, Unattached, ParentAt, LeafPath;
    var path := LeafPath(t);
    NodeParts(m, h, idx, x, par, t);
    LeafMoves(t, x);
    LeafCut(m, h, idx, x, par, t, path);
    var rp := ParentAt(par, t, path);
    var m1 := m[rp := SetChild(m[rp], path[|path| - 1], 0)];
    NodeParts(m1, h, idx, x, par, Put(t, path, Nil));
  }

  lemma {:induction false} LeafUnattached(m: Memory, m1: Memory, h: Heads, idx: nat, par: Ptr, leaf: Tree, rp: Ptr)
    requires leaf.Node? && leaf.left.Nil? && leaf.right.Nil?
    requires Rep(m, h, idx, Root(leaf), par, leaf) && rp !in leaf.ring
    requires m1.Keys == m.Keys && forall q :: q in m && q != rp ==> m1[q] == m[q]
    ensures Unattached(m1, h, idx, leaf.ring, leaf.size)
  {
    RingFrame(m, m1, leaf.ring);
    forall q | q in leaf.ring ensures Member(m1, h, idx, q, leaf.size) && (q != leaf.ring[0] ==> Chained(m1, q)) {
      MembersOf(m, h, idx, Root(leaf), par, leaf, q);
    }
  }

  lemma {:induction false} UnattachedFrame(m: Memory, m': Memory, h: Heads, idx: nat, ring: seq<Ptr>, size: nat)
    requires Unattached(m, h, idx, ring, size) && forall q :: q in ring && q in m ==> q in m' && m'[q] == m[q]
    ensures Unattached(m', h, idx, ring, size)
  {
    RingFrame(m, m', ring);
    forall q | q in ring ensures Member(m', h, idx, q, size) && (q != ring[0] ==> Chained(m', q)) {
      assert Member(m, h, idx, q, size);
      if q != ring[0] { assert Chained(m, q); }
    }
    assert ring[0] in ring;
  }

  /** The pointer to the tree at `path`, in its parent chunk or in the bin, set to `q`. */
  function SetSlot(m: Memory, path: Path, par: Ptr, q: Ptr): Memory
    requires path != [] ==> par in m
  {
    if path == [] then m else m[par := SetChild(m[par], path[|path| - 1], q)]
  }

  lemma {:induction false} DetachedFrame(m: Memory, m1: Memory, m2: Memory, h: Heads, idx: nat, x: Ptr, t: Tree, u: Tree)
    requires Detached(m, m1, h, idx, x, t, u) && m2.Keys == m1.Keys
    requires forall q :: q in Chunks(t) && q in m1 ==> m2[q] == m1[q]
    ensures m2[x] == m1[x] && Unattached(m2, h, idx, u.ring, u.size)
    ensures Rep(m2, h, idx, m2[x].left, x, u.left) && Rep(m2, h, idx, m2[x].right, x, u.right)
  {
    UnattachedFrame(m1, m2, h, idx, u.ring, u.size);
    RepFrame(m1, m2, h, h, idx, m1[x].left, x, u.left);
    RepFrame(m1, m2, h, h, idx, m1[x].right, x, u.right);
  }

  /** The loose ring takes x's place over x's children. */
  lemma {:induction false} ReattachedNode(m: Memory, m1: Memory, m2: Memory, h: Heads, i: BinIndex, t: Tree, x: Ptr, u: Tree, par: Ptr)
    requires Detached(m, m1, h, i, x, t, u) && m2.Keys == m1.Keys
    requires forall q :: q in Chunks(t) && q in m1 ==> m2[q] == m1[q]
    ensures AdoptReady(m2, x, Root(u))
    ensures Rep(Adopt(m2, x, Root(u), par), h, i, Root(u), par, u)
    ensures forall q :: q in m2 && q !in Chunks(t) ==> Adopt(m2, x, Root(u), par)[q] == m2[q]
  {
    DetachedFrame(m, m1, m2, h, i, x, t, u);
    SeparateParts(u, x);
    Adopted(m2, h, i, x, par, u.ring, u.size, u.left, u.right);
    ChildFacts(m2, h, i, m2[x].left, x, u.left);
    ChildFacts(m2, h, i, m2[x].right, x, u.right);
    AdoptChanges(m2, x, Root(u), par, Chunks(t));
  }

  lemma {:induction false} SlotOnly(m: Memory, m1: Memory, m3: Memory, par: Ptr, tree: Tree, path: Path, q: Ptr)
    requires IsPath(tree, path) && m1.Keys == m.Keys
    requires path != [] ==> ParentAt(par, tree, path) in m1 && ParentAt(par, tree, path) in Chunks(tree)
    requires forall c :: c in m && c !in Chunks(At(tree, path)) ==> m1[c] == m[c]
    requires var m2 := SetSlot(m1, path, ParentAt(par, tree, path), q);
      m3.Keys == m2.Keys && forall c :: c in m2 && c !in Chunks(At(tree, path)) ==> m3[c] == m2[c]
    requires Chunks(At(tree, path)) <= Chunks(tree)
    ensures m3.Keys == m.Keys && OnlySlotChanged(m, m3, par, tree, path, q) && LinksChangedAt(m, m3, Chunks(tree))
  {
    hide At, Chunks, ParentAt, IsPath;
  }

  /** ... and under x's parent. */
  lemma {:induction false} Reattached(m: Memory, m1: Memory, h: Heads, i: BinIndex, root: Ptr, tree: Tree, path: Path, x: Ptr, u: Tree)
    requires Rep(m, h, i, root, TreeBinAt(i), tree) && Separate(tree) && IsPath(tree, path)
    requires At(tree, path).Node? && Detached(m, m1, h, i, x, At(tree, path), u)
    ensures var par := ParentAt(TreeBinAt(i), tree, path);
      && (path != [] ==> par in m1 && par in Chunks(tree))
      && var m2 := SetSlot(m1, path, par, Root(u));
      && AdoptReady(m2, x, Root(u))
      && var m3 := Adopt(m2, x, Root(u), par);
      && m3.Keys == m.Keys && LinksChangedAt(m, m3, Chunks(tree))
      && Rep(m3, h, i, if path == [] then Root(u) else root, TreeBinAt(i), Put(tree, path, u))
  {
    hide Rep, Separate, Unattached, Put, At, ParentAt, Chunks, IsPath;
    var t := At(tree, path);
    var par := ParentAt(TreeBinAt(i), tree, path);
    ChunksAt(tree, path);
    if path != [] {
      ParentInside(m, h, i, root, TreeBinAt(i), tree, path);
      RepSizes(m, h, i, root, TreeBinAt(i), tree, par);
    }
    var m2 := SetSlot(m1, path, par, Root(u));
    ReattachedNode(m, m1, m2, h, i, t, x, u, par);
    var m3 := Adopt(m2, x, Root(u), par);
    SlotOnly(m, m1, m3, TreeBinAt(i), tree, path, Root(u));
    RepPut(m, m3, h, i, root, TreeBinAt(i), tree, path, u, Root(u));
  }

  lemma {:induction false} SeparateParts(u: Tree, x: Ptr)
    requires u.Node? && Separate(u) && x !in Chunks(u)
    ensures Separate(u.left) && Separate(u.right) && Chunks(u.left) !! Chunks(u.right)
    ensures x !in u.ring && x !in Chunks(u.left) && x !in Chunks(u.right)
    ensures forall q :: q in u.ring ==> q !in Chunks(u.left) && q !in Chunks(u.right)
    ensures Chunks(u.left) <= Chunks(u) && Chunks(u.right) <= Chunks(u)
    ensures u.ring != [] ==> Root(u) in Chunks(u)
  {}

  lemma {:induction false} AdoptChanges(m: Memory, x: Ptr, r: Ptr, xp: Ptr, chunks: set<Ptr>)
    requires AdoptReady(m, x, r) && r in chunks
    requires m[x].left == 0 || m[x].left in chunks
    requires m[x].right == 0 || m[x].right in chunks
    ensures forall q :: q in m && q !in chunks ==> Adopt(m, x, r, xp)[q] == m[q]
  {}

  /** The last chunk of its size, in a leaf: the pointer to it is cleared. */
  lemma {:induction false} LeafGone(m: Memory, h: Heads, i: BinIndex, root: Ptr, tree: Tree, path: Path)
    requires Rep(m, h, i, root, TreeBinAt(i), tree) && Separate(tree) && IsPath(tree, path) && At(tree, path).Node?
    ensures var par := ParentAt(TreeBinAt(i), tree, path);
      && (path != [] ==> par in m && par in Chunks(tree))
      && var m2 := SetSlot(m, path, par, 0);
      && m2.Keys == m.Keys && LinksChangedAt(m, m2, Chunks(tree))
      && Rep(m2, h, i, if path == [] then 0 else root, TreeBinAt(i), Put(tree, path, Nil))
  {
    var par := ParentAt(TreeBinAt(i), tree, path);
    if path != [] {
      ParentInside(m, h, i, root, TreeBinAt(i), tree, path);
      RepSizes(m, h, i, root, TreeBinAt(i), tree, par);
    }
    RepPut(m, SetSlot(m, path, par, 0), h, i, root, TreeBinAt(i), tree, path, Nil, 0);
  }

  lemma {:induction false} LeafPathStep(t: Tree, path: Path)
    requires t.Node? && IsPath(t, path) && At(t, path).Node? && LeafPath(t) == path + LeafPath(At(t, path))
    ensures var here := At(t, path);
      && (here.right.Node? ==>
            && IsPath(t, path + [true]) && At(t, path + [true]) == here.right
            && LeafPath(t) == path + [true] + LeafPath(here.right))
      && (here.right.Nil? && here.left.Node? ==>
            && IsPath(t, path + [false]) && At(t, path + [false]) == here.left
            && LeafPath(t) == path + [false] + LeafPath(here.left))
      && (here.right.Nil? && here.left.Nil? ==> LeafPath(t) == path)
  {
    var here := At(t, path);
    AtExtend(t, path, true);
    AtExtend(t, path, false);
    PathAssoc(path, true, if here.right.Node? then LeafPath(here.right) else []);
    PathAssoc(path, false, if here.left.Node? then LeafPath(here.left) else []);
  }

  /** The descent of unlink_large_chunk to a leaf below `x`, remembering the slot that points to it. */
  method FindLeaf(links: Memory, ghost h: Heads, ghost i: nat, x: Ptr, ghost par: Ptr, ghost t: Tree)
    returns (r: Ptr, rp: Ptr, right: bool)
    requires Rep(links, h, i, x, par, t) && t.Node? && (t.left.Node? || t.right.Node?)
    ensures LeafPath(t) != [] && r == Root(At(t, LeafPath(t)))
    ensures rp == ParentAt(par, t, LeafPath(t)) && right == LeafPath(t)[|LeafPath(t)| - 1]
  {
    ghost var path: Path := [];
    r, rp, right := x, 0, false;
    assert [] + LeafPath(t) == LeafPath(t) && At(t, path) == t;
    NodeAtPath(links, h, i, x, par, t, path);
    hide Rep, At, ParentAt, LeafPath, IsPath;
    while links[r].right != 0 || links[r].left != 0
      invariant IsPath(t, path) && At(t, path).Node? && r == Root(At(t, path)) && r in links
      invariant LeafPath(t) == path + LeafPath(At(t, path))
      invariant path != [] ==> rp == ParentAt(par, t, path) && right == path[|path| - 1]
      invariant path == [] ==> r == x
      decreases At(t, path)
    {
      NodeAtPath(links, h, i, x, par, t, path);
      LeafPathStep(t, path);
      rp := r;
      right := links[r].right != 0;
      r := if right then links[r].right else links[r].left;
      ParentExtend(par, t, path, right);
      path := path + [right];
    }
    NodeAtPath(links, h, i, x, par, t, path);
    LeafPathStep(t, path);
  }

  /** Which child slot of the parent holds the chunk. */
  lemma {:induction false} SlotOf(m: Memory, h: Heads, idx: nat, p: Ptr, par: Ptr, t: Tree, path: Path)
    requires Rep(m, h, idx, p, par, t) && Separate(t) && IsPath(t, path) && path != [] && At(t, path).Node?
    ensures var c, x := ParentAt(par, t, path), Root(At(t, path));
      && c in m && c in Chunks(t) && c > 0 && (m[c].left == x <==> !path[|path| - 1]) && p != x
    decreases path
  {
    var d := path[0];
    var child := Child(t, d);
    var pc := if d then m[p].right else m[p].left;
    PathBelow(m, h, idx, p, par, t, path);
    ChildFacts(m, h, idx, m[p].left, p, t.left);
    ChildFacts(m, h, idx, m[p].right, p, t.right);
    NodeAtPath(m, h, idx, p, par, t, path);
    if path[1..] == [] {
    } else {
      SlotOf(m, h, idx, pc, p, child, path[1..]);
    }
  }

  /** The last part of unlink_large_chunk: the replacement `r`, if any, goes where the tree node `x` was. */
  method Replace(ghost m: Memory, m1: Memory, ghost h: Heads, root: Ptr, ghost i: BinIndex, x: Ptr, xp: Ptr, r: Ptr,
                 ghost tree: Tree, ghost path: Path)
    returns (links': Memory, root': Ptr)
    requires Rep(m, h, i, root, TreeBinAt(i), tree) && Separate(tree) && IsPath(tree, path)
    requires var t := At(tree, path);
      && t.Node? && x in t.ring && x == Root(t) && xp == ParentAt(TreeBinAt(i), tree, path)
      && (r != 0 ==> Detached(m, m1, h, i, x, t, DropHere(t, x)) && r == Root(DropHere(t, x)))
      && (r == 0 ==> m1 == m && DropHere(t, x).Nil?)
      && (root == x <==> path == [])
    ensures Rep(links', h, i, root', TreeBinAt(i), Put(tree, path, DropHere(At(tree, path), x)))
    ensures links'.Keys == m.Keys && LinksChangedAt(m, links', Chunks(tree))
  {
    ghost var t := At(tree, path);
    ghost var u := DropHere(t, x);
    if path != [] {
      SlotOf(m, h, i, root, TreeBinAt(i), tree, path);
      ParentInside(m, h, i, root, TreeBinAt(i), tree, path);
    }
    if r != 0 {
      Reattached(m, m1, h, i, root, tree, path, x, u);
    } else {
      LeafGone(m, h, i, root, tree, path);
    }
    hide Rep, DropHere, Put, At, Separate, Unattached, ParentAt, Chunks;
    links', root' := m1, root;
    if root == x {
      root' := r;
    } else if links'[xp].left == x {
      links' := links'[xp := links'[xp].(left := r)];
    } else {
      links' := links'[xp := links'[xp].(right := r)];
    }
    assert links' == SetSlot(m1, path, xp, r);
    if r != 0 { links' := Adopt(links', x, r, xp); }
  }

  /** unlink_large_chunk on the tree of bin `i`: memory and tree pointer afterwards. */
  method UnlinkFromTree(links: Memory, ghost h: Heads, root: Ptr, ghost i: BinIndex, x: Ptr, ghost tree: Tree)
    returns (links': Memory, root': Ptr)
    requires Rep(links, h, i, root, TreeBinAt(i), tree) && Separate(tree) && x in Chunks(tree) && x in links
    ensures Rep(links', h, i, root', TreeBinAt(i), Remove(tree, x))
    ensures links'.Keys == links.Keys && LinksChangedAt(links, links', Chunks(tree))
  {
    ghost var path := PathTo(tree, x);
    RemoveAt(tree, x);
    ghost var t := At(tree, path);
    NodeAtPath(links, h, i, root, TreeBinAt(i), tree, path);
    ChunksAt(tree, path);
    RootOrChained(links, h, i, root, tree, path, x);
    var xp := links[x].parent;
    links', root' := links, root;
    var r := 0;
    if links[x].bk != x {
      r := links[x].bk;
      var f := links[x].fd;
      if xp == 0 { ChainedUnlinked(links, h, i, Root(t), ParentAt(TreeBinAt(i), tree, path), t, x); }
      else { HeadDetached(links, h, i, x, ParentAt(TreeBinAt(i), tree, path), t); }
      links' := links'[f := links'[f].(bk := r)];
      links' := links'[r := links'[r].(fd := f)];
      assert links' == Bridge(links, r, f);
    } else if links[x].right != 0 || links[x].left != 0 {
      LeafDetached(links, h, i, x, ParentAt(TreeBinAt(i), tree, path), t);
      var rp, right;
      r, rp, right := FindLeaf(links, h, i, x, ParentAt(TreeBinAt(i), tree, path), t);
      links' := links'[rp := SetChild(links'[rp], right, 0)];
    }
    if xp == 0 {
      RepPutInPlace(links, links', h, i, root, TreeBinAt(i), tree, path, DropHere(t, x));
    } else {
      links', root' := Replace(links, links', h, root, i, x, xp, r, tree, path);
    }
  }

  /** A chunk is the head of its ring exactly when its parent link is set. */
  lemma {:induction false} RootOrChained(m: Memory, h: Heads, i: BinIndex, root: Ptr, tree: Tree, path: Path, x: Ptr)
    requires Rep(m, h, i, root, TreeBinAt(i), tree) && Separate(tree) && IsPath(tree, path)
    requires At(tree, path).Node? && x in At(tree, path).ring && x in m
    ensures var t := At(tree, path);
      && (m[x].parent == 0 <==> x != Root(t))
      && (m[x].parent != 0 ==> m[x].parent == ParentAt(TreeBinAt(i), tree, path))
      && (m[x].bk != x <==> |t.ring| > 1)
      && (x == Root(t) ==> (root == x <==> path == []))
  {
    var t := At(tree, path);
    NodeAtPath(m, h, i, root, TreeBinAt(i), tree, path);
    RingNeighbours(m, t.ring, x);
    MembersOf(m, h, i, Root(t), ParentAt(TreeBinAt(i), tree, path), t, x);
    RepRoot(m, h, i, root, TreeBinAt(i), tree);
    if path != [] { SlotOf(m, h, i, root, TreeBinAt(i), tree, path); }
  }
}
