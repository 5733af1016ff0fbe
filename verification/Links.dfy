/**
 Free chunks in memory: the link fields of chunk headers, circular rings of chunks, and the
 relation between a linked tree of chunks and the trie it represents.
 */
module Links {
  import opened MachineWords
  import opened Trie

  /** The size and in-use bits of a chunk's head word. */
  datatype Head = Head(size: nat, pinuse: bool, cinuse: bool)

  type Heads = map<Ptr, Head>

  /** The link fields of a malloc_tree_chunk; a small chunk or bin header uses only fd and bk. */
  datatype Cell = Cell(fd: Ptr, bk: Ptr, left: Ptr, right: Ptr, parent: Ptr, index: nat)

  type Memory = map<Ptr, Cell>

  // ---------- rings

  function Next(s: seq<Ptr>, k: nat): Ptr
    requires k < |s|
  {
    if k + 1 == |s| then s[0] else s[k + 1]
  }

  function Prev(s: seq<Ptr>, k: nat): Ptr
    requires k < |s|
  {
    if k == 0 then s[|s| - 1] else s[k - 1]
  }

  /** The fd and bk fields link the chunks of `s` in a circle. */
  ghost predicate Ring(m: Memory, s: seq<Ptr>) {
    && NoDuplicates(s)
    && forall k :: 0 <= k < |s| ==> s[k] in m && m[s[k]].fd == Next(s, k) && m[s[k]].bk == Prev(s, k)
  }

  lemma {:induction false} RingFrame(m: Memory, m': Memory, s: seq<Ptr>)
    requires Ring(m, s)
    requires forall p :: p in s ==> p in m' && m'[p].fd == m[p].fd && m'[p].bk == m[p].bk
    ensures Ring(m', s)
  {}

  /** Linking `x` between the first chunk and its successor. */
  lemma {:induction false} RingInsert(m: Memory, m': Memory, s: seq<Ptr>, x: Ptr)
    requires Ring(m, s) && s != [] && x !in s && x in m'
    requires m'[x].fd == m[s[0]].fd && m'[x].bk == s[0]
    requires forall p :: p in s ==> p in m'
    requires forall p :: p in s ==> m'[p].fd == if p == s[0] then x else m[p].fd
    requires forall p :: p in s ==> m'[p].bk == if p == m[s[0]].fd then x else m[p].bk
    ensures Ring(m', [s[0], x] + s[1..])
  {
    var s' := [s[0], x] + s[1..];
    RingWithSecond(s, x);
    var f := m[s[0]].fd;
    assert f == Next(s, 0);
    forall k | 0 <= k < |s'|
      ensures s'[k] in m' && m'[s'[k]].fd == Next(s', k) && m'[s'[k]].bk == Prev(s', k)
    {
      if k >= 2 {
        assert s'[k] == s[k - 1];
        assert m[s[k - 1]].fd == Next(s, k - 1) && m[s[k - 1]].bk == Prev(s, k - 1);
      }
    }
  }

  /** Memory after `b->fd = x; f->bk = x; x->fd = f; x->bk = b`. */
  function LinkBetween(m: Memory, b: Ptr, f: Ptr, x: Ptr): (m': Memory)
    requires b in m && f in m && x in m && x != b && x != f
    ensures m'.Keys == m.Keys
    ensures forall p :: p in m && p != b && p != f && p != x ==> m'[p] == m[p]
    ensures m'[x] == m[x].(fd := f, bk := b)
    ensures m'[b] == m[b].(fd := x, bk := if b == f then x else m[b].bk)
    ensures m'[f] == m[f].(fd := if b == f then x else m[f].fd, bk := x)
  {
    var m1 := m[b := m[b].(fd := x)];
    var m2 := m1[f := m1[f].(bk := x)];
    m2[x := m2[x].(fd := f, bk := b)]
  }

  lemma {:induction false} RingLinkBetween(m: Memory, s: seq<Ptr>, x: Ptr)
    requires Ring(m, s) && s != [] && x !in s && x in m
    ensures m[s[0]].fd in s
    ensures Ring(LinkBetween(m, s[0], m[s[0]].fd, x), [s[0], x] + s[1..])
  {
    assert m[s[0]].fd == Next(s, 0);
    var m' := LinkBetween(m, s[0], m[s[0]].fd, x);
    forall p | p in s ensures m'[p].fd == if p == s[0] then x else m[p].fd {}
    forall p | p in s ensures m'[p].bk == if p == m[s[0]].fd then x else m[p].bk {}
    RingInsert(m, m', s, x);
  }

  lemma {:induction false} RingOfTwo(m: Memory, b: Ptr, x: Ptr)
    requires b in m && x in m && b != x
    ensures Ring(LinkBetween(m, b, b, x), [b, x])
  {}

  /** Memory after `f->bk = b; b->fd = f`. */
  function Bridge(m: Memory, b: Ptr, f: Ptr): (m': Memory)
    requires b in m && f in m
    ensures m'.Keys == m.Keys
    ensures forall p :: p in m && p != b && p != f ==> m'[p] == m[p]
    ensures m'[b] == m[b].(fd := f, bk := if b == f then b else m[b].bk)
    ensures m'[f] == m[f].(fd := if b == f then f else m[f].fd, bk := b)
  {
    var m1 := m[f := m[f].(bk := b)];
    m1[b := m1[b].(fd := f)]
  }

  lemma {:induction false} RingNeighbours(m: Memory, s: seq<Ptr>, x: Ptr)
    requires Ring(m, s) && x in s
    ensures x in m && m[x].fd in s && m[x].bk in s && m[x].fd in m && m[x].bk in m
    ensures |s| > 1 ==> m[x].fd != x && m[x].bk != x
    ensures |s| == 1 ==> m[x].fd == x && m[x].bk == x
    ensures |s| > 1 ==> (m[x].fd == m[x].bk <==> |s| == 2)
  {
    var k :| 0 <= k < |s| && s[k] == x;
    assert m[s[k]].fd == Next(s, k) && m[s[k]].bk == Prev(s, k);
  }

  lemma {:induction false} RingBridge(m: Memory, s: seq<Ptr>, x: Ptr)
    requires Ring(m, s) && x in s && |s| > 1
    ensures m[x].fd in m && m[x].bk in m
    ensures Ring(Bridge(m, m[x].bk, m[x].fd), Without(s, x))
  {
    RingNeighbours(m, s, x);
    var m' := Bridge(m, m[x].bk, m[x].fd);
    var j :| 0 <= j < |s| && s[j] == x;
    RingRemove(m, m', s, j);
  }

  lemma {:induction false} WithoutIndex(s: seq<Ptr>, j: nat)
    requires j < |s| && NoDuplicates(s)
    ensures Without(s, s[j]) == s[..j] + s[j + 1..]
  {
    if j > 0 {
      WithoutIndex(s[1..], j - 1);
      assert Without(s, s[j]) == [s[0]] + Without(s[1..], s[1..][j - 1]);
      assert s[..j] + s[j + 1..] == [s[0]] + (s[1..][..j - 1] + s[1..][j..]);
    }
  }

  lemma {:induction false} NextWithout(s: seq<Ptr>, j: nat, k: nat)
    requires j < |s| && k < |s| - 1 && NoDuplicates(s)
    ensures var s', i := s[..j] + s[j + 1..], if k < j then k else k + 1;
      s'[k] == s[i] && Next(s', k) == if s[i] == Prev(s, j) then Next(s, j) else Next(s, i)
  {}

  lemma {:induction false} PrevWithout(s: seq<Ptr>, j: nat, k: nat)
    requires j < |s| && k < |s| - 1 && NoDuplicates(s)
    ensures var s', i := s[..j] + s[j + 1..], if k < j then k else k + 1;
      s'[k] == s[i] && Prev(s', k) == if s[i] == Next(s, j) then Prev(s, j) else Prev(s, i)
  {}

  /** Unlinking the chunk at position `j` of a ring of at least two. */
  lemma {:induction false} RingRemove(m: Memory, m': Memory, s: seq<Ptr>, j: nat)
    requires Ring(m, s) && j < |s| && |s| > 1
    requires forall p :: p in s && p != s[j] ==> p in m'
    requires forall p :: p in s && p != s[j] ==> m'[p].fd == if p == m[s[j]].bk then m[s[j]].fd else m[p].fd
    requires forall p :: p in s && p != s[j] ==> m'[p].bk == if p == m[s[j]].fd then m[s[j]].bk else m[p].bk
    ensures Ring(m', Without(s, s[j]))
  {
    var s' := s[..j] + s[j + 1..];
    WithoutIndex(s, j);
    WithoutContents(s, s[j]);
    forall k | 0 <= k < |s'|
      ensures s'[k] in m' && m'[s'[k]].fd == Next(s', k) && m'[s'[k]].bk == Prev(s', k)
    {
      var i := if k < j then k else k + 1;
      assert s[i] in s && s[i] != s[j];
      NextWithout(s, j, k);
      PrevWithout(s, j, k);
    }
  }

  /** A ring can be entered anywhere; here, at its last chunk. */
  lemma {:induction false} RingRotate(m: Memory, s: seq<Ptr>)
    requires Ring(m, s) && s != []
    ensures Ring(m, [s[|s| - 1]] + s[..|s| - 1])
  {
    var n := |s| - 1;
    var s' := [s[n]] + s[..n];
    forall k | 0 <= k < |s'|
      ensures s'[k] in m && m[s'[k]].fd == Next(s', k) && m[s'[k]].bk == Prev(s', k)
    {
      var i := if k == 0 then n else k - 1;
      assert s'[k] == s[i];
      assert m[s[i]].fd == Next(s, i) && m[s[i]].bk == Prev(s, i);
    }
  }

  // ---------- linked tries

  /** One tree node: its ring, its head's parent link, and clear tree links in the other chunks. */
  ghost predicate NodeAt(m: Memory, h: Heads, idx: nat, p: Ptr, par: Ptr, t: Tree) {
    && t.Node? && t.ring != [] && p > 0 && t.ring[0] == p && Ring(m, t.ring)
    && m[p].parent == par
    && (forall k :: 0 <= k < |t.ring| ==> Member(m, h, idx, t.ring[k], t.size))
    && (forall k :: 1 <= k < |t.ring| ==> Chained(m, t.ring[k]))
  }

  ghost predicate Member(m: Memory, h: Heads, idx: nat, q: Ptr, size: nat) {
    q > 0 && q in m && m[q].index == idx && q in h && h[q].size == size
  }

  ghost predicate Chained(m: Memory, q: Ptr) {
    q in m && m[q].parent == 0 && m[q].left == 0 && m[q].right == 0
  }

  /** The pointer `p`, stored under `par`, leads to a linked representation of `t`. */
  ghost predicate Rep(m: Memory, h: Heads, idx: nat, p: Ptr, par: Ptr, t: Tree)
    decreases t
  {
    match t
    case Nil => p == 0
    case Node(_, _, l, r) =>
      && NodeAt(m, h, idx, p, par, t)
      && Rep(m, h, idx, m[p].left, p, l)
      && Rep(m, h, idx, m[p].right, p, r)
  }

  /** The pointer to a represented tree. */
  function Root(t: Tree): Ptr {
    if t.Node? && t.ring != [] then t.ring[0] else 0
  }

  lemma {:induction false} RepRoot(m: Memory, h: Heads, idx: nat, p: Ptr, par: Ptr, t: Tree)
    requires Rep(m, h, idx, p, par, t)
    ensures p == Root(t) && (p == 0 <==> t.Nil?)
  {}

  ghost predicate Agree(m: Memory, m': Memory, h: Heads, h': Heads, s: set<Ptr>) {
    forall q :: q in s ==>
      (q in m ==> q in m' && m'[q] == m[q]) && (q in h ==> q in h' && h'[q].size == h[q].size)
  }

  lemma {:induction false} NodeFrame(m: Memory, m': Memory, h: Heads, h': Heads, idx: nat, p: Ptr, par: Ptr, t: Tree)
    requires NodeAt(m, h, idx, p, par, t) && Agree(m, m', h, h', set q | q in t.ring)
    ensures NodeAt(m', h', idx, p, par, t)
  {
    RingFrame(m, m', t.ring);
    forall k | 0 <= k < |t.ring| ensures Member(m', h', idx, t.ring[k], t.size) {
      assert Member(m, h, idx, t.ring[k], t.size);
    }
    forall k | 1 <= k < |t.ring| ensures Chained(m', t.ring[k]) { assert Chained(m, t.ring[k]); }
  }

  lemma {:induction false} RepFrame(m: Memory, m': Memory, h: Heads, h': Heads, idx: nat, p: Ptr, par: Ptr, t: Tree)
    requires Rep(m, h, idx, p, par, t) && Agree(m, m', h, h', Chunks(t))
    ensures Rep(m', h', idx, p, par, t)
    decreases t
  {
    if t.Node? {
      NodeFrame(m, m', h, h', idx, p, par, t);
      RepFrame(m, m', h, h', idx, m[p].left, p, t.left);
      RepFrame(m, m', h, h', idx, m[p].right, p, t.right);
    }
  }

  /** The chunk, or bin, that holds the pointer to the subtree at `path`. */
  function ParentAt(par: Ptr, t: Tree, path: Path): Ptr
    requires IsPath(t, path)
    decreases path
  {
    if path == [] then par else ParentAt(Root(t), if path[0] then t.right else t.left, path[1..])
  }

  lemma {:induction false} RepAt(m: Memory, h: Heads, idx: nat, p: Ptr, par: Ptr, t: Tree, path: Path)
    requires Rep(m, h, idx, p, par, t) && IsPath(t, path)
    ensures Rep(m, h, idx, Root(At(t, path)), ParentAt(par, t, path), At(t, path))
    decreases path
  {
    RepRoot(m, h, idx, p, par, t);
    if path != [] {
      RepAt(m, h, idx, if path[0] then m[p].right else m[p].left, p, if path[0] then t.right else t.left, path[1..]);
    }
  }

  lemma {:induction false} ParentExtend(par: Ptr, t: Tree, path: Path, d: bool)
    requires IsPath(t, path) && At(t, path).Node?
    ensures IsPath(t, path + [d]) && ParentAt(par, t, path + [d]) == Root(At(t, path))
    decreases path
  {
    AtExtend(t, path, d);
    if path == [] {
      assert [d][1..] == [];
    } else {
      assert (path + [d])[1..] == path[1..] + [d];
      ParentExtend(Root(t), if path[0] then t.right else t.left, path[1..], d);
    }
  }

  /** Setting child[0] or child[1] of a cell. */
  function SetChild(c: Cell, d: bool, q: Ptr): Cell { if d then c.(right := q) else c.(left := q) }

  /** Outside the subtree at `path`, only the pointer to that subtree changed, to `q`. */
  ghost predicate OnlySlotChanged(m: Memory, m': Memory, par: Ptr, t: Tree, path: Path, q: Ptr)
    requires IsPath(t, path)
  {
    forall c :: c in Chunks(t) && c !in Chunks(At(t, path)) && c in m ==>
      c in m' && m'[c] == if path != [] && c == ParentAt(par, t, path) then SetChild(m[c], path[|path| - 1], q) else m[c]
  }

  lemma {:induction false} NodeSetChild(m: Memory, m': Memory, h: Heads, idx: nat, p: Ptr, par: Ptr, t: Tree, d: bool, q: Ptr)
    requires NodeAt(m, h, idx, p, par, t)
    requires forall c :: c in t.ring && c != p ==> c in m' && m'[c] == m[c]
    requires p in m' && (m'[p] == m[p] || m'[p] == SetChild(m[p], d, q))
    ensures NodeAt(m', h, idx, p, par, t)
  {
    RingFrame(m, m', t.ring);
    forall k | 0 <= k < |t.ring| ensures Member(m', h, idx, t.ring[k], t.size) {
      assert Member(m, h, idx, t.ring[k], t.size);
    }
    forall k | 1 <= k < |t.ring| ensures Chained(m', t.ring[k]) { assert Chained(m, t.ring[k]); }
  }

  /** The child of a node on the way to a path. */
  function Child(t: Tree, d: bool): Tree
    requires t.Node?
  {
    if d then t.right else t.left
  }

  lemma {:induction false} PathBelow(m: Memory, h: Heads, idx: nat, p: Ptr, par: Ptr, t: Tree, path: Path)
    requires Rep(m, h, idx, p, par, t) && Separate(t) && IsPath(t, path) && path != []
    ensures p == Root(t) && p in t.ring && p in Chunks(t) && p in m
    ensures ParentAt(par, t, path) == ParentAt(p, Child(t, path[0]), path[1..])
    ensures At(t, path) == At(Child(t, path[0]), path[1..])
    ensures Chunks(At(t, path)) <= Chunks(Child(t, path[0]))
    ensures path[1..] != [] ==> ParentAt(par, t, path) in Chunks(Child(t, path[0]))
    ensures path[1..] != [] ==> path[|path| - 1] == path[1..][|path[1..]| - 1]
  {
    var c := Child(t, path[0]);
    ChunksAt(c, path[1..]);
    if path[1..] != [] {
      ParentInside(m, h, idx, if path[0] then m[p].right else m[p].left, p, c, path[1..]);
    }
  }

  /** How a change below one child looks from the child. */
  lemma {:induction false} SlotBelowChild(m: Memory, m': Memory, h: Heads, idx: nat, p: Ptr, par: Ptr, t: Tree, path: Path, q: Ptr)
    requires Rep(m, h, idx, p, par, t) && Separate(t) && IsPath(t, path) && path != []
    requires OnlySlotChanged(m, m', par, t, path, q)
    ensures OnlySlotChanged(m, m', p, Child(t, path[0]), path[1..], q)
  {
    PathBelow(m, h, idx, p, par, t, path);
    var c := Child(t, path[0]);
    forall x | x in Chunks(c) && x !in Chunks(At(c, path[1..])) && x in m
      ensures x in m' && m'[x] == if path[1..] != [] && x == ParentAt(p, c, path[1..])
                                  then SetChild(m[x], path[1..][|path[1..]| - 1], q) else m[x]
    {
      assert x in Chunks(t) && x != p;
    }
  }

  /** ... and from the rest of the node. */
  lemma {:induction false} SlotBelowRest(m: Memory, m': Memory, h: Heads, idx: nat, p: Ptr, par: Ptr, t: Tree, path: Path, q: Ptr)
    requires Rep(m, h, idx, p, par, t) && Separate(t) && IsPath(t, path) && path != []
    requires OnlySlotChanged(m, m', par, t, path, q)
    ensures forall x :: x in Chunks(Child(t, !path[0])) && x in m ==> x in m' && m'[x] == m[x]
    ensures forall x :: x in t.ring && x != p ==> x in m' && m'[x] == m[x]
    ensures p in m && p in m' && m'[p] == if path[1..] == [] then SetChild(m[p], path[0], q) else m[p]
  {
    PathBelow(m, h, idx, p, par, t, path);
    forall x | x in t.ring ensures x in m && x in Chunks(t) && x !in Chunks(At(t, path)) {}
    forall x | x in Chunks(Child(t, !path[0])) ensures x in Chunks(t) && x !in Chunks(At(t, path)) && x != p {}
  }

  /** Replacing the subtree at a path in memory represents the same replacement in the trie. */
  lemma {:induction false} RepPut(m: Memory, m': Memory, h: Heads, idx: nat, p: Ptr, par: Ptr,
                                  t: Tree, path: Path, u: Tree, q: Ptr)
    requires Rep(m, h, idx, p, par, t) && Separate(t) && IsPath(t, path)
    requires OnlySlotChanged(m, m', par, t, path, q)
    requires Rep(m', h, idx, q, ParentAt(par, t, path), u)
    ensures Rep(m', h, idx, if path == [] then q else p, par, Put(t, path, u))
    decreases path
  {
    if path != [] {
      var d := path[0];
      SlotBelowChild(m, m', h, idx, p, par, t, path, q);
      SlotBelowRest(m, m', h, idx, p, par, t, path, q);
      NodeSetChild(m, m', h, idx, p, par, t, d, q);
      assert p == Root(t);
      if d {
        RepPut(m, m', h, idx, m[p].right, p, t.right, path[1..], u, q);
        RepFrame(m, m', h, h, idx, m[p].left, p, t.left);
        NodeOf(m', h, idx, p, par, t, t.left, Put(t.right, path[1..], u));
      } else {
        RepPut(m, m', h, idx, m[p].left, p, t.left, path[1..], u, q);
        RepFrame(m, m', h, h, idx, m[p].right, p, t.right);
        NodeOf(m', h, idx, p, par, t, Put(t.left, path[1..], u), t.right);
      }
    }
  }

  lemma {:induction false} NodeOf(m: Memory, h: Heads, idx: nat, p: Ptr, par: Ptr, t: Tree, l: Tree, r: Tree)
    requires NodeAt(m, h, idx, p, par, t)
    requires Rep(m, h, idx, m[p].left, p, l) && Rep(m, h, idx, m[p].right, p, r)
    ensures Rep(m, h, idx, p, par, t.(left := l, right := r))
  {
    assert NodeAt(m, h, idx, p, par, t.(left := l, right := r)) by {
      forall k | 0 <= k < |t.ring| ensures Member(m, h, idx, t.ring[k], t.size) {}
      forall k | 1 <= k < |t.ring| ensures Chained(m, t.ring[k]) {}
    }
  }

  lemma {:induction false} ParentInside(m: Memory, h: Heads, idx: nat, p: Ptr, par: Ptr, t: Tree, path: Path)
    requires Rep(m, h, idx, p, par, t) && Separate(t) && IsPath(t, path) && path != []
    ensures ParentAt(par, t, path) in Chunks(t) && ParentAt(par, t, path) !in Chunks(At(t, path))
    decreases path
  {
    var c := if path[0] then t.right else t.left;
    assert p in t.ring;
    ChunksAt(c, path[1..]);
    if path[1..] != [] {
      ParentInside(m, h, idx, if path[0] then m[p].right else m[p].left, p, c, path[1..]);
    }
  }

  /** The parent's slot already holds the pointer to the subtree. */
  lemma {:induction false} SameSlot(m: Memory, h: Heads, idx: nat, p: Ptr, par: Ptr, t: Tree, path: Path, c: Ptr, q: Ptr, d: bool)
    requires Rep(m, h, idx, p, par, t) && IsPath(t, path) && path != []
    requires c == ParentAt(par, t, path) && q == Root(At(t, path)) && d == path[|path| - 1]
    ensures c in m && SetChild(m[c], d, q) == m[c]
    decreases path
  {
    var e, rest := path[0], path[1..];
    var child := Child(t, e);
    var pc := if e then m[p].right else m[p].left;
    RepRoot(m, h, idx, p, par, t);
    RepRoot(m, h, idx, pc, p, child);
    if rest != [] {
      assert rest[|rest| - 1] == d;
      SameSlot(m, h, idx, pc, p, child, rest, c, q, d);
    }
  }

  /** Rewriting a subtree without moving its root. */
  lemma {:induction false} RepPutInPlace(m: Memory, m': Memory, h: Heads, idx: nat, p: Ptr, par: Ptr, t: Tree, path: Path, u: Tree)
    requires Rep(m, h, idx, p, par, t) && Separate(t) && IsPath(t, path)
    requires forall c :: c in Chunks(t) && c !in Chunks(At(t, path)) && c in m ==> c in m' && m'[c] == m[c]
    requires Rep(m', h, idx, Root(At(t, path)), ParentAt(par, t, path), u)
    ensures Rep(m', h, idx, p, par, Put(t, path, u))
  {
    var q := Root(At(t, path));
    if path == [] {
      RepRoot(m, h, idx, p, par, t);
    } else {
      SameSlot(m, h, idx, p, par, t, path, ParentAt(par, t, path), q, path[|path| - 1]);
      RepPut(m, m', h, idx, p, par, t, path, u, q);
    }
  }
}
