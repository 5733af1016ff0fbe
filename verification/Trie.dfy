/**
 The bitwise tries that hold large free chunks, as values: each node keeps the chunks of one size
 (the head of the ring is the tree node proper), and each level splits the size range in half.
 */
module Trie {
  import opened MachineWords
  import opened BitTricks

  /** An address; zero is the null pointer. */
  type Ptr = int

  datatype Tree = Nil | Node(size: nat, ring: seq<Ptr>, left: Tree, right: Tree)

  function Sizes(t: Tree): set<nat> {
    match t
    case Nil => {}
    case Node(size, _, l, r) => {size} + Sizes(l) + Sizes(r)
  }

  function Chunks(t: Tree): set<Ptr> {
    match t
    case Nil => {}
    case Node(_, ring, l, r) => (set p | p in ring) + Chunks(l) + Chunks(r)
  }

  /**
   The trie invariant for a subtree that covers the sizes [lo, lo + 2^w): the left child covers the
   lower half and the right child the upper half, and each size has a single node.
   */
  predicate Shaped(t: Tree, lo: nat, w: nat) {
    match t
    case Nil => true
    case Node(size, ring, l, r) =>
      && ring != []
      && lo <= size < lo + Pow2(w)
      && size !in Sizes(l) && size !in Sizes(r)
      && (if w == 0 then l.Nil? && r.Nil? else Shaped(l, lo, w - 1) && Shaped(r, lo + Pow2(w - 1), w - 1))
  }

  /** No chunk occurs twice. */
  predicate Separate(t: Tree) {
    match t
    case Nil => true
    case Node(_, ring, l, r) =>
      && NoDuplicates(ring)
      && (forall p :: p in ring ==> p !in Chunks(l) && p !in Chunks(r))
      && Chunks(l) !! Chunks(r)
      && Separate(l) && Separate(r)
  }

  lemma {:induction false} SizesInRange(t: Tree, lo: nat, w: nat, s: nat)
    requires Shaped(t, lo, w) && s in Sizes(t)
    ensures lo <= s < lo + Pow2(w)
  {
    if s != t.size {
      if s in Sizes(t.left) {
        SizesInRange(t.left, lo, w - 1, s);
      } else {
        SizesInRange(t.right, lo + Pow2(w - 1), w - 1, s);
      }
    }
  }

  // ---------- positions in a tree

  /** Directions from the root: false is child[0], true is child[1]. */
  type Path = seq<bool>

  predicate IsPath(t: Tree, path: Path) {
    path == [] || (t.Node? && IsPath(if path[0] then t.right else t.left, path[1..]))
  }

  function At(t: Tree, path: Path): Tree
    requires IsPath(t, path)
  {
    if path == [] then t else At(if path[0] then t.right else t.left, path[1..])
  }

  function Put(t: Tree, path: Path, u: Tree): Tree
    requires IsPath(t, path)
  {
    if path == [] then u
    else if path[0] then t.(right := Put(t.right, path[1..], u))
    else t.(left := Put(t.left, path[1..], u))
  }

  lemma {:induction false} AtExtend(t: Tree, path: Path, d: bool)
    requires IsPath(t, path) && At(t, path).Node?
    ensures IsPath(t, path + [d]) && At(t, path + [d]) == if d then At(t, path).right else At(t, path).left
  {
    if path == [] {
      assert [d][1..] == [];
    } else {
      assert (path + [d])[1..] == path[1..] + [d];
      AtExtend(if path[0] then t.right else t.left, path[1..], d);
    }
  }

  lemma {:induction false} PutExtend(t: Tree, path: Path, d: bool, u: Tree)
    requires IsPath(t, path) && At(t, path).Node?
    ensures IsPath(t, path + [d])
    ensures Put(t, path + [d], u) ==
            Put(t, path, if d then At(t, path).(right := u) else At(t, path).(left := u))
  {
    AtExtend(t, path, d);
    if path == [] {
      assert [d][1..] == [];
    } else {
      assert (path + [d])[1..] == path[1..] + [d];
      PutExtend(if path[0] then t.right else t.left, path[1..], d, u);
    }
  }

  lemma {:induction false} ChunksAt(t: Tree, path: Path)
    requires IsPath(t, path)
    ensures Chunks(At(t, path)) <= Chunks(t) && Sizes(At(t, path)) <= Sizes(t)
    ensures Separate(t) ==> Separate(At(t, path))
  {
    if path != [] { ChunksAt(if path[0] then t.right else t.left, path[1..]); }
  }

  /** Replacing a subtree changes the chunks of the whole tree by as much as those of the subtree. */
  lemma {:induction false} ChunksPut(t: Tree, path: Path, u: Tree)
    requires IsPath(t, path) && Separate(t)
    ensures Chunks(Put(t, path, u)) == Chunks(t) - Chunks(At(t, path)) + Chunks(u)
  {
    ChunksAt(t, path);
    if path != [] {
      var c := if path[0] then t.right else t.left;
      ChunksAt(c, path[1..]);
      ChunksPut(c, path[1..], u);
    }
  }

  lemma {:induction false} SizesPut(t: Tree, path: Path, u: Tree)
    requires IsPath(t, path)
    ensures Sizes(Put(t, path, u)) <= Sizes(t) + Sizes(u)
  {
    if path != [] { SizesPut(if path[0] then t.right else t.left, path[1..], u); }
  }

  lemma {:induction false} SeparatePut(t: Tree, path: Path, u: Tree)
    requires IsPath(t, path) && Separate(t) && Separate(u)
    requires Chunks(u) !! (Chunks(t) - Chunks(At(t, path)))
    ensures Separate(Put(t, path, u))
  {
    if path != [] {
      var c := if path[0] then t.right else t.left;
      ChunksAt(c, path[1..]);
      SeparatePut(c, path[1..], u);
      ChunksPut(c, path[1..], u);
    }
  }

  // ---------- insertion

  /** insert_large_chunk on a tree: a new chunk of a known size goes right behind the head of its ring. */
  function Insert(t: Tree, size: nat, x: Ptr, lo: nat, w: nat): Tree
    requires Shaped(t, lo, w) && lo <= size < lo + Pow2(w)
    decreases t
  {
    match t
    case Nil => Node(size, [x], Nil, Nil)
    case Node(s, ring, l, r) =>
      if s == size then t.(ring := [ring[0], x] + ring[1..])
      else if size < lo + Pow2(w - 1) then t.(left := Insert(l, size, x, lo, w - 1))
      else t.(right := Insert(r, size, x, lo + Pow2(w - 1), w - 1))
  }

  lemma {:induction false} InsertShaped(t: Tree, size: nat, x: Ptr, lo: nat, w: nat)
    requires Shaped(t, lo, w) && lo <= size < lo + Pow2(w)
    ensures Shaped(Insert(t, size, x, lo, w), lo, w)
    ensures Sizes(Insert(t, size, x, lo, w)) == Sizes(t) + {size}
  {
    if t.Node? && t.size != size {
      if size < lo + Pow2(w - 1) {
        InsertShaped(t.left, size, x, lo, w - 1);
      } else {
        InsertShaped(t.right, size, x, lo + Pow2(w - 1), w - 1);
      }
    }
  }

  lemma {:induction false} InsertChunks(t: Tree, size: nat, x: Ptr, lo: nat, w: nat)
    requires Shaped(t, lo, w) && lo <= size < lo + Pow2(w)
    ensures Chunks(Insert(t, size, x, lo, w)) == Chunks(t) + {x}
  {
    if t.Node? {
      if t.size == size {
        assert t.ring == [t.ring[0]] + t.ring[1..];
      } else if size < lo + Pow2(w - 1) {
        InsertChunks(t.left, size, x, lo, w - 1);
      } else {
        InsertChunks(t.right, size, x, lo + Pow2(w - 1), w - 1);
      }
    }
  }

  lemma {:induction false} RingWithSecond(ring: seq<Ptr>, x: Ptr)
    requires ring != [] && NoDuplicates(ring) && x !in ring
    ensures NoDuplicates([ring[0], x] + ring[1..])
    ensures forall p :: p in [ring[0], x] + ring[1..] <==> p in ring || p == x
  {
    assert ring == [ring[0]] + ring[1..];
  }

  lemma {:induction false} Descend(t: Tree, size: nat, lo: nat, w: nat)
    requires t.Node? && Shaped(t, lo, w) && lo <= size < lo + Pow2(w) && size != t.size
    ensures w > 0 && Pow2(w) == 2 * Pow2(w - 1)
    ensures Shaped(t.left, lo, w - 1) && Shaped(t.right, lo + Pow2(w - 1), w - 1)
  {}

  lemma {:induction false} SeparateRing(t: Tree, x: Ptr)
    requires t.Node? && t.ring != [] && Separate(t) && x !in Chunks(t)
    ensures Separate(t.(ring := [t.ring[0], x] + t.ring[1..]))
  {
    RingWithSecond(t.ring, x);
  }

  /** Where insertion ends: at the node of that size, or at the empty child where it belongs. */
  function InsertPath(t: Tree, size: nat, lo: nat, w: nat): Path
    requires Shaped(t, lo, w) && lo <= size < lo + Pow2(w)
    ensures IsPath(t, InsertPath(t, size, lo, w))
    decreases t
  {
    if t.Nil? || t.size == size then []
    else if size < lo + Pow2(w - 1) then [false] + InsertPath(t.left, size, lo, w - 1)
    else [true] + InsertPath(t.right, size, lo + Pow2(w - 1), w - 1)
  }

  /** What insertion puts at the end of its path. */
  function InsertHere(t: Tree, size: nat, x: Ptr): Tree
    requires t.Node? ==> t.ring != []
  {
    if t.Nil? then Node(size, [x], Nil, Nil) else t.(ring := [t.ring[0], x] + t.ring[1..])
  }

  lemma {:induction false} InsertIsPut(t: Tree, size: nat, x: Ptr, lo: nat, w: nat)
    requires Shaped(t, lo, w) && lo <= size < lo + Pow2(w)
    ensures var path := InsertPath(t, size, lo, w);
      && (At(t, path).Nil? || (At(t, path).size == size && At(t, path).ring != []))
      && Insert(t, size, x, lo, w) == Put(t, path, InsertHere(At(t, path), size, x))
  {
    if t.Node? && t.size != size {
      Descend(t, size, lo, w);
      if size < lo + Pow2(w - 1) {
        InsertIsPut(t.left, size, x, lo, w - 1);
      } else {
        InsertIsPut(t.right, size, x, lo + Pow2(w - 1), w - 1);
      }
    }
  }

  lemma {:induction false} InsertSeparate(t: Tree, size: nat, x: Ptr, lo: nat, w: nat)
    requires Shaped(t, lo, w) && lo <= size < lo + Pow2(w) && Separate(t) && x !in Chunks(t)
    ensures Separate(Insert(t, size, x, lo, w))
  {
    InsertIsPut(t, size, x, lo, w);
    var path := InsertPath(t, size, lo, w);
    SeparateInsertHere(t, path, size, x);
  }

  lemma {:induction false} SeparateInsertHere(t: Tree, path: Path, size: nat, x: Ptr)
    requires IsPath(t, path) && Separate(t) && x !in Chunks(t) && (At(t, path).Node? ==> At(t, path).ring != [])
    ensures Separate(Put(t, path, InsertHere(At(t, path), size, x)))
  {
    var here := At(t, path);
    ChunksAt(t, path);
    if here.Node? {
      SeparateRing(here, x);
      RingWithSecond(here.ring, x);
    }
    SeparatePut(t, path, InsertHere(here, size, x));
  }

  /** Insertion keeps the trie invariant and adds exactly the one chunk. */
  lemma {:induction false} InsertCorrect(t: Tree, size: nat, x: Ptr, lo: nat, w: nat)
    requires Shaped(t, lo, w) && lo <= size < lo + Pow2(w) && Separate(t) && x !in Chunks(t)
    ensures Shaped(Insert(t, size, x, lo, w), lo, w) && Separate(Insert(t, size, x, lo, w))
    ensures Sizes(Insert(t, size, x, lo, w)) == Sizes(t) + {size}
    ensures Chunks(Insert(t, size, x, lo, w)) == Chunks(t) + {x}
  {
    InsertShaped(t, size, x, lo, w);
    InsertChunks(t, size, x, lo, w);
    InsertSeparate(t, size, x, lo, w);
  }

  // ---------- removal

  /** The leaf found by preferring child[1] over child[0], as a path. */
  function LeafPath(t: Tree): Path
    requires t.Node?
    ensures IsPath(t, LeafPath(t))
  {
    if t.right.Node? then [true] + LeafPath(t.right)
    else if t.left.Node? then [false] + LeafPath(t.left)
    else []
  }

  lemma {:induction false} LeafIsLeaf(t: Tree)
    requires t.Node?
    ensures At(t, LeafPath(t)).Node? && At(t, LeafPath(t)).left.Nil? && At(t, LeafPath(t)).right.Nil?
  {
    if t.right.Node? { LeafIsLeaf(t.right); } else if t.left.Node? { LeafIsLeaf(t.left); }
  }

  function Without(s: seq<Ptr>, x: Ptr): seq<Ptr> {
    if s == [] then [] else if s[0] == x then s[1..] else [s[0]] + Without(s[1..], x)
  }

  lemma {:induction false} WithoutContents(s: seq<Ptr>, x: Ptr)
    requires NoDuplicates(s)
    ensures NoDuplicates(Without(s, x))
    ensures forall p :: p in Without(s, x) <==> p in s && p != x
    ensures x in s ==> |Without(s, x)| == |s| - 1
  {
    if s != [] {
      WithoutContents(s[1..], x);
      var rest := Without(s[1..], x);
      assert s == [s[0]] + s[1..];
      assert forall p :: p in s <==> p == s[0] || p in s[1..];
      if s[0] == x {
        assert x !in s[1..];
      } else {
        assert forall p :: p in [s[0]] + rest <==> p == s[0] || p in rest;
        forall i | 0 <= i < |rest| ensures rest[i] != s[0] { assert rest[i] in s[1..]; }
      }
    }
  }

  /**
   unlink_large_chunk at the node whose ring holds the chunk: another chunk of the ring takes its
   place, or else a leaf below it does, or else the node disappears.
   */
  function DropHere(t: Tree, x: Ptr): Tree
    requires t.Node? && x in t.ring
  {
    var last := t.ring[|t.ring| - 1];
    if |t.ring| > 1 then
      if t.ring[0] == x then t.(ring := [last] + t.ring[1..|t.ring| - 1]) else t.(ring := Without(t.ring, x))
    else if t.left.Nil? && t.right.Nil? then Nil
    else
      var path := LeafPath(t);
      var leaf := At(t, path);
      var rest := Put(t, path, Nil);
      if leaf.Node? && rest.Node? then Node(leaf.size, leaf.ring, rest.left, rest.right) else Nil
  }

  function Remove(t: Tree, x: Ptr): Tree
    requires x in Chunks(t)
  {
    if x in t.ring then DropHere(t, x)
    else if x in Chunks(t.left) then t.(left := Remove(t.left, x))
    else t.(right := Remove(t.right, x))
  }

  lemma {:induction false} LeafRemoved(t: Tree, lo: nat, w: nat)
    requires t.Node? && Shaped(t, lo, w) && (t.left.Node? || t.right.Node?)
    ensures var leaf, rest := At(t, LeafPath(t)), Put(t, LeafPath(t), Nil);
      && leaf.Node? && leaf.ring != [] && leaf.size in Sizes(t.left) + Sizes(t.right)
      && rest.Node? && rest.ring == t.ring && rest.size == t.size
      && Shaped(rest, lo, w)
      && Sizes(rest) == Sizes(t) - {leaf.size}
      && (forall p :: p in leaf.ring ==> p in Chunks(t.left) + Chunks(t.right))
  {
    var d := t.right.Node?;
    var c := if d then t.right else t.left;
    var lo' := if d then lo + Pow2(w - 1) else lo;
    assert LeafPath(t)[1..] == LeafPath(c);
    if c.left.Node? || c.right.Node? {
      LeafRemoved(c, lo', w - 1);
      var leaf := At(c, LeafPath(c));
      SizesInRange(c, lo', w - 1, leaf.size);
    } else {
      SizesInRange(c, lo', w - 1, c.size);
    }
    HalvesDisjoint(t, lo, w);
  }

  lemma {:induction false} HalvesDisjoint(t: Tree, lo: nat, w: nat)
    requires t.Node? && Shaped(t, lo, w)
    ensures Sizes(t.left) !! Sizes(t.right)
  {
    if w > 0 {
      forall s | s in Sizes(t.left) && s in Sizes(t.right) ensures false {
        SizesInRange(t.left, lo, w - 1, s);
        SizesInRange(t.right, lo + Pow2(w - 1), w - 1, s);
      }
    }
  }

  lemma {:induction false} LeafChunks(t: Tree)
    requires t.Node? && Separate(t) && (t.left.Node? || t.right.Node?)
    ensures var leaf, rest := At(t, LeafPath(t)), Put(t, LeafPath(t), Nil);
      && leaf.Node? && rest.Node? && rest.ring == t.ring && NoDuplicates(leaf.ring)
      && Separate(rest) && Chunks(rest) == Chunks(t) - (set p | p in leaf.ring)
      && (forall p :: p in leaf.ring ==> p in Chunks(t) && p !in t.ring && p !in Chunks(rest))
  {
    var path := LeafPath(t);
    LeafIsLeaf(t);
    ChunksAt(t, path);
    ChunksPut(t, path, Nil);
    SeparatePut(t, path, Nil);
    assert Chunks(At(t, path)) == set p | p in At(t, path).ring;
    var d := t.right.Node?;
    var c := if d then t.right else t.left;
    assert path[1..] == LeafPath(c);
    ChunksAt(c, path[1..]);
  }

  lemma {:induction false} DropHereShaped(t: Tree, x: Ptr, lo: nat, w: nat)
    requires t.Node? && x in t.ring && Shaped(t, lo, w) && NoDuplicates(t.ring)
    ensures Shaped(DropHere(t, x), lo, w) && Sizes(DropHere(t, x)) <= Sizes(t)
  {
    if |t.ring| > 1 {
      WithoutContents(t.ring, x);
    } else if t.left.Node? || t.right.Node? {
      LeafRemoved(t, lo, w);
      SizesInRange(t, lo, w, At(t, LeafPath(t)).size);
    }
  }

  lemma {:induction false} RingWithoutHead(ring: seq<Ptr>)
    requires |ring| > 1 && NoDuplicates(ring)
    ensures var ring' := [ring[|ring| - 1]] + ring[1..|ring| - 1];
      NoDuplicates(ring') && forall p :: p in ring' <==> p in ring && p != ring[0]
  {
    assert ring == [ring[0]] + ring[1..|ring| - 1] + [ring[|ring| - 1]];
  }

  lemma {:induction false} SeparateWithRing(t: Tree, ring: seq<Ptr>, x: Ptr)
    requires t.Node? && Separate(t) && x in t.ring
    requires NoDuplicates(ring) && forall p :: p in ring <==> p in t.ring && p != x
    ensures Separate(t.(ring := ring)) && Chunks(t.(ring := ring)) == Chunks(t) - {x}
  {
    var t' := t.(ring := ring);
    forall q ensures q in Chunks(t') <==> q in Chunks(t) && q != x {}
  }

  lemma {:induction false} LeafMovedUp(t: Tree, x: Ptr)
    requires t.Node? && Separate(t) && (forall p :: p in t.ring <==> p == x) && (t.left.Node? || t.right.Node?)
    ensures var leaf, rest := At(t, LeafPath(t)), Put(t, LeafPath(t), Nil);
      && leaf.Node? && rest.Node?
      && Separate(Node(leaf.size, leaf.ring, rest.left, rest.right))
      && Chunks(Node(leaf.size, leaf.ring, rest.left, rest.right)) == Chunks(t) - {x}
  {
    LeafChunks(t);
  }

  lemma {:induction false} DropHereChunks(t: Tree, x: Ptr)
    requires t.Node? && x in t.ring && Separate(t)
    ensures Separate(DropHere(t, x)) && Chunks(DropHere(t, x)) == Chunks(t) - {x}
  {
    if |t.ring| > 1 {
      if t.ring[0] == x { RingWithoutHead(t.ring); } else { WithoutContents(t.ring, x); }
      SeparateWithRing(t, DropHere(t, x).ring, x);
    } else {
      assert forall p :: p in t.ring <==> p == x;
      if t.left.Node? || t.right.Node? { LeafMovedUp(t, x); }
    }
  }

  lemma {:induction false} RemoveShaped(t: Tree, x: Ptr, lo: nat, w: nat)
    requires Shaped(t, lo, w) && Separate(t) && x in Chunks(t)
    ensures Shaped(Remove(t, x), lo, w) && Sizes(Remove(t, x)) <= Sizes(t)
  {
    if x in t.ring {
      DropHereShaped(t, x, lo, w);
    } else if x in Chunks(t.left) {
      RemoveShaped(t.left, x, lo, w - 1);
    } else {
      RemoveShaped(t.right, x, lo + Pow2(w - 1), w - 1);
    }
  }

  lemma {:induction false} RemoveChunks(t: Tree, x: Ptr)
    requires Separate(t) && x in Chunks(t)
    ensures Separate(Remove(t, x)) && Chunks(Remove(t, x)) == Chunks(t) - {x}
  {
    if x in t.ring {
      DropHereChunks(t, x);
    } else if x in Chunks(t.left) {
      RemoveChunks(t.left, x);
    } else {
      RemoveChunks(t.right, x);
    }
  }

  /** Removal keeps the trie invariant and takes out exactly the one chunk. */
  lemma {:induction false} RemoveCorrect(t: Tree, x: Ptr, lo: nat, w: nat)
    requires Shaped(t, lo, w) && Separate(t) && x in Chunks(t)
    ensures Shaped(Remove(t, x), lo, w) && Sizes(Remove(t, x)) <= Sizes(t)
    ensures Separate(Remove(t, x)) && Chunks(Remove(t, x)) == Chunks(t) - {x}
  {
    RemoveShaped(t, x, lo, w);
    RemoveChunks(t, x);
  }

  /** The position of a chunk's node. */
  function PathTo(t: Tree, x: Ptr): Path
    requires x in Chunks(t)
    ensures IsPath(t, PathTo(t, x))
  {
    if x in t.ring then []
    else if x in Chunks(t.left) then [false] + PathTo(t.left, x)
    else [true] + PathTo(t.right, x)
  }

  lemma {:induction false} RemoveAt(t: Tree, x: Ptr)
    requires x in Chunks(t)
    ensures At(t, PathTo(t, x)).Node? && x in At(t, PathTo(t, x)).ring
    ensures Remove(t, x) == Put(t, PathTo(t, x), DropHere(At(t, PathTo(t, x)), x))
  {
    if x in t.ring {
    } else if x in Chunks(t.left) {
      RemoveAt(t.left, x);
    } else {
      RemoveAt(t.right, x);
    }
  }

  /** leftmost_child */
  function LeftmostChild(t: Tree): Tree
    requires t.Node?
  {
    if t.left.Node? then t.left else t.right
  }
}
