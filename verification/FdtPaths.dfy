/** Nodes of a device tree named by the path of item numbers from the root, and their place in preorder. */
module FdtPaths {
  import opened FdtTree

  type Path = seq<nat>

  /** The path leads to a node. */
  predicate OnTree(n: Node, path: Path) {
    path == [] ||
    (path[0] < |n.body| && n.body[path[0]].Sub? && OnTree(n.body[path[0]].node, path[1..]))
  }

  function NodeAt(n: Node, path: Path): Node
    requires OnTree(n, path)
  {
    if path == [] then n else NodeAt(n.body[path[0]].node, path[1..])
  }

  /** The number of nodes in a tree. */
  function Count(n: Node): nat { 1 + BodyCount(n.body) }

  function BodyCount(body: seq<Item>): nat {
    if body == [] then 0 else ItemCount(body[0]) + BodyCount(body[1..])
  }

  function ItemCount(item: Item): nat { if item.Sub? then Count(item.node) else 0 }

  /** The place of a node in preorder. */
  function Pos(n: Node, path: Path): nat
    requires OnTree(n, path)
  {
    if path == [] then 0 else 1 + BodyCount(n.body[..path[0]]) + Pos(n.body[path[0]].node, path[1..])
  }

  /** The place of a node's first token. */
  function TokenAt(n: Node, path: Path): nat
    requires OnTree(n, path)
  {
    if path == [] then 0 else 1 + |BodyTokens(n.body[..path[0]])| + TokenAt(n.body[path[0]].node, path[1..])
  }

  /** The first subnode from item `j` on. */
  function NextSub(body: seq<Item>, j: nat): (s: nat)
    requires j <= |body|
    ensures j <= s <= |body| && (s < |body| ==> body[s].Sub?) && forall m :: j <= m < s ==> !body[m].Sub?
    decreases |body| - j
  {
    if j == |body| || body[j].Sub? then j else NextSub(body, j + 1)
  }

  // ---------- preorder is made of subtrees

  lemma {:induction false} CountIsLength(n: Node, i: nat, d: int)
    ensures |Entries(n, i, d)| == Count(n)
    decreases n
  {
    BodyCountIsLength(n.body, i + 1, d + 1);
  }

  lemma {:induction false} BodyCountIsLength(body: seq<Item>, i: nat, d: int)
    ensures |BodyEntries(body, i, d)| == BodyCount(body)
    decreases body
  {
    if body != [] {
      BodyCountIsLength(body[1..], i + |ItemTokens(body[0])|, d);
      ItemCountIsLength(body[0], i, d);
    }
  }

  lemma {:induction false} ItemCountIsLength(item: Item, i: nat, d: int)
    ensures |ItemEntries(item, i, d)| == ItemCount(item)
    decreases item
  {
    if item.Sub? { CountIsLength(item.node, i, d); }
  }

  lemma {:induction false} BodySplit(body: seq<Item>, i: nat, d: int, j: nat)
    requires j <= |body|
    ensures BodyTokens(body) == BodyTokens(body[..j]) + BodyTokens(body[j..])
    ensures BodyCount(body) == BodyCount(body[..j]) + BodyCount(body[j..])
    ensures BodyEntries(body, i, d) == BodyEntries(body[..j], i, d) + BodyEntries(body[j..], i + |BodyTokens(body[..j])|, d)
  {
    TokensSplit(body, j);
    EntriesSplit(body, i, d, j);
  }

  lemma {:induction false} TokensSplit(body: seq<Item>, j: nat)
    requires j <= |body|
    ensures BodyTokens(body) == BodyTokens(body[..j]) + BodyTokens(body[j..])
    ensures BodyCount(body) == BodyCount(body[..j]) + BodyCount(body[j..])
  {
    hide ItemTokens;
    if j > 0 {
      TokensSplit(body[1..], j - 1);
      assert body[..j][0] == body[0] && body[..j][1..] == body[1..][..j - 1] && body[1..][j - 1..] == body[j..];
    } else {
      assert body[..0] == [] && body[0..] == body;
    }
  }

  lemma {:induction false} EntriesSplit(body: seq<Item>, i: nat, d: int, j: nat)
    requires j <= |body|
    ensures BodyEntries(body, i, d) == BodyEntries(body[..j], i, d) + BodyEntries(body[j..], i + |BodyTokens(body[..j])|, d)
  {
    hide ItemTokens, ItemEntries;
    if j > 0 {
      EntriesSplit(body[1..], i + |ItemTokens(body[0])|, d, j - 1);
      assert body[..j][0] == body[0] && body[..j][1..] == body[1..][..j - 1] && body[1..][j - 1..] == body[j..];
      Regroup(ItemEntries(body[0], i, d), BodyEntries(body[1..][..j - 1], i + |ItemTokens(body[0])|, d),
              BodyEntries(body[j..], i + |BodyTokens(body[..j])|, d));
    } else {
      assert body[..0] == [] && body[0..] == body;
    }
  }

  /** Where subnode `j` of a node lies in the node's preorder. */
  lemma {:induction false} SubEntries(n: Node, i: nat, d: int, j: nat)
    requires j < |n.body| && n.body[j].Sub?
    ensures var k, sub := 1 + BodyCount(n.body[..j]), n.body[j].node;
      && k + Count(sub) <= Count(n) == |Entries(n, i, d)|
      && Entries(n, i, d)[k..k + Count(sub)] == Entries(sub, i + 1 + |BodyTokens(n.body[..j])|, d + 1)
      && k + Count(sub) == 1 + BodyCount(n.body[..j + 1])
  {
    hide Entries, BodyEntries, BodyCount, BodyTokens, Count, Tokens;
    var body, sub := n.body, n.body[j].node;
    var before, i1 := BodyEntries(body[..j], i + 1, d + 1), i + 1 + |BodyTokens(body[..j])|;
    var middle, after := Entries(sub, i1, d + 1), BodyEntries(body[j + 1..], i1 + |Tokens(sub)|, d + 1);
    EntriesOf(n, i, d);
    BodySplit(body, i + 1, d + 1, j);
    FirstItem(body[j..], i1, d + 1);
    assert body[j..][1..] == body[j + 1..];
    Middle(Entry(i, d, n.name), before, middle, after);
    CountIsLength(n, i, d);
    CountIsLength(sub, i1, d + 1);
    BodyCountIsLength(body[..j], i + 1, d + 1);
    CountNext(body, j);
  }

  lemma {:induction false} FirstItem(body: seq<Item>, i: nat, d: int)
    requires body != [] && body[0].Sub?
    ensures BodyEntries(body, i, d) == Entries(body[0].node, i, d) + BodyEntries(body[1..], i + |Tokens(body[0].node)|, d)
  {}

  lemma {:induction false} CountNext(body: seq<Item>, j: nat)
    requires j < |body|
    ensures BodyCount(body[..j + 1]) == BodyCount(body[..j]) + ItemCount(body[j])
  {
    BodySplit(body[..j + 1], 0, 0, j);
    assert body[..j + 1][..j] == body[..j] && body[..j + 1][j..] == [body[j]];
    assert BodyCount([body[j]]) == ItemCount(body[j]) + BodyCount([body[j]][1..]);
  }

  lemma {:induction false} EntriesOf(n: Node, i: nat, d: int)
    ensures Entries(n, i, d) == [Entry(i, d, n.name)] + BodyEntries(n.body, i + 1, d + 1)
  {}

  lemma {:induction false} Middle(e: Entry, a: seq<Entry>, b: seq<Entry>, c: seq<Entry>)
    ensures ([e] + (a + (b + c)))[1 + |a|..1 + |a| + |b|] == b
  {}

  /** The nodes of the subtree at `path` are a stretch of the preorder. */
  lemma {:induction false} Subtree(n: Node, i: nat, d: int, path: Path)
    requires OnTree(n, path)
    ensures var k, sub := Pos(n, path), NodeAt(n, path);
      && k + Count(sub) <= Count(n) == |Entries(n, i, d)|
      && Entries(n, i, d)[k..k + Count(sub)] == Entries(sub, i + TokenAt(n, path), d + |path|)
    decreases |path|
  {
    CountIsLength(n, i, d);
    hide Entries, Count;
    if path == [] {
      assert Entries(n, i, d)[0..Count(n)] == Entries(n, i, d);
    } else {
      var j := path[0];
      var k := 1 + BodyCount(n.body[..j]);
      SubEntries(n, i, d, j);
      Subtree(n.body[j].node, i + 1 + |BodyTokens(n.body[..j])|, d + 1, path[1..]);
      StretchOfStretch(Entries(n, i, d), k, Count(n.body[j].node), Pos(n.body[j].node, path[1..]), Count(NodeAt(n, path)));
    }
  }

  lemma {:induction false} StretchOfStretch(s: seq<Entry>, k: nat, n: nat, k': nat, n': nat)
    requires k + n <= |s| && k' + n' <= n
    ensures s[k..k + n][k'..k' + n'] == s[k + k'..k + k' + n']
  {
    var a, b := s[k..k + n][k'..k' + n'], s[k + k'..k + k' + n'];
    assert |a| == |b|;
    forall m | 0 <= m < |a| ensures a[m] == b[m] { assert s[k..k + n][k' + m] == s[k + k' + m]; }
  }

  lemma {:induction false} Depths(n: Node, i: nat, d: int, k: nat)
    requires k < |Entries(n, i, d)|
    ensures Entries(n, i, d)[k].depth >= d && (Entries(n, i, d)[k].depth == d <==> k == 0)
    decreases n
  {
    EntriesOf(n, i, d);
    if k > 0 { BodyDepths(n.body, i + 1, d + 1, k - 1); }
  }

  lemma {:induction false} ItemDepths(item: Item, i: nat, d: int, k: nat)
    requires k < |ItemEntries(item, i, d)|
    ensures ItemEntries(item, i, d)[k].depth >= d
    decreases item
  {
    Depths(item.node, i, d, k);
  }

  lemma {:induction false} BodyDepths(body: seq<Item>, i: nat, d: int, k: nat)
    requires k < |BodyEntries(body, i, d)|
    ensures BodyEntries(body, i, d)[k].depth >= d
    decreases body
  {
    var first := ItemEntries(body[0], i, d);
    if k < |first| { ItemDepths(body[0], i, d, k); } else { BodyDepths(body[1..], i + |ItemTokens(body[0])|, d, k - |first|); }
  }

  // ---------- paths

  lemma {:induction false} Extend(n: Node, p: Path, q: Path)
    requires OnTree(n, p) && OnTree(NodeAt(n, p), q)
    ensures OnTree(n, p + q) && NodeAt(n, p + q) == NodeAt(NodeAt(n, p), q)
    ensures Pos(n, p + q) == Pos(n, p) + Pos(NodeAt(n, p), q)
    ensures TokenAt(n, p + q) == TokenAt(n, p) + TokenAt(NodeAt(n, p), q)
    decreases |p|
  {
    if p == [] {
      assert p + q == q;
    } else {
      assert (p + q)[0] == p[0] && (p + q)[1..] == p[1..] + q;
      Extend(n.body[p[0]].node, p[1..], q);
    }
  }

  lemma {:induction false} Prefix(n: Node, p: Path, a: nat)
    requires OnTree(n, p) && a <= |p|
    ensures OnTree(n, p[..a]) && OnTree(NodeAt(n, p[..a]), p[a..])
    decreases |p|
  {
    if a > 0 {
      assert p[..a][0] == p[0] && p[..a][1..] == p[1..][..a - 1] && p[1..][a - 1..] == p[a..];
      Prefix(n.body[p[0]].node, p[1..], a - 1);
    } else {
      assert p[..0] == [] && p[0..] == p;
    }
  }

  /** The place of a subnode. */
  lemma {:induction false} SubPos(n: Node, p: Path, j: nat)
    requires OnTree(n, p) && j < |NodeAt(n, p).body| && NodeAt(n, p).body[j].Sub?
    ensures OnTree(n, p + [j]) && NodeAt(n, p + [j]) == NodeAt(n, p).body[j].node
    ensures Pos(n, p + [j]) == Pos(n, p) + 1 + BodyCount(NodeAt(n, p).body[..j])
  {
    assert [j][1..] == [];
    Extend(n, p, [j]);
  }

  // ---------- neighbours in preorder

  /** All nodes of a device tree, in preorder. */
  function All(root: Node): seq<Entry> { Entries(root, 0, 0) }

  lemma {:induction false} EntryOf(root: Node, p: Path)
    requires OnTree(root, p)
    ensures Pos(root, p) + Count(NodeAt(root, p)) <= |All(root)| && Count(NodeAt(root, p)) >= 1
    ensures All(root)[Pos(root, p)] == Entry(TokenAt(root, p), |p|, NodeAt(root, p).name)
  {
    Subtree(root, 0, 0, p);
    var k, sub := Pos(root, p), NodeAt(root, p);
    assert All(root)[k..k + Count(sub)][0] == All(root)[k];
  }

  /** Below a node, depths are greater. */
  lemma {:induction false} Deeper(root: Node, p: Path, k: nat)
    requires OnTree(root, p) && Pos(root, p) < k < Pos(root, p) + Count(NodeAt(root, p))
    ensures k < |All(root)| && All(root)[k].depth > |p|
  {
    hide Entries, Count;
    Subtree(root, 0, 0, p);
    var first, sub := Pos(root, p), NodeAt(root, p);
    assert All(root)[first..first + Count(sub)][k - first] == All(root)[k];
    Depths(sub, TokenAt(root, p), |p|, k - first);
  }

  lemma {:induction false} NoSubs(body: seq<Item>, j: nat, s: nat)
    requires j <= s <= |body| && forall m :: j <= m < s ==> !body[m].Sub?
    ensures BodyCount(body[..s]) == BodyCount(body[..j])
    decreases s
  {
    if j < s {
      NoSubs(body, j, s - 1);
      CountNext(body, s - 1);
    }
  }

  lemma {:induction false} FirstChild(root: Node, p: Path)
    requires OnTree(root, p)
    ensures var body := NodeAt(root, p).body; var s := NextSub(body, 0);
      && (s < |body| ==> OnTree(root, p + [s]) && Pos(root, p + [s]) == Pos(root, p) + 1 && Count(NodeAt(root, p)) > 1)
      && (s == |body| ==> Count(NodeAt(root, p)) == 1)
  {
    var body := NodeAt(root, p).body;
    var s := NextSub(body, 0);
    NoSubs(body, 0, s);
    assert body[..0] == [];
    if s < |body| {
      SubPos(root, p, s);
      SubEntries(NodeAt(root, p), 0, 0, s);
    } else {
      assert body[..s] == body;
    }
  }

  /** What follows the subtree of subnode `j` of the node at `r`. */
  lemma {:induction false} NextSibling(root: Node, r: Path, j: nat)
    requires OnTree(root, r) && j < |NodeAt(root, r).body| && NodeAt(root, r).body[j].Sub?
    ensures OnTree(root, r + [j])
    ensures var body := NodeAt(root, r).body; var s := NextSub(body, j + 1);
      var after := Pos(root, r + [j]) + Count(NodeAt(root, r + [j]));
      && (s < |body| ==> OnTree(root, r + [s]) && Pos(root, r + [s]) == after)
      && (s == |body| ==> after == Pos(root, r) + Count(NodeAt(root, r)))
  {
    var body := NodeAt(root, r).body;
    var s := NextSub(body, j + 1);
    SubPos(root, r, j);
    CountNext(body, j);
    NoSubs(body, j + 1, s);
    if s < |body| { SubPos(root, r, s); } else { assert body[..s] == body; }
  }

  lemma {:induction false} LastStep(root: Node, p: Path)
    requires OnTree(root, p) && p != []
    ensures var r, j := p[..|p| - 1], p[|p| - 1];
      OnTree(root, r) && p == r + [j] && j < |NodeAt(root, r).body| && NodeAt(root, r).body[j].Sub?
  {
    var r, j := p[..|p| - 1], p[|p| - 1];
    Prefix(root, p, |p| - 1);
    assert p[|p| - 1..] == [j];
  }

  /** The node after a subtree is no deeper than the subtree's root. */
  lemma {:induction false} EndOfSubtree(root: Node, p: Path)
    requires OnTree(root, p)
    ensures var after := Pos(root, p) + Count(NodeAt(root, p));
      after == |All(root)| || (after < |All(root)| && All(root)[after].depth <= |p|)
    decreases |p|
  {
    hide Entries, Count;
    if p == [] {
      CountIsLength(root, 0, 0);
    } else {
      LastStep(root, p);
      var r, j := p[..|p| - 1], p[|p| - 1];
      NextSibling(root, r, j);
      var s := NextSub(NodeAt(root, r).body, j + 1);
      if s < |NodeAt(root, r).body| { EntryOf(root, r + [s]); } else { EndOfSubtree(root, r); }
    }
  }

  /** A node lies in the subtree of each of its ancestors. */
  lemma {:induction false} Ancestor(root: Node, p: Path, a: nat)
    requires OnTree(root, p) && a <= |p|
    ensures OnTree(root, p[..a])
    ensures Pos(root, p[..a]) <= Pos(root, p) < Pos(root, p[..a]) + Count(NodeAt(root, p[..a]))
    ensures a < |p| ==> Pos(root, p[..a]) < Pos(root, p)
  {
    Prefix(root, p, a);
    var sub := NodeAt(root, p[..a]);
    assert p == p[..a] + p[a..];
    Extend(root, p[..a], p[a..]);
    Subtree(sub, 0, 0, p[a..]);
  }

  // ---------- the chain of names from the root

  /** The names of a node and its ancestors, as a preorder scan sees them. */
  function Chain(all: seq<Entry>, k: nat): seq<Name>
    requires k < |all|
  {
    if k == 0 then [all[0].name]
    else
      var before := Chain(all, k - 1);
      var d := all[k].depth;
      (if 0 <= d <= |before| then before[..d] else before) + [all[k].name]
  }

  /** Depths rise by at most one, and only the first node is at the top. */
  ghost predicate Steps(all: seq<Entry>) {
    && all != [] && all[0].depth == 0
    && (forall k {:trigger all[k].depth} :: 0 < k < |all| ==> 1 <= all[k].depth <= all[k - 1].depth + 1)
  }

  lemma {:induction false} ChainLength(all: seq<Entry>, k: nat)
    requires Steps(all) && k < |all|
    ensures |Chain(all, k)| == all[k].depth + 1
  {
    if k > 0 { ChainLength(all, k - 1); }
  }

  /** The chain of an ancestor persists through its subtree. */
  lemma {:induction false} ChainPersists(all: seq<Entry>, m: nat, k: nat)
    requires Steps(all) && m <= k < |all| && forall x :: m < x <= k ==> all[x].depth > all[m].depth
    ensures |Chain(all, k)| > all[m].depth && Chain(all, k)[..all[m].depth + 1] == Chain(all, m)
  {
    ChainLength(all, k);
    ChainLength(all, m);
    if m < k {
      ChainPersists(all, m, k - 1);
      ChainLength(all, k - 1);
    }
  }

  /** The names on the way to a node. */
  function Names(n: Node, p: Path): seq<Name>
    requires OnTree(n, p)
  {
    if p == [] then [n.name] else [n.name] + Names(n.body[p[0]].node, p[1..])
  }

  lemma {:induction false} NamesLast(n: Node, p: Path)
    requires OnTree(n, p) && p != []
    ensures OnTree(n, p[..|p| - 1]) && Names(n, p) == Names(n, p[..|p| - 1]) + [NodeAt(n, p).name]
    decreases |p|
  {
    Prefix(n, p, |p| - 1);
    if |p| > 1 {
      NamesLast(n.body[p[0]].node, p[1..]);
      assert p[1..][..|p| - 2] == p[..|p| - 1][1..];
    } else {
      assert p[1..] == [] && p[..0] == [];
    }
  }

  lemma {:induction false} ChainIsNames(root: Node, p: Path)
    requires OnTree(root, p) && Steps(All(root))
    ensures Pos(root, p) < |All(root)| && Chain(All(root), Pos(root, p)) == Names(root, p)
    decreases |p|
  {
    hide Entries, Count, Chain, Steps, Names;
    var all, k := All(root), Pos(root, p);
    EntryOf(root, p);
    if p == [] {
      ChainStart(all);
      NamesStart(root);
    } else {
      var r := p[..|p| - 1];
      Ancestor(root, p, |p| - 1);
      EntryOf(root, r);
      forall x | Pos(root, r) < x <= k ensures all[x].depth > |r| { Deeper(root, r, x); }
      ChainPersists(all, Pos(root, r), k);
      ChainLength(all, k);
      ChainEnds(all, k);
      ChainIsNames(root, r);
      NamesLast(root, p);
    }
  }

  lemma {:induction false} ChainStart(all: seq<Entry>)
    requires all != []
    ensures Chain(all, 0) == [all[0].name]
  {}

  lemma {:induction false} NamesStart(n: Node)
    ensures Names(n, []) == [n.name]
  {}

  lemma {:induction false} ChainEnds(all: seq<Entry>, k: nat)
    requires k < |all|
    ensures var c := Chain(all, k); c != [] && c[|c| - 1] == all[k].name && c == c[..|c| - 1] + [all[k].name]
  {}
}
