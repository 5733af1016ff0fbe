/** Node names and paths: finding a child by name, writing a node's path, and resolving it again. */
module FdtNames {
  import opened MachineWords
  import opened FdtTree
  import opened FdtPaths
  import opened FdtBlob
  import opened FdtQuery

  const AT_SIGN: Byte := 0x40
  const SLASH: Byte := 0x2f

  /** A name matches itself, or itself without its unit address. */
  predicate NameMatches(name: Name, s: seq<Byte>) {
    name == s || ('@' as nat !in s && |s| < |name| && name[..|s|] == s && name[|s|] == '@' as nat)
  }

  /** "cpu@1" is matched by itself and by "cpu", but by no shorter name, no bare "cpu@" and no other unit. */
  lemma {:induction false} NamesByExample()
    ensures var name: Name := ['c' as nat, 'p' as nat, 'u' as nat, '@' as nat, '1' as nat];
      && NameMatches(name, name) && NameMatches(name, name[..3]) && !NameMatches(name, name[..2]) && !NameMatches(name, name[..4])
      && !NameMatches(name, name[..4] + ['2' as nat]) && !NameMatches(name[..3], name)
  {
    var name: Name := ['c' as nat, 'p' as nat, 'u' as nat, '@' as nat, '1' as nat];
    assert name[..4][3] == '@' as nat && (name[..4] + ['2' as nat])[4] == '2' as nat;
  }

  /** _fdt_nodename_eq */
  predicate NodenameEq(b: Blob, offset: nat, s: seq<Byte>)
    requires |s| < TWO_TO_THE_31 - 1 && offset + 4 < TWO_TO_THE_31
  {
    InBlock(b, offset + 4, |s| + 1) &&
    (InBlockMeans(b, offset + 4, |s| + 1);
     b[offset + 4..offset + 4 + |s|] == s &&
     (b[offset + 4 + |s|] == 0 || (AT_SIGN !in s && b[offset + 4 + |s|] == AT_SIGN)))
  }

  lemma {:induction false} LongerHasNul(b: Blob, o: nat, name: Name, s: seq<Byte>)
    requires NameAt(b, o, name) && |name| < |s| && o + 4 + |s| <= |b| && b[o + 4..o + 4 + |s|] == s
    ensures 0 in s
  {
    assert s[|name|] == b[o + 4 + |name|];
  }

  /** Comparing with a name in the block is comparing with the name. */
  lemma {:induction false} NodenameEqMeans(b: Blob, o: nat, name: Name, s: seq<Byte>)
    requires NameAt(b, o, name) && 0 !in s && |s| < TWO_TO_THE_31 - 1 && o + 4 < TWO_TO_THE_31
    ensures NodenameEq(b, o, s) <==> NameMatches(name, s)
  {
    hide InBlock;
    InBlockMeans(b, o + 4, |s| + 1);
    if NodenameEq(b, o, s) {
      var t := b[o + 4..o + 4 + |s|];
      if |s| > |name| { LongerHasNul(b, o, name, s); }
      forall m | 0 <= m < |s| ensures name[m] == s[m] { assert t[m] == b[o + 4 + m]; }
      assert name[..|s|] == s;
      assert |s| == |name| || b[o + 4 + |s|] == name[|s|];
    }
    if NameMatches(name, s) {
      forall m | 0 <= m < |s| ensures b[o + 4 + m] == s[m] { assert name[..|s|][m] == name[m]; }
      assert b[o + 4..o + 4 + |s|] == s;
      assert |s| < |name| ==> b[o + 4 + |s|] == name[|s|];
      assert InBlock(b, o + 4, |s| + 1);
    }
  }

  /** The first subnode from item `j` on whose name matches. */
  function FirstMatch(body: seq<Item>, j: nat, s: seq<Byte>): (r: nat)
    requires j <= |body|
    ensures j <= r <= |body| && (r < |body| ==> body[r].Sub? && NameMatches(body[r].node.name, s))
    ensures forall m :: j <= m < r && body[m].Sub? ==> !NameMatches(body[m].node.name, s)
    decreases |body| - j
  {
    if j == |body| || (body[j].Sub? && NameMatches(body[j].node.name, s)) then j else FirstMatch(body, j + 1, s)
  }

  // ---------- children in preorder

  lemma {:induction false} FindChild(body: seq<Item>, n: nat, j: nat) returns (i: nat)
    requires j <= |body| && n < BodyCount(body[..j])
    ensures i < j && BodyCount(body[..i]) <= n < BodyCount(body[..i + 1]) && body[i].Sub?
    decreases j
  {
    assert body[..0] == [];
    CountNext(body, j - 1);
    if n < BodyCount(body[..j - 1]) {
      i := FindChild(body, n, j - 1);
    } else {
      i := j - 1;
    }
  }

  /** The nodes one deeper in a node's subtree are its children. */
  lemma {:induction false} ChildAt(root: Node, p: Path, x: nat) returns (j: nat)
    requires OnTree(root, p) && Pos(root, p) < x < Pos(root, p) + Count(NodeAt(root, p))
    requires x < |All(root)| && All(root)[x].depth == |p| + 1
    ensures j < |NodeAt(root, p).body| && NodeAt(root, p).body[j].Sub? && OnTree(root, p + [j])
    ensures Pos(root, p + [j]) == x && All(root)[x].name == NodeAt(root, p).body[j].node.name
  {
    var body := NodeAt(root, p).body;
    assert body[..|body|] == body;
    j := FindChild(body, x - Pos(root, p) - 1, |body|);
    CountNext(body, j);
    SubPos(root, p, j);
    EntryOf(root, p + [j]);
    if Pos(root, p + [j]) < x { Deeper(root, p + [j], x); }
  }

  /** A child's place. */
  lemma {:induction false} ChildPlace(root: Node, p: Path, j: nat)
    requires OnTree(root, p) && j < |NodeAt(root, p).body| && NodeAt(root, p).body[j].Sub?
    ensures OnTree(root, p + [j]) && Pos(root, p) < Pos(root, p + [j]) < Pos(root, p) + Count(NodeAt(root, p))
    ensures Pos(root, p + [j]) < |All(root)| && All(root)[Pos(root, p + [j])].depth == |p| + 1
    ensures All(root)[Pos(root, p + [j])].name == NodeAt(root, p).body[j].node.name
    ensures forall i :: 0 <= i < j && NodeAt(root, p).body[i].Sub? ==> OnTree(root, p + [i]) && Pos(root, p + [i]) < Pos(root, p + [j])
  {
    var body := NodeAt(root, p).body;
    SubPos(root, p, j);
    EntryOf(root, p + [j]);
    BodySplit(body, 0, 0, j);
    CountNext(body, j);
    BodySplit(body, 0, 0, j + 1);
    forall i | 0 <= i < j && body[i].Sub? ensures OnTree(root, p + [i]) && Pos(root, p + [i]) < Pos(root, p + [j]) {
      SubPos(root, p, i);
      CountNext(body, i);
      CountMonotone(body, i + 1, j);
    }
  }

  lemma {:induction false} CountMonotone(body: seq<Item>, i: nat, j: nat)
    requires i <= j <= |body|
    ensures BodyCount(body[..i]) <= BodyCount(body[..j])
    decreases j
  {
    if i < j {
      CountMonotone(body, i, j - 1);
      CountNext(body, j - 1);
    }
  }

  /** No child before place `x` matches. */
  ghost predicate NoneBefore(root: Node, p: Path, s: seq<Byte>, x: nat)
    requires OnTree(root, p)
  {
    forall m {:trigger All(root)[m].name} :: Pos(root, p) < m < x && m < |All(root)| && All(root)[m].depth == |p| + 1 ==>
      !NameMatches(All(root)[m].name, s)
  }

  /** The child a name stands for, as an offset, or the not-found error. */
  ghost function NamedChildOffset(root: Node, p: Path, s: seq<Byte>): int
    requires OnTree(root, p)
  {
    var j := FirstMatch(NodeAt(root, p).body, 0, s);
    if j < |NodeAt(root, p).body| then
      SubPos(root, p, j);
      OffsetOf(root, p + [j])
    else -FDT_ERR_NOTFOUND
  }

  lemma {:induction false} MatchFound(root: Node, p: Path, s: seq<Byte>, x: nat)
    requires OnTree(root, p) && Pos(root, p) < x < Pos(root, p) + Count(NodeAt(root, p)) && x < |All(root)|
    requires All(root)[x].depth == |p| + 1 && NameMatches(All(root)[x].name, s) && NoneBefore(root, p, s, x)
    ensures NamedChildOffset(root, p, s) == NodeOffset(root, x)
  {
    hide Entries, All, Count, Pos, NodeOffset, OnTree, NameMatches;
    var body := NodeAt(root, p).body;
    var j := ChildAt(root, p, x);
    var f := FirstMatch(body, 0, s);
    ChildPlace(root, p, j);
    if f < j { ChildPlace(root, p, f); }
  }

  lemma {:induction false} NoMatch(root: Node, p: Path, s: seq<Byte>)
    requires OnTree(root, p) && NoneBefore(root, p, s, Pos(root, p) + Count(NodeAt(root, p)))
    ensures NamedChildOffset(root, p, s) == -FDT_ERR_NOTFOUND
  {
    hide Entries, All, Count, Pos, NodeOffset, OnTree, NameMatches;
    var body := NodeAt(root, p).body;
    var f := FirstMatch(body, 0, s);
    if f < |body| { ChildPlace(root, p, f); }
  }

  /** fdt_subnode_offset_namelen: the first child whose name matches. */
  method SubnodeNamed(b: Blob, offset0: int, s: seq<Byte>, ghost root: Node, ghost p: Path) returns (r: int)
    requires Flattens(b, root) && OnTree(root, p) && offset0 == OffsetOf(root, p)
    requires 0 !in s && |s| < TWO_TO_THE_31 - 1
    ensures r == NamedChildOffset(root, p, s)
  {
    hide Entries, All, Count, Pos, NodeAt, NodeOffset, OnTree, NamedChildOffset, NameMatches, NodenameEq, Stepped, Flattens, NoneBefore;
    ghost var m, after, ended := Pos(root, p), Pos(root, p) + Count(NodeAt(root, p)), false;
    EntryOf(root, p);
    NoneYet(root, p, s);
    var offset, depth := offset0, 0;
    while offset >= 0 && depth >= 0
      invariant !ended ==> Pos(root, p) <= m < after && IsAt(root, m, depth + |p|, offset) && NoneBefore(root, p, s, m)
      invariant !ended ==> depth >= 0 && (depth == 0 ==> m == Pos(root, p))
      invariant ended ==> depth < 0 && NoneBefore(root, p, s, after)
      decreases !ended, after - m
    {
      if depth == 1 {
        NameOfNode(b, root, m, s);
        if NodenameEq(b, offset, s) {
          MatchFound(root, p, s, m);
          return offset;
        }
      }
      offset, depth := NextFrom(b, offset, depth, root, m, |p|);
      OneMoreChecked(root, p, s, m, offset, depth);
      m, ended := m + 1, m + 1 == after;
    }
    NoMatch(root, p, s);
    if depth < 0 { return -FDT_ERR_NOTFOUND; }
    return offset;
  }

  lemma {:induction false} NoneYet(root: Node, p: Path, s: seq<Byte>)
    requires OnTree(root, p)
    ensures NoneBefore(root, p, s, Pos(root, p))
  {}

  /** After a node that is not a matching child, the scan goes on in the subtree or leaves it. */
  lemma {:induction false} OneMoreChecked(root: Node, p: Path, s: seq<Byte>, m: nat, offset: int, depth: int)
    requires OnTree(root, p) && Pos(root, p) <= m < Pos(root, p) + Count(NodeAt(root, p)) && m < |All(root)|
    requires NoneBefore(root, p, s, m) && Stepped(root, m, |p|, offset, depth)
    requires All(root)[m].depth == |p| + 1 ==> !NameMatches(All(root)[m].name, s)
    ensures NoneBefore(root, p, s, m + 1)
    ensures m + 1 < Pos(root, p) + Count(NodeAt(root, p)) ==> IsAt(root, m + 1, depth + |p|, offset) && depth > 0
    ensures m + 1 == Pos(root, p) + Count(NodeAt(root, p)) ==> depth < 0
  {
    hide Entries, All, Count, Pos, NodeAt, NodeOffset, OnTree, NameMatches;
    if m + 1 < Pos(root, p) + Count(NodeAt(root, p)) { Deeper(root, p, m + 1); } else { EndOfSubtree(root, p); }
  }

  lemma {:induction false} NameOfNode(b: Blob, root: Node, m: nat, s: seq<Byte>)
    requires Flattens(b, root) && m < |All(root)| && 0 !in s && |s| < TWO_TO_THE_31 - 1
    ensures NodeOffset(root, m) + 4 < |b| && NameAt(b, NodeOffset(root, m), All(root)[m].name)
    ensures NodenameEq(b, NodeOffset(root, m), s) <==> NameMatches(All(root)[m].name, s)
  {
    hide Entries, All, NodeOffset, NodenameEq, NameMatches, Offset, Word;
    NodeFacts(root, m);
    TokenInBlock(b, Stream(root), All(root)[m].index);
    NodenameEqMeans(b, NodeOffset(root, m), All(root)[m].name, s);
  }
}
