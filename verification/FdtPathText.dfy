/** The textual path of a node: fdt_get_path writes it, fdt_path_offset resolves it. */
module FdtPathText {
  import opened MachineWords
  import opened FdtTree
  import opened FdtPaths
  import opened FdtBlob
  import opened FdtQuery
  import opened FdtNames

  /** Names, each followed by a slash. */
  function Joined(names: seq<Name>): seq<Byte> {
    if names == [] then [] else Joined(names[..|names| - 1]) + names[|names| - 1] + ['/' as nat]
  }

  /** The text of a path: no trailing slash, except that the root's is a slash. */
  function PathText(names: seq<Name>): seq<Byte> {
    var j := Joined(names);
    if |j| > 1 then j[..|j| - 1] else j
  }

  /** The paths "/", "/ab" and "/ab/c". */
  lemma {:induction false} PathsByExample()
    ensures PathText([[]]) == ['/' as nat] && PathText([[], ['a' as nat, 'b' as nat]]) == ['/' as nat, 'a' as nat, 'b' as nat]
    ensures PathText([[], ['a' as nat, 'b' as nat], ['c' as nat]]) == ['/' as nat, 'a' as nat, 'b' as nat, '/' as nat, 'c' as nat]
  {
    var ab: Name, c: Name := ['a' as nat, 'b' as nat], ['c' as nat];
    var three: seq<Name> := [[], ab, c];
    assert Joined([[]]) == ['/' as nat];
    assert [[], ab][..1] == [[]] && Joined([[], ab]) == ['/' as nat] + ab + ['/' as nat];
    assert three[..2] == [[], ab] && Joined(three) == ['/' as nat] + ab + ['/' as nat] + c + ['/' as nat];
  }

  /** How many names, from the first on, fit in `size` bytes. */
  function Kept(names: seq<Name>, size: nat): (m: nat)
    ensures m <= |names|
  {
    if names == [] then 0
    else
      var m := Kept(names[..|names| - 1], size);
      if m == |names| - 1 && |Joined(names)| <= size then |names| else m
  }

  lemma {:induction false} KeptPrefix(names: seq<Name>, d: nat, size: nat)
    requires d <= |names|
    ensures Kept(names[..d], size) == if Kept(names, size) <= d then Kept(names, size) else d
    decreases |names|
  {
    if d < |names| {
      KeptPrefix(names[..|names| - 1], d, size);
      assert names[..|names| - 1][..d] == names[..d];
    } else {
      assert names[..d] == names;
    }
  }

  lemma {:induction false} KeptFits(names: seq<Name>, size: nat)
    ensures Kept(names, size) == |names| <==> |Joined(names)| <= size
    ensures |Joined(names[..Kept(names, size)])| <= size
    decreases |names|
  {
    if names != [] {
      var front := names[..|names| - 1];
      KeptFits(front, size);
      if Kept(names, size) < |names| { assert names[..Kept(names, size)] == front[..Kept(front, size)]; } else { assert names[..|names|] == names; }
    }
  }

  lemma {:induction false} JoinedStep(names: seq<Name>, m: nat)
    requires m < |names|
    ensures Joined(names[..m + 1]) == Joined(names[..m]) + names[m] + [SLASH]
  {
    assert names[..m + 1][..m] == names[..m];
  }

  /** The length of the NUL-terminated name of a node. */
  method NameLength(b: Blob, offset: nat, ghost name: Name) returns (n: nat)
    requires NameAt(b, offset, name)
    ensures n == |name|
  {
    n := 0;
    assert |name| > 0 ==> name[0] == b[offset + 4 + 0] != 0;
    while b[offset + 4 + n] != 0
      invariant n <= |name| && (b[offset + 4 + n] == 0 <==> n == |name|)
      decreases |name| - n
    {
      n := n + 1;
      assert n < |name| ==> name[n] == b[offset + 4 + n] != 0;
    }
  }

  /** memcpy of a name into the buffer, and a slash. */
  method AppendName(buf: array<Byte>, p: nat, b: Blob, offset: nat, namelen: nat, ghost name: Name)
    requires NameAt(b, offset, name) && namelen == |name| && p + namelen + 1 <= buf.Length
    modifies buf
    ensures buf[..p + namelen + 1] == old(buf[..p]) + name + [SLASH]
  {
    for i := 0 to namelen
      invariant buf[..p + i] == old(buf[..p]) + name[..i]
    {
      assert name[i] == b[offset + 4 + i];
      buf[p + i] := b[offset + 4 + i];
      assert buf[..p + i + 1] == buf[..p + i] + [name[i]];
      assert name[..i + 1] == name[..i] + [name[i]];
    }
    buf[p + namelen] := SLASH;
    assert buf[..p + namelen + 1] == buf[..p + namelen] + [SLASH];
    assert name[..namelen] == name;
  }

  /** The buffer holds the first `m` names. */
  ghost predicate Holding(buf: seq<Byte>, p: nat, names: seq<Name>, m: nat) {
    m <= |names| && p <= |buf| && buf[..p] == Joined(names[..m])
  }

  lemma {:induction false} LastName(before: seq<Byte>, last: Name, p: nat)
    requires |before| < p <= |before| + |last|
    ensures (before + last + [SLASH])[p - 1] in last
  {
    assert (before + last + [SLASH])[p - 1] == last[p - 1 - |before|];
  }

  /** Drops the last name from the buffer. */
  method PopName(buf: array<Byte>, p0: nat, ghost names: seq<Name>, ghost m: nat) returns (p: nat)
    requires m >= 2 && Holding(buf[..], p0, names, m) && SLASH !in names[m - 1]
    ensures Holding(buf[..], p, names, m - 1)
  {
    JoinedStep(names, m - 1);
    JoinedStep(names, m - 2);
    ghost var before, last := Joined(names[..m - 1]), names[m - 1];
    assert before[|before| - 1] == SLASH;
    p := p0 - 1;
    assert buf[..][..p0] == before + last + [SLASH];
    while buf[p - 1] != SLASH
      invariant |before| <= p < p0 == |before| + |last| + 1
      decreases p
    {
      assert (before + last + [SLASH])[p - 1] == buf[p - 1];
      p := p - 1;
    }
    assert (before + last + [SLASH])[p - 1] == buf[p - 1];
    if p > |before| { LastName(before, last, p); }
    assert buf[..][..p] == (before + last + [SLASH])[..p] == before;
  }

  ghost predicate SlashFree(root: Node) {
    forall k {:trigger All(root)[k].name} :: 0 <= k < |All(root)| ==> SLASH !in All(root)[k].name
  }

  lemma {:induction false} ChainSlashFree(root: Node, k: nat)
    requires SlashFree(root) && k < |All(root)|
    ensures forall m :: 0 <= m < |Chain(All(root), k)| ==> SLASH !in Chain(All(root), k)[m]
  {
    hide Entries, All;
    if k > 0 { ChainSlashFree(root, k - 1); }
  }

  /** The names up to a depth are shared with the node before. */
  lemma {:induction false} ChainShared(root: Node, k: nat)
    requires 0 < k < |All(root)|
    ensures var all := All(root); var d, before := all[k].depth, Chain(all, k - 1);
      && |before| == all[k - 1].depth + 1 && 1 <= d <= |before| && Chain(all, k) == before[..d] + [all[k].name]
  {
    hide Entries, All;
    PreorderSteps(root);
    ChainLength(All(root), k - 1);
    DepthStep(root, k);
  }

  /** Pops the buffer down to `depth` names. */
  method PopTo(buf: array<Byte>, p0: nat, pdepth0: nat, depth: nat, ghost names: seq<Name>) returns (p: nat, pdepth: nat)
    requires depth >= 1 && Holding(buf[..], p0, names, pdepth0) && forall m :: 0 <= m < |names| ==> SLASH !in names[m]
    ensures pdepth == (if pdepth0 <= depth then pdepth0 else depth) && Holding(buf[..], p, names, pdepth)
  {
    hide Holding;
    p, pdepth := p0, pdepth0;
    HoldingBound(buf[..], p0, names, pdepth0);
    while pdepth > depth
      invariant Holding(buf[..], p, names, pdepth) && pdepth <= |names|
      invariant pdepth0 <= depth ==> pdepth == pdepth0
      invariant pdepth0 > depth ==> pdepth >= depth
    {
      p := PopName(buf, p, names, pdepth);
      pdepth := pdepth - 1;
    }
  }

  lemma {:induction false} HoldingBound(buf: seq<Byte>, p: nat, names: seq<Name>, m: nat)
    requires Holding(buf, p, names, m)
    ensures m <= |names| && p == |Joined(names[..m])| <= |buf|
  {}

  /** How many names fit once the chain of one node gives way to that of the next. */
  lemma {:induction false} KeptNext(before: seq<Name>, d: nat, name: Name, size: nat)
    requires d <= |before|
    ensures var kept, chain := (if Kept(before, size) <= d then Kept(before, size) else d), before[..d] + [name];
      && Joined(chain) == Joined(before[..d]) + name + [SLASH]
      && Kept(chain, size) == (if kept == d && |Joined(chain)| <= size then d + 1 else kept)
      && before[..kept] == chain[..kept]
  {
    var chain := before[..d] + [name];
    assert chain[..|chain| - 1] == before[..d];
    KeptPrefix(before, d, size);
  }

  /** The names of the nodes before the k-th, on its way from the root. */
  ghost function Before(all: seq<Entry>, k: nat): seq<Name>
    requires k <= |all|
  {
    if k == 0 then [] else Chain(all, k - 1)
  }

  /** One step of fdt_get_path: the buffer is brought to the chain of the k-th node. */
  method VisitNode(b: Blob, buf: array<Byte>, p0: nat, pdepth0: nat, offset: nat, depth: nat, ghost root: Node, ghost k: nat)
    returns (p: nat, pdepth: nat)
    requires Flattens(b, root) && SlashFree(root) && k < |All(root)|
    requires offset == NodeOffset(root, k) && depth == All(root)[k].depth
    requires Holding(buf[..], p0, Before(All(root), k), pdepth0) && pdepth0 == Kept(Before(All(root), k), buf.Length)
    modifies buf
    ensures Holding(buf[..], p, Chain(All(root), k), pdepth) && pdepth == Kept(Chain(All(root), k), buf.Length)
  {
    hide Entries, All, NodeOffset, Flattens, SlashFree, Kept, Joined, NameAt;
    p, pdepth := p0, pdepth0;
    ghost var before, chain, name := Before(All(root), k), Chain(All(root), k), All(root)[k].name;
    RootFirst(root);
    if k > 0 {
      ChainSlashFree(root, k - 1);
      ChainShared(root, k);
    }
    NothingHeld(buf[..], buf.Length);
    if pdepth > depth {
      p, pdepth := PopTo(buf, p, pdepth, depth, before);
    }
    assert chain == before[..depth] + [name];
    KeptNext(before, depth, name, buf.Length);
    if pdepth >= depth {
      NameOfNode(b, root, k, []);
      var namelen := NameLength(b, offset, name);
      if p + namelen + 1 <= buf.Length {
        AppendName(buf, p, b, offset, namelen, name);
        p := p + namelen + 1;
        pdepth := pdepth + 1;
        assert chain[..pdepth] == chain;
      }
    }
  }

  /** fdt_get_path: the node's path, when it fits; an error otherwise. */
  method GetPath(b: Blob, nodeoffset: int, buf: array<Byte>, ghost root: Node, ghost path: Path) returns (r: int)
    requires Flattens(b, root) && OnTree(root, path) && nodeoffset == OffsetOf(root, path) && SlashFree(root)
    modifies buf
    ensures r == 0 <==> buf.Length >= 2 && |Joined(Names(root, path))| <= buf.Length
    ensures r != 0 ==> r == -3
    ensures r == 0 ==> var text := PathText(Names(root, path)); |text| < buf.Length && buf[..|text|] == text && buf[|text|] == 0
  {
    hide Entries, All, Count, Pos, NodeAt, NodeOffset, OnTree, Offset, SlashFree, Kept, Joined, Names, Chain;
    if buf.Length < 2 { return -FDT_ERR_NOSPACE; }
    ghost var target, k := Pos(root, path), 0;
    EntryOf(root, path);
    RootFirst(root);
    PreorderSteps(root);
    ChainIsNames(root, path);
    ChainLength(All(root), target);
    if 0 < target { NodeOrder(root, 0, target); }
    NothingHeld(buf[..], buf.Length);
    var p, pdepth, offset, depth := 0, 0, 0, 0;
    while offset >= 0 && offset <= nodeoffset
      invariant k <= target && offset == NodeOffset(root, k) <= nodeoffset && depth == All(root)[k].depth >= 0
      invariant Holding(buf[..], p, Before(All(root), k), pdepth) && pdepth == Kept(Before(All(root), k), buf.Length)
      decreases target - k
    {
      p, pdepth := VisitNode(b, buf, p, pdepth, offset, depth, root, k);
      if k < target { NodeOrder(root, k, target); }
      if offset == nodeoffset {
        r := FinishPath(buf, p, pdepth, depth, Names(root, path));
        return;
      }
      DepthStep(root, k + 1);
      offset, depth := NextFrom(b, offset, depth, root, k, 0);
      k := k + 1;
      if k < target { NodeOrder(root, k, target); }
    }
    assert false;
  }

  lemma {:induction false} NothingHeld(buf: seq<Byte>, size: nat)
    ensures Holding(buf, 0, [], 0) && Kept([], size) == 0
  {}

  /** The end of fdt_get_path: drop the trailing slash and terminate. */
  method FinishPath(buf: array<Byte>, p0: nat, pdepth: nat, depth: nat, ghost names: seq<Name>) returns (r: int)
    requires buf.Length >= 2 && Holding(buf[..], p0, names, pdepth) && pdepth == Kept(names, buf.Length) && |names| == depth + 1
    modifies buf
    ensures r == 0 <==> |Joined(names)| <= buf.Length
    ensures r != 0 ==> r == -3
    ensures r == 0 ==> var text := PathText(names); |text| < buf.Length && buf[..|text|] == text && buf[|text|] == 0
  {
    hide Joined, Kept;
    KeptFits(names, buf.Length);
    if pdepth < depth + 1 { return -FDT_ERR_NOSPACE; }
    assert names[..pdepth] == names;
    var p := p0;
    if p > 1 { p := p - 1; }
    assert buf[..][..p0] == buf[..p0];
    assert buf[..p] == PathText(names);
    buf[p] := 0;
    r := 0;
  }

  // ---------- resolving a path

  /** The first slash from `i` on, or the end. */
  function NextSlash(t: seq<Byte>, i: nat): (q: nat)
    requires i <= |t|
    ensures i <= q <= |t| && (q < |t| ==> t[q] == SLASH) && forall m :: i <= m < q ==> t[m] != SLASH
    decreases |t| - i
  {
    if i == |t| || t[i] == SLASH then i else NextSlash(t, i + 1)
  }

  /** The names between the slashes from `i` on. */
  function Components(t: seq<Byte>, i: nat): seq<Name>
    requires i <= |t|
    decreases |t| - i
  {
    if i == |t| then [] else if t[i] == SLASH then Components(t, i + 1)
    else [t[i..NextSlash(t, i)]] + Components(t, NextSlash(t, i))
  }

  /** The node reached from `p` by taking, for each name, the first child it matches. */
  ghost function Resolve(root: Node, p: Path, names: seq<Name>): int
    requires OnTree(root, p)
    decreases |names|
  {
    if names == [] then OffsetOf(root, p)
    else
      var j := FirstMatch(NodeAt(root, p).body, 0, names[0]);
      if j < |NodeAt(root, p).body| then
        SubPos(root, p, j);
        Resolve(root, p + [j], names[1..])
      else -FDT_ERR_NOTFOUND
  }

  /** fdt_path_offset for an absolute path. */
  method PathOffset(b: Blob, path: seq<Byte>, ghost root: Node) returns (offset: int)
    requires Flattens(b, root) && path != [] && path[0] == SLASH && 0 !in path && |path| < TWO_TO_THE_31 - 1
    ensures offset == Resolve(root, [], Components(path, 0))
  {
    hide Flattens, NameMatches, Entries, Count, Pos, NodeOffset;
    offset := 0;
    var p := 0;
    ghost var cur: Path := [];
    RootOffset(root);
    while p < |path|
      invariant p <= |path| && OnTree(root, cur) && offset == OffsetOf(root, cur)
      invariant Resolve(root, cur, Components(path, p)) == Resolve(root, [], Components(path, 0))
    {
      ghost var p0 := p;
      while p < |path| && path[p] == SLASH
        invariant p0 <= p <= |path| && Components(path, p) == Components(path, p0)
      {
        p := p + 1;
      }
      if p == |path| { return; }
      var q := NextSlash(path, p);
      ghost var name, j := path[p..q], FirstMatch(NodeAt(root, cur).body, 0, path[p..q]);
      offset := SubnodeNamed(b, offset, path[p..q], root, cur);
      assert Components(path, p) == [name] + Components(path, q);
      assert Components(path, p)[1..] == Components(path, q);
      if offset < 0 { return; }
      SubPos(root, cur, j);
      cur := cur + [j];
      p := q;
    }
  }

  lemma {:induction false} RootOffset(root: Node)
    ensures OnTree(root, []) && OffsetOf(root, []) == 0
  {
    RootFirst(root);
  }

  // ---------- round trip

  /** Names, each preceded by a slash. */
  function Slashed(names: seq<Name>): seq<Byte> {
    if names == [] then [] else [SLASH] + names[0] + Slashed(names[1..])
  }

  lemma {:induction false} SlashedSnoc(names: seq<Name>, n: Name)
    ensures Slashed(names + [n]) == Slashed(names) + [SLASH] + n
  {
    if names != [] {
      assert (names + [n])[1..] == names[1..] + [n];
      SlashedSnoc(names[1..], n);
    } else {
      assert Slashed([n]) == [SLASH] + n + Slashed([n][1..]);
    }
  }

  lemma {:induction false} JoinedIsSlashed(names: seq<Name>)
    ensures Joined([[]] + names) == Slashed(names) + [SLASH]
    decreases |names|
  {
    if names == [] {
      assert [[]] + names == [[]];
      assert Joined([[]]) == Joined([[]][..0]) + [] + [SLASH];
    } else {
      var front, last := names[..|names| - 1], names[|names| - 1];
      JoinedIsSlashed(front);
      assert names == front + [last];
      SlashedSnoc(front, last);
      var all := [[]] + names;
      assert all[..|all| - 1] == [[]] + front && all[|all| - 1] == last;
    }
  }

  /** Non-empty names without slashes. */
  ghost predicate Plain(names: seq<Name>) { forall k :: 0 <= k < |names| ==> names[k] != [] && SLASH !in names[k] }

  /** Splitting slashed names gives the names back. */
  lemma {:induction false} SplitSlashed(pre: seq<Byte>, names: seq<Name>)
    requires Plain(names)
    ensures Components(pre + Slashed(names), |pre|) == names
    decreases |names|
  {
    hide Components, NextSlash, Slashed;
    if names == [] {
      NoComponents(pre);
    } else {
      var n, rest := names[0], Slashed(names[1..]);
      SlashedStarts(names);
      var lead := pre + [SLASH];
      var t := lead + n + rest;
      Regrouped(pre, n, rest);
      EndOfName(lead, n, rest);
      SkipSlash(t, |pre|);
      TakeName(t, |lead|, n);
      SplitSlashed(lead + n, names[1..]);
      assert [n] + names[1..] == names;
    }
  }

  lemma {:induction false} NoComponents(pre: seq<Byte>)
    ensures Components(pre + Slashed([]), |pre|) == []
  {
    assert pre + Slashed([]) == pre;
  }

  lemma {:induction false} Regrouped(pre: seq<Byte>, n: Name, rest: seq<Byte>)
    ensures pre + ([SLASH] + n + rest) == (pre + [SLASH]) + n + rest
    ensures ((pre + [SLASH]) + n + rest)[|pre|] == SLASH
    ensures ((pre + [SLASH]) + n + rest)[|pre| + 1..|pre| + 1 + |n|] == n
  {}

  lemma {:induction false} SlashedStarts(names: seq<Name>)
    requires names != []
    ensures Slashed(names) == [SLASH] + names[0] + Slashed(names[1..])
    ensures Slashed(names[1..]) == [] || Slashed(names[1..])[0] == SLASH
  {}

  lemma {:induction false} SkipSlash(t: seq<Byte>, i: nat)
    requires i < |t| && t[i] == SLASH
    ensures Components(t, i) == Components(t, i + 1)
  {}

  lemma {:induction false} TakeName(t: seq<Byte>, i: nat, n: Name)
    requires i < |t| && t[i] != SLASH && NextSlash(t, i) == i + |n| && t[i..i + |n|] == n
    ensures Components(t, i) == [n] + Components(t, i + |n|)
  {}

  lemma {:induction false} EndOfName(pre: seq<Byte>, n: Name, rest: seq<Byte>)
    requires n != [] && SLASH !in n && (rest == [] || rest[0] == SLASH)
    ensures var t := pre + n + rest; t[|pre|] != SLASH && NextSlash(t, |pre|) == |pre| + |n|
  {
    var t := pre + n + rest;
    assert t[|pre|] == n[0];
    forall m | |pre| <= m < |pre| + |n| ensures t[m] != SLASH { assert t[m] == n[m - |pre|]; }
    assert rest != [] ==> t[|pre| + |n|] == rest[0];
  }

  /** What a tree needs for its paths to name its nodes. */
  ghost predicate WellNamed(n: Node)
    decreases n
  {
    && (forall j {:trigger n.body[j]} :: 0 <= j < |n.body| && n.body[j].Sub? ==>
          n.body[j].node.name != [] && SLASH !in n.body[j].node.name && WellNamed(n.body[j].node))
    && (forall i, j :: 0 <= i < j < |n.body| && n.body[i].Sub? && n.body[j].Sub? ==> !NameMatches(n.body[i].node.name, n.body[j].node.name))
  }

  lemma {:induction false} NamesPlain(n: Node, p: Path)
    requires WellNamed(n) && OnTree(n, p)
    ensures Names(n, p) != [] && Names(n, p)[0] == n.name && Plain(Names(n, p)[1..])
    decreases |p|
  {
    if p != [] { NamesPlain(n.body[p[0]].node, p[1..]); }
  }

  lemma {:induction false} SelfMatch(name: Name)
    ensures NameMatches(name, name)
  {}

  /** Taking the names of a path from a node leads along the path. */
  lemma {:induction false} ResolveNames(root: Node, p: Path, q: Path)
    requires OnTree(root, p) && WellNamed(NodeAt(root, p)) && OnTree(NodeAt(root, p), q)
    ensures OnTree(root, p + q) && Resolve(root, p, Names(NodeAt(root, p), q)[1..]) == OffsetOf(root, p + q)
    decreases |q|
  {
    hide Entries, Count, Pos, NodeOffset, TokenAt, NameMatches;
    Extend(root, p, q);
    var n := NodeAt(root, p);
    if q == [] {
      assert p + q == p;
    } else {
      var j := q[0];
      SubPos(root, p, j);
      NamesPlain(n.body[j].node, q[1..]);
      ResolveNames(root, p + [j], q[1..]);
      assert (p + [j]) + q[1..] == p + q;
      var names := Names(n, q)[1..];
      assert names == Names(n.body[j].node, q[1..]) && names[0] == n.body[j].node.name;
      SelfMatch(names[0]);
      assert FirstMatch(n.body, 0, names[0]) == j;
    }
  }

  /** Resolving the path text of a node leads back to the node. */
  lemma {:induction false} PathRoundTrip(root: Node, p: Path)
    requires OnTree(root, p) && root.name == [] && WellNamed(root)
    ensures Resolve(root, [], Components(PathText(Names(root, p)), 0)) == OffsetOf(root, p)
    ensures PathText(Names(root, p)) != [] && PathText(Names(root, p))[0] == SLASH
  {
    var names := Names(root, p);
    NamesPlain(root, p);
    var rest := names[1..];
    assert names == [[]] + rest;
    JoinedIsSlashed(rest);
    ResolveNames(root, [], p);
    assert [] + p == p;
    if rest == [] {
      assert PathText(names) == [SLASH];
      assert Components([SLASH], 0) == Components([SLASH], 1) == [];
    } else {
      assert PathText(names) == [] + Slashed(rest);
      SplitSlashed([], rest);
    }
  }

  lemma {:induction false} WellNamedEntries(n: Node, i: nat, d: int)
    requires WellNamed(n) && SLASH !in n.name
    ensures forall e :: e in Entries(n, i, d) ==> SLASH !in e.name
    decreases n
  {
    BodyEntriesNamed(n.body, i + 1, d + 1);
  }

  lemma {:induction false} BodyEntriesNamed(body: seq<Item>, i: nat, d: int)
    requires forall j {:trigger body[j]} :: 0 <= j < |body| && body[j].Sub? ==> SLASH !in body[j].node.name && WellNamed(body[j].node)
    ensures forall e :: e in BodyEntries(body, i, d) ==> SLASH !in e.name
    decreases body
  {
    if body != [] {
      ItemEntriesNamed(body[0], i, d);
      BodyEntriesNamed(body[1..], i + |ItemTokens(body[0])|, d);
    }
  }

  lemma {:induction false} ItemEntriesNamed(item: Item, i: nat, d: int)
    requires item.Sub? ==> SLASH !in item.node.name && WellNamed(item.node)
    ensures forall e :: e in ItemEntries(item, i, d) ==> SLASH !in e.name
    decreases item
  {
    if item.Sub? { WellNamedEntries(item.node, i, d); }
  }

  lemma {:induction false} NulFreeChain(b: Blob, root: Node, k: nat)
    requires Flattens(b, root) && k < |All(root)|
    ensures forall m :: 0 <= m < |Chain(All(root), k)| ==> 0 !in Chain(All(root), k)[m]
  {
    hide All, Flattens;
    NulFreeName(b, root, k);
    if k > 0 { NulFreeChain(b, root, k - 1); }
  }

  lemma {:induction false} NulFreeName(b: Blob, root: Node, k: nat)
    requires Flattens(b, root) && k < |All(root)|
    ensures 0 !in All(root)[k].name
  {
    hide Entries, All, Offset, Stream, TokenBytes;
    NodeFacts(root, k);
    assert Encoded(b, Offset(Stream(root), All(root)[k].index), Stream(root)[All(root)[k].index]);
  }

  lemma {:induction false} NulFreeJoined(names: seq<Name>)
    requires forall m :: 0 <= m < |names| ==> 0 !in names[m]
    ensures 0 !in Joined(names)
    decreases |names|
  {
    if names != [] { NulFreeJoined(names[..|names| - 1]); }
  }

  /** A node's path text is one that can be resolved. */
  lemma {:induction false} TextFacts(b: Blob, root: Node, path: Path)
    requires Flattens(b, root) && OnTree(root, path) && root.name == [] && WellNamed(root)
    ensures var text := PathText(Names(root, path));
      && SlashFree(root) && text != [] && text[0] == SLASH && 0 !in text
      && OnTree(root, []) && Resolve(root, [], Components(text, 0)) == OffsetOf(root, path)
  {
    WellNamedEntries(root, 0, 0);
    assert SlashFree(root);
    hide WellNamed, Entries, Flattens, Joined, Names, Components, Resolve, Chain, Steps, All, Pos, NodeOffset;
    PreorderSteps(root);
    ChainIsNames(root, path);
    NulFreeChain(b, root, Pos(root, path));
    NulFreeJoined(Names(root, path));
    PathRoundTrip(root, path);
  }

  /** Writing a node's path and resolving it gives the node's offset back. */
  method ThereAndBack(b: Blob, nodeoffset: int, buf: array<Byte>, ghost root: Node, ghost path: Path) returns (r: int, offset: int)
    requires Flattens(b, root) && OnTree(root, path) && nodeoffset == OffsetOf(root, path)
    requires root.name == [] && WellNamed(root) && buf.Length < TWO_TO_THE_31 - 1
    modifies buf
    ensures r == 0 <==> buf.Length >= 2 && |Joined(Names(root, path))| <= buf.Length
    ensures r == 0 ==> offset == nodeoffset
  {
    hide *;
    TextFacts(b, root, path);
    r := GetPath(b, nodeoffset, buf, root, path);
    offset := -1;
    if r == 0 {
      ghost var text := PathText(Names(root, path));
      var n := 0;
      while buf[n] != 0
        invariant n <= |text| < buf.Length && buf[..|text|] == text && buf[|text|] == 0 && 0 !in text
        decreases |text| - n
      {
        n := n + 1;
      }
      offset := PathOffset(b, buf[..n], root);
    }
  }
}
