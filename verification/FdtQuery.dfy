/** Queries on a flattened device tree: each scans the block, and each answers for the tree. */
module FdtQuery {
  import opened MachineWords
  import opened FdtTree
  import opened FdtPaths
  import opened FdtBlob

  /** The block is the serialisation of the tree. */
  ghost predicate Flattens(b: Blob, root: Node) { Holds(b, Stream(root)) }

  /** The byte offset of the k-th node in preorder. */
  ghost function NodeOffset(root: Node, k: nat): nat
    requires k < |All(root)|
  {
    var i := All(root)[k].index;
    if i <= |Stream(root)| then Offset(Stream(root), i) else 0
  }

  /** The byte offset of the node at a path. */
  ghost function OffsetOf(root: Node, p: Path): nat
    requires OnTree(root, p)
  {
    EntryOf(root, p);
    NodeOffset(root, Pos(root, p))
  }

  lemma {:induction false} NodeFacts(root: Node, k: nat)
    requires k < |All(root)|
    ensures var ts, e := Stream(root), All(root)[k];
      && e.index < |ts| && ts[e.index] == Begin(e.name) && NodeOffset(root, k) == Offset(ts, e.index)
      && Stopped(ts) && Nested(ts, 0, -1) && Listing(ts, 0, -1) == All(root)
  {
    hide *;
    AllIs(root);
    StreamListed(root);
    ListedAt(Stream(root), 0, -1, k);
    NodeOffsetIs(root, k);
  }

  lemma {:induction false} NodeOffsetIs(root: Node, k: nat)
    requires k < |All(root)|
    ensures All(root)[k].index <= |Stream(root)| ==> NodeOffset(root, k) == Offset(Stream(root), All(root)[k].index)
  {}

  lemma {:induction false} AllIs(root: Node)
    ensures All(root) == Entries(root, 0, 0)
  {}

  /** Preorder and offsets go together. */
  lemma {:induction false} NodeOrder(root: Node, k: nat, m: nat)
    requires k < m < |All(root)|
    ensures NodeOffset(root, k) < NodeOffset(root, m)
    decreases m
  {
    hide *;
    NodeFacts(root, m - 1);
    NodeFacts(root, m);
    ListedAt(Stream(root), 0, -1, m - 1);
    OffsetOrder(Stream(root), All(root)[m - 1].index, All(root)[m].index);
    if k < m - 1 { NodeOrder(root, k, m - 1); }
  }

  /** In preorder depth rises by at most one, and only the root is at depth 0. */
  lemma {:induction false} PreorderSteps(root: Node)
    ensures Steps(All(root))
  {
    var all := All(root);
    forall k {:trigger all[k].depth} | 0 < k < |all| ensures 1 <= all[k].depth <= all[k - 1].depth + 1 { DepthStep(root, k); }
  }

  lemma {:induction false} DepthStep(root: Node, k: nat)
    requires 0 < k < |All(root)|
    ensures 1 <= All(root)[k].depth <= All(root)[k - 1].depth + 1
  {
    hide *;
    AllIs(root);
    Depths(root, 0, 0, k);
    NodeFacts(root, k - 1);
    RestOfListing(Stream(root), 0, -1, k - 1);
    NextIsShallow(Stream(root), All(root)[k - 1].index + 1, All(root)[k - 1].depth);
    assert All(root)[k - 1 + 1..][0] == All(root)[k];
  }

  /** Where a scan of a block leads: to a node, out of the nesting, to an error, or round and round. */
  datatype Reached = Met(offset: int, depth: int) | Left(offset: int, depth: int) | Failed(error: int, depth: int) | Never

  /** The loop of fdt_next_node on any block, from offset `o` with nesting `d`. */
  function ScanBytes(b: Blob, o: nat, d: int): Reached
    requires o % 4 == 0 && o <= TWO_TO_THE_31
    decreases TWO_TO_THE_31 - o
  {
    TagAdvances(b, o);
    var (tag, next) := TagAt(b, o);
    if tag == FDT_BEGIN_NODE then Met(o, d + 1)
    else if tag == FDT_END_NODE && d - 1 < 0 then Left(next, d - 1)
    else if tag == FDT_END then Failed(if next >= 0 then -FDT_ERR_NOTFOUND else next, d)
    else if next <= o then Never
    else ScanBytes(b, next, if tag == FDT_END_NODE then d - 1 else d)
  }

  /** fdt_next_node on any block: a node's own tag is checked first. */
  function StepBytes(b: Blob, offset: int, d: int): Reached {
    if offset < 0 then ScanBytes(b, 0, d)
    else if offset % 4 != 0 || TagAt(b, offset).0 != FDT_BEGIN_NODE then Failed(-FDT_ERR_BADOFFSET, d)
    else
      TagAdvances(b, offset);
      ScanBytes(b, TagAt(b, offset).1, d)
  }

  /** A scan that never ends comes to a property that the reader takes to end where it starts. */
  lemma {:induction false} NeverLoops(b: Blob, o: nat, d: int) returns (p: nat)
    requires o % 4 == 0 && o <= TWO_TO_THE_31 && ScanBytes(b, o, d).Never?
    ensures o <= p && Loops(b, p)
    decreases TWO_TO_THE_31 - o
  {
    hide TagAt, Loops;
    TagAdvances(b, o);
    var (tag, next) := TagAt(b, o);
    p := o;
    if !Loops(b, o) { p := NeverLoops(b, next, if tag == FDT_END_NODE then d - 1 else d); }
  }

  ghost predicate Ends(b: Blob, o: nat, d: int) { o % 4 == 0 && o <= TWO_TO_THE_31 ==> !ScanBytes(b, o, d).Never? }

  /** All scans of a block end exactly when no aligned property of it has the length 2^32 - 12. */
  lemma {:induction false} ScansEndExactly(b: Blob)
    ensures (forall o: nat, d: int :: Ends(b, o, d)) <==> forall p: int :: !Loops(b, p)
  {
    hide Loops, Ends;
    if p: int :| Loops(b, p) {
      LoopNeverEnds(b, p);
    } else {
      forall o: nat, d: int ensures Ends(b, o, d) { EndsWithoutLoop(b, o, d); }
    }
  }

  lemma {:induction false} LoopNeverEnds(b: Blob, p: int)
    requires Loops(b, p)
    ensures p >= 0 && !Ends(b, p, 0)
  {
    hide TagAt;
    TagAdvances(b, p);
  }

  lemma {:induction false} EndsWithoutLoop(b: Blob, o: nat, d: int)
    requires forall p: int :: !Loops(b, p)
    ensures Ends(b, o, d)
  {
    hide Loops, ScanBytes;
    if !Ends(b, o, d) { var p := NeverLoops(b, o, d); }
  }

  /** fdt_next_node never comes back from the first node of a block of eight bytes. */
  lemma {:induction false} EightBytesNever(d: int)
    ensures StepBytes([0, 0, 0, 3, 0xFF, 0xFF, 0xFF, 0xF4], -1, d).Never?
  {
    hide TagAt;
    EightBytes();
  }

  /** fdt_next_node, with a depth counter, on any block; `ended` is false when it never comes back. */
  method NextNode(b: Blob, offset0: int, depth0: int) returns (ended: bool, offset: int, depth: int)
    requires MIN_INT <= offset0 < TWO_TO_THE_31
    ensures ended <==> !StepBytes(b, offset0, depth0).Never?
    ensures match StepBytes(b, offset0, depth0)
      case Met(o, d) => offset == o && depth == d
      case Left(o, d) => offset == o && depth == d
      case Failed(e, d) => offset == e && depth == d
      case Never => Loops(b, offset)
  {
    hide TagAt, Loops;
    ended, offset, depth := true, offset0, depth0;
    var tag, next := 0, 0;
    if offset >= 0 {
      TagAdvances(b, offset);
      tag, next := NextTag(b, offset);
      if offset % 4 != 0 || tag != FDT_BEGIN_NODE { return true, -FDT_ERR_BADOFFSET, depth; }
    }
    while true
      invariant ended && 0 <= next <= TWO_TO_THE_31 && next % 4 == 0
      invariant ScanBytes(b, next, depth) == StepBytes(b, offset0, depth0)
      decreases TWO_TO_THE_31 - next
    {
      offset := next;
      TagAdvances(b, offset);
      tag, next := NextTag(b, offset);
      if tag == FDT_BEGIN_NODE {
        depth := depth + 1;
        return;
      } else if tag == FDT_END_NODE {
        depth := depth - 1;
        if depth < 0 { return true, next, depth; }
      } else if tag == FDT_END {
        return true, if next >= 0 then -FDT_ERR_NOTFOUND else next, depth;
      }
      if next == offset { return false, offset, depth; }
    }
  }

  /** On the serialisation of tokens the scan of the bytes is the scan of the tokens. */
  lemma {:induction false} ScanOfTokens(b: Blob, ts: seq<Token>, i: nat, d: int)
    requires Holds(b, ts) && Stopped(ts) && d >= 0 && i < |ts|
    ensures Offset(ts, i) % 4 == 0 && Offset(ts, i) <= TWO_TO_THE_31
    ensures match Scan(ts, i, d)
      case At(j, e) => j < |ts| && ScanBytes(b, Offset(ts, i), d) == Met(Offset(ts, j), e)
      case Out(j) => j <= |ts| && ScanBytes(b, Offset(ts, i), d) == Left(Offset(ts, j), -1)
      case Over(e) => ScanBytes(b, Offset(ts, i), d) == Failed(-FDT_ERR_NOTFOUND, e)
    decreases |ts| - i
  {
    hide Readable, Offset, Holds, TagAt, TokenSize, RawSize;
    TokenInBlock(b, ts, i);
    OffsetBound(b, ts, i);
    OffsetStep(ts, i);
    TagOfToken(b, Offset(ts, i), ts[i], Offset(ts, i + 1));
    if !ts[i].Begin? && !ts[i].Stop? && !(ts[i].End? && d == 0) {
      ScanOfTokens(b, ts, i + 1, if ts[i].End? then d - 1 else d);
    }
  }

  // ---------- a small tree, byte by byte

  /** The root with a property, padding, and the subnode "ab". */
  function SmallTree(): Node {
    Node([], [Property(7, [1, 2, 3, 4, 5]), Padding, Sub(Node(['a' as nat, 'b' as nat], []))])
  }

  function SmallBlock(): (b: Blob)
    ensures |b| == 52
  {
    [0, 0, 0, 1, 0, 0, 0, 0] + SmallProperty() + [0, 0, 0, 4] + [0, 0, 0, 1, 'a' as nat, 'b' as nat, 0, 0]
    + [0, 0, 0, 2] + [0, 0, 0, 2] + [0, 0, 0, 9]
  }

  function SmallProperty(): (b: seq<Byte>)
    ensures |b| == 20
  {
    [0, 0, 0, 3] + [0, 0, 0, 5] + [0, 0, 0, 7] + [1, 2, 3, 4, 5, 0, 0, 0]
  }

  function SmallTokens(): seq<Token> {
    [Begin([]), Prop(7, [1, 2, 3, 4, 5]), Nop, Begin(['a' as nat, 'b' as nat]), End, End, Stop]
  }

  /** The block is the tree's. */
  lemma {:induction false} SmallTreeSerialised()
    ensures Stream(SmallTree()) == SmallTokens() && Flattens(SmallBlock(), SmallTree())
  {
    hide Serialise, TokenBytes, Stream, Holds, Sane, Offset, SmallTree;
    SmallStream();
    SmallOffsets();
    SmallSerialised();
    SerialiseHolds(SmallTokens());
  }

  lemma {:induction false} SmallSerialised()
    ensures (forall t :: t in SmallTokens() ==> Sane(t)) && Serialise(SmallTokens()) == SmallBlock()
  {
    hide Serialise, TokenBytes, Sane;
    var ts := SmallTokens();
    SmallBytes();
    assert ts[..0] == [] && ts[..7] == ts;
    NothingSerialised();
    SerialiseTake(ts, 0);
    SerialiseTake(ts, 1);
    SerialiseTake(ts, 2);
    SerialiseTake(ts, 3);
    SerialiseTake(ts, 4);
    SerialiseTake(ts, 5);
    SerialiseTake(ts, 6);
    assert [] + [0, 0, 0, 1, 0, 0, 0, 0] == [0, 0, 0, 1, 0, 0, 0, 0];
  }

  lemma {:induction false} NothingSerialised()
    ensures Serialise([]) == []
  {}

  lemma {:induction false} SerialiseTake(ts: seq<Token>, k: nat)
    requires k < |ts| && forall t :: t in ts ==> Sane(t)
    ensures Serialise(ts[..k + 1]) == Serialise(ts[..k]) + TokenBytes(ts[k])
  {
    assert ts[..k + 1][..k] == ts[..k];
  }

  lemma {:induction false} SmallBytes()
    ensures forall t :: t in SmallTokens() ==> Sane(t)
    ensures TokenBytes(Begin([])) == [0, 0, 0, 1, 0, 0, 0, 0] && TokenBytes(Nop) == [0, 0, 0, 4]
    ensures TokenBytes(Prop(7, [1, 2, 3, 4, 5])) == SmallProperty()
    ensures TokenBytes(Begin(['a' as nat, 'b' as nat])) == [0, 0, 0, 1, 'a' as nat, 'b' as nat, 0, 0]
    ensures TokenBytes(End) == [0, 0, 0, 2] && TokenBytes(Stop) == [0, 0, 0, 9]
  {
    hide TokenBytes;
    ShortBytes();
    NamedBytes();
    PropertyBytes();
  }

  lemma {:induction false} ShortBytes()
    ensures TokenBytes(Nop) == [0, 0, 0, 4] && TokenBytes(End) == [0, 0, 0, 2] && TokenBytes(Stop) == [0, 0, 0, 9]
  {}

  lemma {:induction false} NamedBytes()
    ensures TokenBytes(Begin([])) == [0, 0, 0, 1, 0, 0, 0, 0]
    ensures TokenBytes(Begin(['a' as nat, 'b' as nat])) == [0, 0, 0, 1, 'a' as nat, 'b' as nat, 0, 0]
  {}

  lemma {:induction false} PropertyBytes()
    ensures TokenBytes(Prop(7, [1, 2, 3, 4, 5])) == SmallProperty()
  {
    var value: seq<Byte> := [1, 2, 3, 4, 5];
    assert RawBytes(Prop(7, value)) == [0, 0, 0, 3] + [0, 0, 0, 5] + [0, 0, 0, 7] + value;
  }

  lemma {:induction false} SmallStream()
    ensures Stream(SmallTree()) == SmallTokens()
  {
    var body := SmallTree().body;
    var ab: Node := Node(['a' as nat, 'b' as nat], []);
    assert Tokens(ab) == [Begin(['a' as nat, 'b' as nat]), End];
    assert body[2..] == [Sub(ab)] && body[2..][1..] == [];
    assert BodyTokens(body[2..]) == [Begin(['a' as nat, 'b' as nat]), End];
    assert body[1..][1..] == body[2..] && BodyTokens(body[1..]) == [Nop] + BodyTokens(body[2..]);
    assert BodyTokens(body) == [Prop(7, [1, 2, 3, 4, 5])] + BodyTokens(body[1..]);
  }

  lemma {:induction false} SmallOffsets()
    ensures var ts := SmallTokens();
      && Offset(ts, 0) == 0 && Offset(ts, 1) == 8 && Offset(ts, 2) == 28 && Offset(ts, 3) == 32 && Offset(ts, 4) == 40
      && Offset(ts, 5) == 44 && Offset(ts, 6) == 48 && Offset(ts, 7) == 52
  {
    hide Offset;
    var ts := SmallTokens();
    OffsetZero(ts);
    OffsetStep(ts, 0);
    OffsetStep(ts, 1);
    OffsetStep(ts, 2);
    OffsetStep(ts, 3);
    OffsetStep(ts, 4);
    OffsetStep(ts, 5);
    OffsetStep(ts, 6);
  }

  lemma {:induction false} OffsetZero(ts: seq<Token>)
    ensures Offset(ts, 0) == 0
  {}

  /** Every tag of the block. */
  lemma {:induction false} SmallTags()
    ensures var b := SmallBlock();
      && TagAt(b, 0) == (1, 8) && TagAt(b, 8) == (3, 28) && TagAt(b, 28) == (4, 32) && TagAt(b, 32) == (1, 40)
      && TagAt(b, 40) == (2, 44) && TagAt(b, 44) == (2, 48) && TagAt(b, 48) == (9, 52) && TagAt(b, 52) == (9, -8) && TagAt(b, 4) == (9, -11)
  {
    hide SmallBlock, TagAt, Offset;
    SmallOffsets();
    SmallTag(0);
    SmallTag(1);
    SmallTag(2);
    SmallTag(3);
    SmallTag(4);
    SmallTag(5);
    SmallTag(6);
    TagErrors(SmallBlock(), 52);
    NoTagInName();
  }

  lemma {:induction false} SmallTag(i: nat)
    requires i < 7
    ensures var b, ts := SmallBlock(), SmallTokens(); TagAt(b, Offset(ts, i)) == (Tag(ts[i]), Offset(ts, i + 1))
  {
    hide SmallBlock, TagAt, Offset, Holds, Readable, Stream;
    SmallTreeSerialised();
    var b, ts := SmallBlock(), SmallTokens();
    TokenInBlock(b, ts, i);
    TagOfToken(b, Offset(ts, i), ts[i], Offset(ts, i + 1));
  }

  lemma {:induction false} NoTagInName()
    ensures TagAt(SmallBlock(), 4) == (9, -11)
  {
    TagErrors(SmallBlock(), 4);
    var b := SmallBlock();
    assert b[4] == 0 && b[5] == 0 && b[6] == 0 && b[7] == 0;
    hide TagAt;
    assert Word(b, 4) == 0;
  }

  /** Every scan of the block: to the root, to the subnode, out of it, past the end, and from a place that is no node. */
  lemma {:induction false} SmallScans()
    ensures var b := SmallBlock();
      && StepBytes(b, -1, 0) == Met(0, 1) && StepBytes(b, 0, 0) == Met(32, 1)
      && StepBytes(b, 32, 1) == Left(48, -1) && StepBytes(b, 32, 2) == Failed(-1, 0) && StepBytes(b, 4, 0) == Failed(-4, 0)
  {
    hide TagAt, SmallBlock;
    SmallTags();
    var b := SmallBlock();
    assert ScanBytes(b, 48, 0) == Failed(-1, 0);
    assert ScanBytes(b, 44, 0) == Left(48, -1) && ScanBytes(b, 44, 1) == ScanBytes(b, 48, 0);
    assert ScanBytes(b, 40, 1) == ScanBytes(b, 44, 0) && ScanBytes(b, 40, 2) == ScanBytes(b, 44, 1);
    assert ScanBytes(b, 32, 0) == Met(32, 1);
    assert ScanBytes(b, 28, 0) == ScanBytes(b, 32, 0);
    assert ScanBytes(b, 8, 0) == ScanBytes(b, 28, 0);
  }

  lemma {:induction false} OffsetBound(b: Blob, ts: seq<Token>, i: nat)
    requires Holds(b, ts) && i < |ts|
    ensures Offset(ts, i) < |b|
  {
    OffsetOrder(ts, i, |ts|);
  }

  /** Where a step from the k-th node leads: the next node while it is deeper than `c`, else out or to the end. */
  ghost predicate Stepped(root: Node, k: nat, c: int, offset: int, depth: int) {
    if k + 1 < |All(root)| && All(root)[k + 1].depth > c then
      offset == NodeOffset(root, k + 1) && depth == All(root)[k + 1].depth - c
    else if c >= 0 then offset >= 0 && depth < 0
    else offset == -FDT_ERR_NOTFOUND && depth >= 0
  }

  /** fdt_next_node from the k-th node, with depths counted from `c`. */
  method NextFrom(b: Blob, offset0: int, depth0: int, ghost root: Node, ghost k: nat, ghost c: int) returns (offset: int, depth: int)
    requires Flattens(b, root) && k < |All(root)| && offset0 == NodeOffset(root, k) && depth0 == All(root)[k].depth - c >= 0
    ensures Stepped(root, k, c, offset, depth)
  {
    hide Scan, Nested, Listing, Entries, All, Stream, Offset, Holds, NodeOffset, TagAt, ScanBytes;
    ghost var ts := Stream(root);
    NodeFacts(root, k);
    NextEntry(ts, k, c);
    if k + 1 < |All(root)| {
      NodeFacts(root, k + 1);
      assert All(root)[k + 1..][0] == All(root)[k + 1];
    }
    ghost var i := All(root)[k].index;
    OverDepth(ts, i + 1, depth0);
    NodeTag(b, ts, i);
    ScanOfTokens(b, ts, i + 1, depth0);
    var ended;
    ended, offset, depth := NextNode(b, offset0, depth0);
  }

  lemma {:induction false} NodeTag(b: Blob, ts: seq<Token>, i: nat)
    requires Holds(b, ts) && Stopped(ts) && i < |ts| && ts[i].Begin?
    ensures i + 1 < |ts| && Offset(ts, i) % 4 == 0 && Offset(ts, i) < TWO_TO_THE_31 && TagAt(b, Offset(ts, i)) == (FDT_BEGIN_NODE, Offset(ts, i + 1))
  {
    hide Readable, Offset, Holds, TagAt;
    TokenInBlock(b, ts, i);
    OffsetBound(b, ts, i);
    OffsetStep(ts, i);
    TagOfToken(b, Offset(ts, i), ts[i], Offset(ts, i + 1));
  }

  lemma {:induction false} OverDepth(ts: seq<Token>, i: nat, d: int)
    requires i <= |ts| && d >= 0
    ensures Scan(ts, i, d).Over? ==> Scan(ts, i, d).depth >= 0
    decreases |ts| - i
  {
    if i < |ts| && !ts[i].Begin? && !ts[i].Stop? && !(ts[i].End? && d == 0) {
      OverDepth(ts, i + 1, if ts[i].End? then d - 1 else d);
    }
  }

  /** The offset of a node's first child, or the not-found error. */
  ghost function ChildOffset(root: Node, p: Path): int
    requires OnTree(root, p)
  {
    var s := NextSub(NodeAt(root, p).body, 0);
    if s < |NodeAt(root, p).body| then
      SubPos(root, p, s);
      OffsetOf(root, p + [s])
    else -FDT_ERR_NOTFOUND
  }

  /** The offset of a node's next sibling, or the not-found error. */
  ghost function SiblingOffset(root: Node, p: Path): int
    requires OnTree(root, p)
  {
    if p == [] then -FDT_ERR_NOTFOUND
    else
      LastStep(root, p);
      var r := p[..|p| - 1];
      var s := NextSub(NodeAt(root, r).body, p[|p| - 1] + 1);
      if s < |NodeAt(root, r).body| then
        SubPos(root, r, s);
        OffsetOf(root, r + [s])
      else -FDT_ERR_NOTFOUND
  }

  /** The preorder index `m` is that of a node at depth `d`, whose offset is `r`. */
  ghost predicate IsAt(root: Node, m: nat, d: int, r: int) {
    m < |All(root)| && All(root)[m].depth == d && NodeOffset(root, m) == r
  }

  /** No node at `m` deeper than `c`. */
  ghost predicate Leaves(root: Node, m: nat, c: int) { !(m < |All(root)| && All(root)[m].depth > c) }

  /** After a node in preorder comes its first child, one deeper, or a node no deeper. */
  lemma {:induction false} ChildOrEnd(root: Node, p: Path)
    requires OnTree(root, p)
    ensures var m, r := Pos(root, p) + 1, ChildOffset(root, p);
      IsAt(root, m, |p| + 1, r) || (r == -FDT_ERR_NOTFOUND && Leaves(root, m, |p|))
  {
    hide Entries, All, Count, Pos, NodeAt, NodeOffset, OnTree;
    FirstChild(root, p);
    var body := NodeAt(root, p).body;
    var s := NextSub(body, 0);
    if s < |body| { EntryOf(root, p + [s]); } else { EndOfSubtree(root, p); }
  }

  lemma {:induction false} StepToChild(root: Node, p: Path, offset: int, depth: int)
    requires OnTree(root, p) && Stepped(root, Pos(root, p), |p|, offset, depth)
    ensures if ChildOffset(root, p) >= 0 then offset == ChildOffset(root, p) && depth == 1 else depth < 0
    ensures ChildOffset(root, p) < 0 ==> ChildOffset(root, p) == -FDT_ERR_NOTFOUND
  {
    hide Entries, All, Count, Pos, NodeAt, NodeOffset, OnTree, ChildOffset;
    ChildOrEnd(root, p);
  }

  /** fdt_subnode: the first child. */
  method Subnode(b: Blob, offset0: int, ghost root: Node, ghost p: Path) returns (r: int)
    requires Flattens(b, root) && OnTree(root, p) && offset0 == OffsetOf(root, p)
    ensures r == ChildOffset(root, p)
  {
    hide Entries, All, Count, Pos, NodeAt, NodeOffset, OnTree, ChildOffset, Stepped;
    ghost var k, first := Pos(root, p), true;
    EntryOf(root, p);
    var offset, depth := offset0, 0;
    while offset >= 0 && depth >= 0
      invariant first ==> offset == offset0 == NodeOffset(root, k) && depth == 0
      invariant !first ==> if ChildOffset(root, p) >= 0 then offset == ChildOffset(root, p) && depth == 1 else depth < 0
      invariant !first && ChildOffset(root, p) < 0 ==> ChildOffset(root, p) == -FDT_ERR_NOTFOUND
      decreases first
    {
      if depth == 1 { return offset; }
      offset, depth := NextFrom(b, offset, depth, root, k, |p|);
      StepToChild(root, p, offset, depth);
      first := false;
    }
    if depth < 0 { return -FDT_ERR_NOTFOUND; }
    return offset;
  }

  /** After a subtree comes its root's next sibling, or a shallower node. */
  lemma {:induction false} SiblingOrEnd(root: Node, p: Path)
    requires OnTree(root, p)
    ensures var m, r := Pos(root, p) + Count(NodeAt(root, p)), SiblingOffset(root, p);
      IsAt(root, m, |p|, r) || (r == -FDT_ERR_NOTFOUND && Leaves(root, m, |p| - 1))
  {
    hide Entries, All, Count, Pos, NodeAt, NodeOffset, OnTree;
    if p == [] {
      WholeTree(root);
    } else {
      LastStep(root, p);
      var r, j := p[..|p| - 1], p[|p| - 1];
      NextSibling(root, r, j);
      var s := NextSub(NodeAt(root, r).body, j + 1);
      if s < |NodeAt(root, r).body| { EntryOf(root, r + [s]); } else { EndOfSubtree(root, r); }
    }
  }

  lemma {:induction false} WholeTree(root: Node)
    ensures OnTree(root, []) && Pos(root, []) + Count(NodeAt(root, [])) == |All(root)|
  {
    CountIsLength(root, 0, 0);
  }

  /** The step from place `m` of a subtree stays inside it, or is at its sibling, or has run out. */
  ghost predicate Near(root: Node, p: Path, m: nat, offset: int, depth: int)
    requires OnTree(root, p)
  {
    && (m + 1 < Pos(root, p) + Count(NodeAt(root, p)) ==> IsAt(root, m + 1, depth + |p| - 1, offset) && depth > 1)
    && (m + 1 == Pos(root, p) + Count(NodeAt(root, p)) ==>
          if IsAt(root, m + 1, |p|, SiblingOffset(root, p)) then offset == SiblingOffset(root, p) && depth == 1
          else SiblingOffset(root, p) == -FDT_ERR_NOTFOUND && if p == [] then offset == -FDT_ERR_NOTFOUND && depth >= 0 else depth < 0)
  }

  lemma {:induction false} NearMeans(root: Node, p: Path, m: nat, offset: int, depth: int)
    requires OnTree(root, p) && m < Pos(root, p) + Count(NodeAt(root, p)) && Near(root, p, m, offset, depth)
    ensures depth == 1 && offset >= 0 ==> offset == SiblingOffset(root, p)
    ensures depth > 1 && offset >= 0 ==> m + 1 < Pos(root, p) + Count(NodeAt(root, p)) && IsAt(root, m + 1, depth + |p| - 1, offset)
    ensures !(offset >= 0 && depth >= 1) ==> SiblingOffset(root, p) == (if depth < 0 then -FDT_ERR_NOTFOUND else offset)
  {
    hide Entries, All, Count, Pos, NodeAt, NodeOffset, OnTree, SiblingOffset;
  }

  /** A step inside a subtree goes on inside it, or to what comes after. */
  lemma {:induction false} InsideOrAfter(root: Node, p: Path, m: nat, offset: int, depth: int)
    requires OnTree(root, p) && Pos(root, p) <= m < Pos(root, p) + Count(NodeAt(root, p)) && Stepped(root, m, |p| - 1, offset, depth)
    ensures Near(root, p, m, offset, depth)
  {
    hide Entries, All, Count, Pos, NodeAt, NodeOffset, OnTree, SiblingOffset;
    SiblingOrEnd(root, p);
    if m + 1 < Pos(root, p) + Count(NodeAt(root, p)) { Deeper(root, p, m + 1); }
  }

  /** fdt_sibling: the next child of the same parent. */
  method Sibling(b: Blob, offset0: int, ghost root: Node, ghost p: Path) returns (r: int)
    requires Flattens(b, root) && OnTree(root, p) && offset0 == OffsetOf(root, p)
    ensures r == SiblingOffset(root, p)
  {
    hide Entries, All, Count, Pos, NodeAt, NodeOffset, OnTree, Stepped, SiblingOffset, Near, Flattens;
    ghost var m, after := Pos(root, p), Pos(root, p) + Count(NodeAt(root, p));
    EntryOf(root, p);
    var offset, depth := NextFrom(b, offset0, 1, root, m, |p| - 1);
    InsideOrAfter(root, p, m, offset, depth);
    while offset >= 0 && depth >= 1
      invariant Pos(root, p) <= m < after && Near(root, p, m, offset, depth)
      decreases after - m
    {
      NearMeans(root, p, m, offset, depth);
      if depth == 1 { return offset; }
      m := m + 1;
      offset, depth := NextFrom(b, offset, depth, root, m, |p| - 1);
      InsideOrAfter(root, p, m, offset, depth);
    }
    NearMeans(root, p, m, offset, depth);
    if depth < 0 { return -FDT_ERR_NOTFOUND; }
    return offset;
  }

  /** fdt_supernode_atdepth_offset: the ancestor at a depth; and the node's own depth. */
  method SupernodeAtDepth(b: Blob, nodeoffset: int, superdepth: int, ghost root: Node, ghost p: Path) returns (r: int, nodedepth: int)
    requires Flattens(b, root) && OnTree(root, p) && nodeoffset == OffsetOf(root, p)
    ensures superdepth < 0 || superdepth > |p| ==> r == -FDT_ERR_NOTFOUND
    ensures superdepth >= 0 ==> nodedepth == |p|
    ensures 0 <= superdepth <= |p| ==> OnTree(root, p[..superdepth]) && r == OffsetOf(root, p[..superdepth])
  {
    hide Entries, All, Count, Pos, NodeAt, NodeOffset, OnTree, Offset;
    r, nodedepth := -FDT_ERR_INTERNAL, 0;
    if superdepth < 0 { return -FDT_ERR_NOTFOUND, nodedepth; }
    ghost var target, k := Pos(root, p), 0;
    ghost var a := if superdepth <= |p| then superdepth else |p|;
    EntryOf(root, p);
    Ancestor(root, p, a);
    EntryOf(root, p[..a]);
    ghost var up := Pos(root, p[..a]);
    RootFirst(root);
    if 0 < target { NodeOrder(root, 0, target); }
    var offset, depth := 0, 0;
    while offset >= 0 && offset <= nodeoffset
      invariant k <= target && offset == NodeOffset(root, k) <= nodeoffset && depth == All(root)[k].depth
      invariant superdepth <= |p| && up < k ==> r == NodeOffset(root, up)
      decreases target - k
    {
      if up < k { Deeper(root, p[..a], k); }
      if depth == superdepth { r := offset; }
      if k < target { NodeOrder(root, k, target); }
      if offset == nodeoffset {
        nodedepth := depth;
        if superdepth > depth { return -FDT_ERR_NOTFOUND, nodedepth; }
        return;
      }
      assert k + 1 < |All(root)|;
      DepthStep(root, k + 1);
      offset, depth := NextFrom(b, offset, depth, root, k, 0);
      k := k + 1;
      if k < target { NodeOrder(root, k, target); }
    }
    assert false;
  }

  lemma {:induction false} RootFirst(root: Node)
    ensures |All(root)| > 0 && All(root)[0].depth == 0 && NodeOffset(root, 0) == 0
  {}

  /** fdt_node_depth */
  method NodeDepth(b: Blob, nodeoffset: int, ghost root: Node, ghost p: Path) returns (r: int)
    requires Flattens(b, root) && OnTree(root, p) && nodeoffset == OffsetOf(root, p)
    ensures r == |p|
  {
    var err, nodedepth := SupernodeAtDepth(b, nodeoffset, 0, root, p);
    RootFirst(root);
    assert p[..0] == [];
    if err != 0 { return if err < 0 then err else -FDT_ERR_INTERNAL; }
    return nodedepth;
  }

  /** fdt_parent_offset */
  method ParentOffset(b: Blob, nodeoffset: int, ghost root: Node, ghost p: Path) returns (r: int)
    requires Flattens(b, root) && OnTree(root, p) && nodeoffset == OffsetOf(root, p)
    ensures p == [] ==> r == -FDT_ERR_NOTFOUND
    ensures p != [] ==> OnTree(root, p[..|p| - 1]) && r == OffsetOf(root, p[..|p| - 1])
  {
    var nodedepth := NodeDepth(b, nodeoffset, root, p);
    if nodedepth < 0 { return nodedepth; }
    nodedepth := nodedepth - 1;
    r, nodedepth := SupernodeAtDepth(b, nodeoffset, nodedepth, root, p);
  }
}
