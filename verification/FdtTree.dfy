/**
 A device tree, its serialisation as a stream of tokens (section 5.4 of the Devicetree
 Specification), and the scan that follows nesting depth along the stream.
 */
module FdtTree {
  import opened MachineWords

  type Name = seq<Byte>

  /** A node holds properties, padding and subnodes, in any order. */
  datatype Node = Node(name: Name, body: seq<Item>)
  datatype Item = Property(nameoff: nat, value: seq<Byte>) | Padding | Sub(node: Node)

  datatype Token = Begin(name: Name) | End | Prop(nameoff: nat, value: seq<Byte>) | Nop | Stop

  function Tokens(n: Node): seq<Token> { [Begin(n.name)] + BodyTokens(n.body) + [End] }

  function BodyTokens(body: seq<Item>): seq<Token> {
    if body == [] then [] else ItemTokens(body[0]) + BodyTokens(body[1..])
  }

  function ItemTokens(item: Item): seq<Token> {
    match item
    case Property(nameoff, value) => [Prop(nameoff, value)]
    case Padding => [Nop]
    case Sub(node) => Tokens(node)
  }

  /** The structure block of a tree. */
  function Stream(root: Node): seq<Token> { Tokens(root) + [Stop] }

  // ---------- scanning the stream

  /** A node found, with its depth; the end of the node scanning began in; or the end of the stream. */
  datatype Found = At(index: nat, depth: int) | Out(index: nat) | Over(depth: int)

  /** The loop of fdt_next_node, from token `i` with nesting `d`. */
  function Scan(ts: seq<Token>, i: nat, d: int): Found
    requires i <= |ts|
    decreases |ts| - i
  {
    if i == |ts| then Over(d)
    else match ts[i]
      case Prop(_, _) => Scan(ts, i + 1, d)
      case Nop => Scan(ts, i + 1, d)
      case Begin(_) => At(i, d + 1)
      case End => if d - 1 < 0 then Out(i + 1) else Scan(ts, i + 1, d - 1)
      case Stop => Over(d)
  }

  /** A node met on the stream. */
  datatype Entry = Entry(index: nat, depth: int, name: Name)

  /** All nodes from token `i` on, in order, with their depths. */
  function Listing(ts: seq<Token>, i: nat, d: int): seq<Entry>
    requires i <= |ts|
    decreases |ts| - i
  {
    if i == |ts| then []
    else match ts[i]
      case Begin(name) => [Entry(i, d + 1, name)] + Listing(ts, i + 1, d + 1)
      case End => Listing(ts, i + 1, d - 1)
      case _ => Listing(ts, i + 1, d)
  }

  /** Entries are at begin tokens, in increasing order. */
  lemma {:induction false} ListedAt(ts: seq<Token>, i: nat, d: int, k: nat)
    requires i <= |ts| && k < |Listing(ts, i, d)|
    ensures var all := Listing(ts, i, d);
      && i <= all[k].index < |ts| && ts[all[k].index] == Begin(all[k].name)
      && (k + 1 < |all| ==> all[k].index < all[k + 1].index)
    decreases |ts| - i
  {
    hide Listing, Nested;
    StepAny(ts, i, d);
    if ts[i].Begin? {
      var rest := Listing(ts, i + 1, d + 1);
      assert Listing(ts, i, d)[1..] == rest;
      if k > 0 { ListedAt(ts, i + 1, d + 1, k - 1); } else if rest != [] { ListedAt(ts, i + 1, d + 1, 0); }
    } else {
      ListedAt(ts, i + 1, if ts[i].End? then d - 1 else d, k);
    }
  }

  /** From nesting `d` on, nodes end only after they begin, and all of them end. */
  ghost predicate Nested(ts: seq<Token>, i: nat, d: int)
    requires i <= |ts|
    decreases |ts| - i
  {
    if i == |ts| then d == -1
    else if ts[i].Begin? then Nested(ts, i + 1, d + 1)
    else if ts[i].End? then d >= 0 && Nested(ts, i + 1, d - 1)
    else Nested(ts, i + 1, d)
  }

  /** Only the last token is Stop. */
  ghost predicate Stopped(ts: seq<Token>) {
    |ts| > 0 && ts[|ts| - 1] == Stop && forall i :: 0 <= i < |ts| - 1 ==> ts[i] != Stop
  }

  /** What a scan with depths counted from `c` finds after a point where the nesting is `d`. */
  ghost predicate Finds(next: seq<Entry>, c: int, found: Found) {
    if next != [] && next[0].depth > c then found == At(next[0].index, next[0].depth - c)
    else if c >= 0 then found.Out?
    else found.Over?
  }

  lemma {:induction false} ScanFinds(ts: seq<Token>, i: nat, d: int, c: int)
    requires i < |ts| && Stopped(ts) && d - c >= 0 && Nested(ts, i, d)
    ensures Finds(Listing(ts, i, d), c, Scan(ts, i, d - c))
    decreases |ts| - i
  {
    hide Listing, Nested;
    StepAny(ts, i, d);
    if i + 1 < |ts| {
      if ts[i].End? {
        if d - 1 - c >= 0 { ScanFinds(ts, i + 1, d - 1, c); } else { NextIsShallow(ts, i + 1, d - 1); }
      } else if !ts[i].Begin? {
        ScanFinds(ts, i + 1, d, c);
      }
    } else {
      StepAny(ts, i + 1, d);
      AtEnd(ts, d);
    }
  }

  lemma {:induction false} AtEnd(ts: seq<Token>, d: int)
    ensures Nested(ts, |ts|, d) <==> d == -1
  {}

  /** The next node can only be one deeper than the nesting. */
  lemma {:induction false} NextIsShallow(ts: seq<Token>, i: nat, d: int)
    requires i <= |ts|
    ensures var next := Listing(ts, i, d); next != [] ==> next[0].depth <= d + 1
    decreases |ts| - i
  {
    if i < |ts| && !ts[i].Begin? { NextIsShallow(ts, i + 1, if ts[i].End? then d - 1 else d); }
  }

  /** The rest of a listing is the listing of the rest. */
  lemma {:induction false} RestOfListing(ts: seq<Token>, i: nat, d: int, k: nat)
    requires i <= |ts| && k < |Listing(ts, i, d)|
    ensures var e := Listing(ts, i, d)[k];
      e.index < |ts| && Listing(ts, e.index + 1, e.depth) == Listing(ts, i, d)[k + 1..] && (Nested(ts, i, d) ==> Nested(ts, e.index + 1, e.depth))
    decreases |ts| - i
  {
    hide Listing, Nested;
    StepAny(ts, i, d);
    if ts[i].Begin? {
      var rest := Listing(ts, i + 1, d + 1);
      assert Listing(ts, i, d)[1..] == rest;
      if k > 0 {
        RestOfListing(ts, i + 1, d + 1, k - 1);
        assert Listing(ts, i, d)[k] == rest[k - 1] && Listing(ts, i, d)[k + 1..] == rest[k..];
      }
    } else {
      RestOfListing(ts, i + 1, if ts[i].End? then d - 1 else d, k);
    }
  }

  lemma {:induction false} StepAny(ts: seq<Token>, i: nat, d: int)
    requires i <= |ts|
    ensures i == |ts| ==> Listing(ts, i, d) == []
    ensures i < |ts| && ts[i].Begin? ==>
      Listing(ts, i, d) == [Entry(i, d + 1, ts[i].name)] + Listing(ts, i + 1, d + 1) && (Nested(ts, i, d) <==> Nested(ts, i + 1, d + 1))
    ensures i < |ts| && ts[i].End? ==>
      Listing(ts, i, d) == Listing(ts, i + 1, d - 1) && (Nested(ts, i, d) <==> d >= 0 && Nested(ts, i + 1, d - 1))
    ensures i < |ts| && !ts[i].Begin? && !ts[i].End? ==>
      Listing(ts, i, d) == Listing(ts, i + 1, d) && (Nested(ts, i, d) <==> Nested(ts, i + 1, d))
  {}

  /** fdt_next_node from entry `k`, with depths counted from `c`. */
  lemma {:induction false} NextEntry(ts: seq<Token>, k: nat, c: int)
    requires Stopped(ts) && Nested(ts, 0, -1) && k < |Listing(ts, 0, -1)| && Listing(ts, 0, -1)[k].depth - c >= 0
    ensures var all := Listing(ts, 0, -1); all[k].index < |ts| && Finds(all[k + 1..], c, Scan(ts, all[k].index + 1, all[k].depth - c))
  {
    hide Listing, Nested, Finds, Scan;
    var all := Listing(ts, 0, -1);
    RestOfListing(ts, 0, -1, k);
    ListedAt(ts, 0, -1, k);
    ScanFinds(ts, all[k].index + 1, all[k].depth, c);
  }

  // ---------- streams of trees

  /** The nodes of a tree in preorder, for a tree whose tokens start at `i`. */
  function Entries(n: Node, i: nat, d: int): seq<Entry> {
    [Entry(i, d, n.name)] + BodyEntries(n.body, i + 1, d + 1)
  }

  function BodyEntries(body: seq<Item>, i: nat, d: int): seq<Entry> {
    if body == [] then []
    else ItemEntries(body[0], i, d) + BodyEntries(body[1..], i + |ItemTokens(body[0])|, d)
  }

  function ItemEntries(item: Item, i: nat, d: int): seq<Entry> {
    if item.Sub? then Entries(item.node, i, d) else []
  }

  /** The tokens at `i` in a stream are `part`. */
  ghost predicate Part(ts: seq<Token>, i: nat, part: seq<Token>) {
    i + |part| <= |ts| && ts[i..i + |part|] == part
  }

  lemma {:induction false} PartSplit(ts: seq<Token>, i: nat, a: seq<Token>, b: seq<Token>)
    requires Part(ts, i, a + b)
    ensures Part(ts, i, a) && Part(ts, i + |a|, b)
  {
    assert ts[i..i + |a + b|][..|a|] == a;
    assert ts[i..i + |a + b|][|a|..] == b;
  }

  /** What a tree contributes to a listing, and that it leaves the nesting as it was. */
  lemma {:induction false} TreeListed(ts: seq<Token>, i: nat, d: int, n: Node)
    requires Part(ts, i, Tokens(n)) && d >= -1
    ensures var j := i + |Tokens(n)|;
      Listing(ts, i, d) == Entries(n, i, d + 1) + Listing(ts, j, d) && (Nested(ts, j, d) ==> Nested(ts, i, d))
    ensures forall k :: i <= k < i + |Tokens(n)| ==> ts[k] != Stop
    decreases n
  {
    hide Listing, Nested;
    var body := BodyTokens(n.body);
    PartSplit(ts, i, [Begin(n.name)] + body, [End]);
    PartSplit(ts, i, [Begin(n.name)], body);
    assert ts[i] == Begin(n.name) && ts[i + 1 + |body|] == End by {
      assert ts[i..i + 1][0] == ts[i];
      assert ts[i + 1 + |body|..i + 1 + |body| + 1][0] == ts[i + 1 + |body|];
    }
    BodyListed(ts, i + 1, d + 1, n.body);
    StepAny(ts, i, d);
    StepAny(ts, i + 1 + |body|, d + 1);
    var rest := Listing(ts, i + |Tokens(n)|, d);
    Regroup([Entry(i, d + 1, n.name)], BodyEntries(n.body, i + 1, d + 2), rest);
  }

  lemma {:induction false} Regroup(a: seq<Entry>, b: seq<Entry>, c: seq<Entry>)
    ensures a + (b + c) == (a + b) + c
  {}

  lemma {:induction false} BodyListed(ts: seq<Token>, i: nat, d: int, body: seq<Item>)
    requires Part(ts, i, BodyTokens(body)) && d >= -1
    ensures var j := i + |BodyTokens(body)|;
      Listing(ts, i, d) == BodyEntries(body, i, d + 1) + Listing(ts, j, d) && (Nested(ts, j, d) ==> Nested(ts, i, d))
    ensures forall k :: i <= k < i + |BodyTokens(body)| ==> ts[k] != Stop
    decreases body
  {
    hide Listing, Nested;
    if body != [] {
      PartSplit(ts, i, ItemTokens(body[0]), BodyTokens(body[1..]));
      var j := i + |ItemTokens(body[0])|;
      ItemListed(ts, i, d, body[0]);
      BodyListed(ts, j, d, body[1..]);
      var rest := Listing(ts, i + |BodyTokens(body)|, d);
      Regroup(ItemEntries(body[0], i, d + 1), BodyEntries(body[1..], j, d + 1), rest);
    }
  }

  lemma {:induction false} ItemListed(ts: seq<Token>, i: nat, d: int, item: Item)
    requires Part(ts, i, ItemTokens(item)) && d >= -1
    ensures var j := i + |ItemTokens(item)|;
      Listing(ts, i, d) == ItemEntries(item, i, d + 1) + Listing(ts, j, d) && (Nested(ts, j, d) ==> Nested(ts, i, d))
    ensures forall k :: i <= k < i + |ItemTokens(item)| ==> ts[k] != Stop
    decreases item
  {
    if item.Sub? {
      TreeListed(ts, i, d, item.node);
    } else {
      assert ts[i..i + 1][0] == ts[i];
    }
  }

  /** The whole stream of a tree lists the tree's nodes in preorder, and is well nested. */
  lemma {:induction false} StreamListed(root: Node)
    ensures var ts := Stream(root); Stopped(ts) && Nested(ts, 0, -1) && Listing(ts, 0, -1) == Entries(root, 0, 0)
  {
    var ts := Stream(root);
    assert Part(ts, 0, Tokens(root));
    TreeListed(ts, 0, -1, root);
    assert Nested(ts, |ts|, -1) && Nested(ts, |ts| - 1, -1);
    assert Listing(ts, |Tokens(root)|, -1) == [];
  }
}
