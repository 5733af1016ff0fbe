/** Sorted lists of disjoint intervals: adding an interval, cutting one out, counting. */
module Ranges {
  import opened MachineWords

  type Word = n: nat | n < TWO_TO_THE_64

  /** An interval with an inclusive limit. */
  datatype Range = Range(base: Word, limit: Word)

  predicate In(r: Range, x: int) { r.base <= x <= r.limit }

  /** The list covers `x`. */
  ghost predicate Covers(s: seq<Range>, x: int) { exists i :: 0 <= i < |s| && In(s[i], x) }

  ghost predicate NonEmpty(s: seq<Range>) { forall i :: 0 <= i < |s| ==> s[i].base <= s[i].limit }

  ghost predicate Ascending(s: seq<Range>) { forall i, j :: 0 <= i < j < |s| ==> s[i].limit < s[j].base }

  /** Sorted, disjoint, non-empty intervals. */
  ghost predicate Proper(s: seq<Range>) { NonEmpty(s) && Ascending(s) }

  lemma {:induction false} CoversConcat(a: seq<Range>, b: seq<Range>, x: int)
    ensures Covers(a + b, x) <==> Covers(a, x) || Covers(b, x)
  {
    if Covers(a, x) {
      var i :| 0 <= i < |a| && In(a[i], x);
      assert (a + b)[i] == a[i];
    }
    if Covers(b, x) {
      var i :| 0 <= i < |b| && In(b[i], x);
      assert (a + b)[|a| + i] == b[i];
    }
  }

  lemma {:induction false} CoversOne(r: Range, x: int)
    ensures Covers([r], x) <==> In(r, x)
  {
    if In(r, x) { assert In([r][0], x); }
  }

  /** Place `i` is the first whose range lies wholly above `r`. */
  ghost predicate FitsAt(s: seq<Range>, i: nat, r: Range) {
    i <= |s| && (forall j :: 0 <= j < i ==> s[j].base <= r.limit) && (i < |s| ==> r.limit < s[i].base)
  }

  /** Nothing of the interval is covered. */
  ghost predicate Clear(s: seq<Range>, base: Word, limit: Word) { forall x :: base <= x <= limit ==> !Covers(s, x) }

  /** One range holds the whole interval. */
  ghost predicate Holds(s: seq<Range>, base: Word, limit: Word) { exists i :: 0 <= i < |s| && s[i].base <= base && limit <= s[i].limit }

  /** The list `done` has had [base, limit] taken out, and `rest` is still to come. */
  ghost predicate Taken(before: seq<Range>, after: seq<Range>, base: Word, limit: Word) {
    forall x :: Covers(after, x) <==> Covers(before, x) && !(base <= x <= limit)
  }

  class RangeList {
    var list: seq<Range>

    ghost predicate Valid()
      reads this
    {
      Proper(list)
    }

    constructor ()
      ensures Valid() && list == []
    {
      list := [];
    }

    /** range_add: insertion before the first range above; the list stays disjoint exactly when the interval was clear. */
    method Add(base: Word, limit: Word) returns (halted: bool)
      requires Valid()
      modifies this
      ensures halted <==> base >= limit || Holds(old(list), base, limit)
      ensures halted ==> list == old(list)
      ensures !halted ==> (Valid() <==> Clear(old(list), base, limit))
      ensures !halted ==> forall x :: Covers(list, x) <==> old(Covers(list, x)) || base <= x <= limit
      ensures !halted ==> exists i: nat :: FitsAt(old(list), i, Range(base, limit)) && list == old(list)[..i] + [Range(base, limit)] + old(list)[i..]
    {
      hide Covers, Clear;
      if base >= limit { return true; }
      var r := Range(base, limit);
      for i := 0 to |list|
        invariant list == old(list) && forall j :: 0 <= j < i ==> list[j].base <= limit && !(list[j].base <= base && limit <= list[j].limit)
      {
        if base >= list[i].base && limit <= list[i].limit { return true; }
        if list[i].base > limit {
          assert FitsAt(list, i, r);
          Inserted(list, i, r);
          list := list[..i] + [r] + list[i..];
          return false;
        }
      }
      assert FitsAt(list, |list|, r);
      Inserted(list, |list|, r);
      assert list + [r] == list[..|list|] + [r] + list[|list|..];
      list := list + [r];
      return false;
    }

    /** The middle of a range goes: it keeps its upper part, and its lower part is added. */
    method SplitRange(k: nat, base: Word, limit: Word, ghost done: seq<Range>, ghost rest: seq<Range>) returns (halted: bool)
      requires k == |done| && k < |list| && list == done + [list[k]] + rest && Proper(list)
      requires base <= limit && list[k].base < base && list[k].limit > limit
      modifies this
      ensures halted <==> old(list)[k].base + 1 == base
      ensures !halted ==> list == done + [Range(old(list)[k].base, base - 1), Range(limit + 1, old(list)[k].limit)] + rest
    {
      hide Covers, Proper, FitsAt, Clear, Holds;
      var r := list[k];
      var low, high := Range(r.base, base - 1), Range(limit + 1, r.limit);
      RoomBelow(done, r, rest, low, high);
      DoneBelow(done, r, rest);
      assert list[..k] == done && list[k + 1..] == rest;
      list := list[..k] + [high] + list[k + 1..];
      halted := Add(r.base, base - 1);
      if !halted { SplitPlace(done, high, rest, low, list); }
    }

    /** The range at `k` is deleted or changed in place. */
    method ReplaceAt(k: nat, s: seq<Range>, ghost done: seq<Range>, ghost rest: seq<Range>)
      requires k == |done| && k < |list| && list == done + [list[k]] + rest
      modifies this
      ensures list == done + s + rest
    {
      assert list[..k] == done && list[k + 1..] == rest;
      list := list[..k] + s + list[k + 1..];
    }

    /** One step of range_remove, at the range `k`; the next one is then at `k'`. */
    method RemoveAt(k: nat, base: Word, limit: Word, ghost done: seq<Range>, ghost rest: seq<Range>) returns (halted: bool, k': nat)
      requires k == |done| && k < |list| && list == done + [list[k]] + rest && Proper(list) && base <= limit
      modifies this
      ensures halted <==> SplitsOne(old(list)[k], base, limit)
      ensures !halted ==> list == done + Pieces(old(list)[k], base, limit) + rest && k' == k + |Pieces(old(list)[k], base, limit)|
    {
      hide Covers, Proper;
      halted, k' := false, k;
      var r := list[k];
      ProperAt(done, r, rest);
      if r.base > limit || r.limit < base {
        k' := k + 1;
      } else if r.base >= base && r.limit <= limit {
        ReplaceAt(k, [], done, rest);
      } else if r.base >= base {
        ReplaceAt(k, [Range(limit + 1, r.limit)], done, rest);
        k' := k + 1;
      } else if r.limit <= limit {
        ReplaceAt(k, [Range(r.base, base - 1)], done, rest);
        k' := k + 1;
      } else {
        halted := SplitRange(k, base, limit, done, rest);
        k' := k + 2;
      }
    }

    /** range_remove: set difference; halts when a split would leave a single unit below. */
    method Remove(base: Word, limit: Word) returns (halted: bool)
      requires Valid()
      modifies this
      ensures halted <==> base >= limit || OneBelow(old(list), base, limit)
      ensures !halted ==> Valid() && Taken(old(list), list, base, limit) && list == CutAll(old(list), base, limit)
    {
      hide Covers, Proper, Taken, Pieces, CutAll;
      if base >= limit { return true; }
      ghost var before := list;
      ghost var done: seq<Range> := [];
      var k := 0;
      ghost var m := 0;
      NothingTaken(before, base, limit);
      while k < |list|
        invariant m <= |before| && k == |done| && list == done + before[m..]
        invariant Proper(list) && Taken(before[..m], done, base, limit) && done == CutAll(before[..m], base, limit)
        invariant forall j :: 0 <= j < m ==> !SplitsOne(before[j], base, limit)
        decreases |before| - m
      {
        Facing(before, done, m);
        ProperAt(done, before[m], before[m + 1..]);
        PiecesRight(before[m], base, limit);
        Replaced(before, done, m, base, limit, Pieces(before[m], base, limit));
        CutAllMore(before, m, base, limit);
        halted, k := RemoveAt(k, base, limit, done, before[m + 1..]);
        if halted { return true; }
        done := done + Pieces(before[m], base, limit);
        m := m + 1;
      }
      assert before[..m] == before && done + before[m..] == done;
      halted := false;
    }

    /** range_count */
    method Count() returns (n: nat)
      ensures n == |list|
    {
      n := 0;
      for i := 0 to |list|
        invariant n == i
      {
        n := n + 1;
      }
    }
  }

  /** An interval disjoint from a range lies wholly below or above it. */
  lemma {:induction false} NotInside(s: seq<Range>, i: nat, base: Word, limit: Word)
    requires NonEmpty(s) && i < |s| && base <= limit && Clear(s, base, limit)
    ensures limit < s[i].base || s[i].limit < base
  {
    if base <= s[i].base <= limit { InCovers(s, i, s[i].base); }
    if s[i].base <= base <= s[i].limit { InCovers(s, i, base); }
  }

  lemma {:induction false} InCovers(s: seq<Range>, i: nat, x: int)
    requires i < |s| && In(s[i], x)
    ensures Covers(s, x)
  {}

  lemma {:induction false} InsertedProper(s: seq<Range>, i: nat, r: Range)
    requires Proper(s) && r.base <= r.limit && FitsAt(s, i, r)
    ensures Proper(s[..i] + [r] + s[i..]) <==> Clear(s, r.base, r.limit)
  {
    var s' := s[..i] + [r] + s[i..];
    forall j | 0 <= j < |s'| ensures s'[j] == (if j < i then s[j] else if j == i then r else s[j - 1]) {}
    hide Covers;
    if Clear(s, r.base, r.limit) {
      forall j | 0 <= j < i ensures s[j].limit < r.base { NotInside(s, j, r.base, r.limit); }
      forall j, k | 0 <= j < k < |s'| ensures s'[j].limit < s'[k].base {}
    } else {
      var j := Overlapping(s, i, r);
      assert s'[j] == s[j] && s'[i] == r;
    }
  }

  lemma {:induction false} Overlapping(s: seq<Range>, i: nat, r: Range) returns (j: nat)
    requires Proper(s) && FitsAt(s, i, r) && !Clear(s, r.base, r.limit)
    ensures j < i && s[j].limit >= r.base
  {
    var x :| r.base <= x <= r.limit && Covers(s, x);
    j :| 0 <= j < |s| && In(s[j], x);
    assert j < i;
  }

  lemma {:induction false} Inserted(s: seq<Range>, i: nat, r: Range)
    requires Proper(s) && r.base <= r.limit && FitsAt(s, i, r)
    ensures var s' := s[..i] + [r] + s[i..];
      (Proper(s') <==> Clear(s, r.base, r.limit)) && forall x :: Covers(s', x) <==> Covers(s, x) || In(r, x)
  {
    var s' := s[..i] + [r] + s[i..];
    InsertedProper(s, i, r);
    hide Proper, FitsAt, Covers, Clear;
    forall x ensures Covers(s', x) <==> Covers(s, x) || In(r, x) {
      CoversConcat(s[..i] + [r], s[i..], x);
      CoversConcat(s[..i], [r], x);
      CoversConcat(s[..i], s[i..], x);
      CoversOne(r, x);
      assert s == s[..i] + s[i..];
    }
  }

  /** Taking [base, limit] out of `r` leaves a single unit below. */
  predicate SplitsOne(r: Range, base: Word, limit: Word) { r.base + 1 == base && r.limit > limit }

  ghost predicate OneBelow(s: seq<Range>, base: Word, limit: Word) { exists j :: 0 <= j < |s| && SplitsOne(s[j], base, limit) }

  lemma {:induction false} NothingTaken(s: seq<Range>, base: Word, limit: Word)
    requires base <= limit
    ensures Taken(s[..0], [], base, limit) && [] + s[0..] == s && CutAll(s[..0], base, limit) == []
  {}

  /** The list being rewritten, around the range in turn. */
  lemma {:induction false} Facing(before: seq<Range>, done: seq<Range>, m: nat)
    requires m < |before|
    ensures done + before[m..] == done + [before[m]] + before[m + 1..]
    ensures (done + before[m..])[|done|] == before[m]
    ensures (done + before[m..])[..|done|] == done && (done + before[m..])[|done| + 1..] == before[m + 1..]
    ensures before[..m + 1] == before[..m] + [before[m]]
  {}

  /** What is left of a range. */
  function Pieces(r: Range, base: Word, limit: Word): seq<Range>
    requires base <= limit
  {
    if r.base > limit || r.limit < base then [r]
    else
      (if r.base < base then [Range(r.base, base - 1)] else []) + (if r.limit > limit then [Range(limit + 1, r.limit)] else [])
  }

  /** What is left of a list. */
  function CutAll(s: seq<Range>, base: Word, limit: Word): seq<Range>
    requires base <= limit
  {
    if s == [] then [] else CutAll(s[..|s| - 1], base, limit) + Pieces(s[|s| - 1], base, limit)
  }

  lemma {:induction false} CutAllMore(s: seq<Range>, m: nat, base: Word, limit: Word)
    requires m < |s| && base <= limit
    ensures CutAll(s[..m + 1], base, limit) == CutAll(s[..m], base, limit) + Pieces(s[m], base, limit)
  {
    assert s[..m + 1][..m] == s[..m];
  }

  ghost predicate Inside(s: seq<Range>, r: Range) { forall i :: 0 <= i < |s| ==> r.base <= s[i].base && s[i].limit <= r.limit }

  lemma {:induction false} PiecesRight(r: Range, base: Word, limit: Word)
    requires base <= limit && r.base <= r.limit
    ensures var s := Pieces(r, base, limit); Proper(s) && Inside(s, r) && Taken([r], s, base, limit)
  {
    var s := Pieces(r, base, limit);
    forall x ensures Covers(s, x) <==> Covers([r], x) && !(base <= x <= limit) {
      CoversOne(r, x);
      if In(r, x) && !(base <= x <= limit) { assert In(s[if x < base || r.base > limit then 0 else |s| - 1], x); }
    }
  }

  lemma {:induction false} ProperReplace(done: seq<Range>, r: Range, rest: seq<Range>, s: seq<Range>)
    requires Proper(done + [r] + rest) && Proper(s) && Inside(s, r)
    ensures Proper(done + s + rest)
  {
    var a, b := done + [r] + rest, done + s + rest;
    assert a[|done|] == r;
    forall i | 0 <= i < |b| ensures b[i].base <= b[i].limit && b[i] == Piece(done, s, rest, i) { assert i < |done| ==> a[i] == b[i]; assert i >= |done| + |s| ==> b[i] == a[i - |s| + 1]; }
    forall i, j | 0 <= i < j < |b| ensures b[i].limit < b[j].base {
      var i', j' := Home(|done|, |s|, i), Home(|done|, |s|, j);
      if i' < j' { assert a[i'].limit < a[j'].base; }
    }
  }

  function Piece(done: seq<Range>, s: seq<Range>, rest: seq<Range>, i: nat): Range
    requires i < |done| + |s| + |rest|
  {
    if i < |done| then done[i] else if i < |done| + |s| then s[i - |done|] else rest[i - |done| - |s|]
  }

  function Home(d: nat, n: nat, i: nat): nat { if i < d then i else if i < d + n then d else i - n + 1 }

  lemma {:induction false} Replaced(before: seq<Range>, done: seq<Range>, m: nat, base: Word, limit: Word, s: seq<Range>)
    requires m < |before| && Proper(done + [before[m]] + before[m + 1..]) && Taken(before[..m], done, base, limit)
    requires Proper(s) && Inside(s, before[m]) && Taken([before[m]], s, base, limit)
    ensures Proper(done + s + before[m + 1..]) && Taken(before[..m + 1], done + s, base, limit)
  {
    ProperReplace(done, before[m], before[m + 1..], s);
    hide Covers, Proper;
    assert before[..m + 1] == before[..m] + [before[m]];
    forall x ensures Covers(done + s, x) <==> Covers(before[..m + 1], x) && !(base <= x <= limit) {
      CoversConcat(done, s, x);
      CoversConcat(before[..m], [before[m]], x);
    }
  }

  /** With the upper part kept in place, the lower part is free to be added. */
  lemma {:induction false} RoomBelow(done: seq<Range>, r: Range, rest: seq<Range>, low: Range, high: Range)
    requires Proper(done + [r] + rest) && r.base <= high.base && high.limit == r.limit && low.base == r.base && low.limit < high.base <= high.limit
    requires low.base <= low.limit
    ensures var b := done + [high] + rest; Proper(b) && Clear(b, low.base, low.limit) && !Holds(b, low.base, low.limit)
  {
    ProperReplace(done, r, rest, [high]);
    var a, b := done + [r] + rest, done + [high] + rest;
    assert a[|done|] == r;
    forall x | low.base <= x <= low.limit ensures !Covers(b, x) {
      forall i | 0 <= i < |b| ensures !In(b[i], x) {
        if i < |done| { assert a[i] == b[i] && a[i].limit < a[|done|].base; }
        if i > |done| { assert a[i] == b[i] && a[|done|].limit < a[i].base; }
      }
    }
    NotHeld(b, low.base, low.limit);
  }

  lemma {:induction false} NotHeld(s: seq<Range>, base: Word, limit: Word)
    requires base <= limit && Clear(s, base, limit)
    ensures !Holds(s, base, limit)
  {
    forall i | 0 <= i < |s| && s[i].base <= base && limit <= s[i].limit ensures false { InCovers(s, i, base); }
  }

  /** The lower part is put right before the upper part. */
  lemma {:induction false} SplitPlace(done: seq<Range>, high: Range, rest: seq<Range>, low: Range, list: seq<Range>)
    requires var s := done + [high] + rest; Proper(s) && exists i: nat :: FitsAt(s, i, low) && list == s[..i] + [low] + s[i..]
    requires low.base <= low.limit < high.base && forall j :: 0 <= j < |done| ==> done[j].base <= done[j].limit < low.base
    ensures list == done + [low, high] + rest
  {
    var s := done + [high] + rest;
    assert s[|done|] == high && forall j :: 0 <= j < |done| ==> s[j] == done[j];
    var i: nat :| FitsAt(s, i, low) && list == s[..i] + [low] + s[i..];
    assert i == |done|;
  }

  lemma {:induction false} DoneBelow(done: seq<Range>, r: Range, rest: seq<Range>)
    requires Proper(done + [r] + rest)
    ensures forall j :: 0 <= j < |done| ==> done[j].base <= done[j].limit < r.base
  {
    var a := done + [r] + rest;
    assert a[|done|] == r;
    forall j | 0 <= j < |done| ensures done[j].base <= done[j].limit < r.base { assert a[j] == done[j]; }
  }

  lemma {:induction false} ProperAt(done: seq<Range>, r: Range, rest: seq<Range>)
    requires Proper(done + [r] + rest)
    ensures r.base <= r.limit
  {
    assert (done + [r] + rest)[|done|] == r;
  }
}
