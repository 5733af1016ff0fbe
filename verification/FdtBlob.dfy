/** The structure block as bytes, and the tag reader. */
module FdtBlob {
  import opened MachineWords
  import opened FdtTree

  const FDT_BEGIN_NODE: nat := 1
  const FDT_END_NODE: nat := 2
  const FDT_PROP: nat := 3
  const FDT_NOP: nat := 4
  const FDT_END: nat := 9

  const FDT_ERR_NOTFOUND: int := 1
  const FDT_ERR_NOSPACE: int := 3
  const FDT_ERR_BADOFFSET: int := 4
  const FDT_ERR_TRUNCATED: int := 8
  const FDT_ERR_BADSTRUCTURE: int := 11
  const FDT_ERR_INTERNAL: int := 13

  const MIN_INT: int := -0x8000_0000

  /** A structure block; offsets into it are 32-bit ints. */
  type Blob = b: seq<Byte> | |b| < TWO_TO_THE_31

  // ---------- encoding

  function Be32(x: nat): seq<Byte>
    requires x < TWO_TO_THE_32
  {
    [x / 0x100_0000, x / 0x1_0000 % 256, x / 0x100 % 256, x % 256]
  }

  function Word(b: seq<Byte>, o: nat): (x: nat)
    requires o + 4 <= |b|
    ensures x < TWO_TO_THE_32
  {
    (b[o] as int) * 0x100_0000 + (b[o + 1] as int) * 0x1_0000 + (b[o + 2] as int) * 0x100 + (b[o + 3] as int)
  }

  function Align4(n: nat): nat { (n + 3) / 4 * 4 }

  function Zeros(n: nat): seq<Byte> { seq(n, _ => 0) }

  function Tag(t: Token): nat {
    match t
    case Begin(_) => FDT_BEGIN_NODE
    case End => FDT_END_NODE
    case Prop(_, _) => FDT_PROP
    case Nop => FDT_NOP
    case Stop => FDT_END
  }

  /** What can be serialised: names without NUL, and fields that fit their words. */
  ghost predicate Sane(t: Token) {
    && (t.Begin? ==> 0 !in t.name)
    && (t.Prop? ==> t.nameoff < TWO_TO_THE_32 && |t.value| < TWO_TO_THE_31)
  }

  /** The length of a token, before padding. */
  function RawSize(t: Token): nat {
    if t.Begin? then 4 + |t.name| + 1 else if t.Prop? then 12 + |t.value| else 4
  }

  function TokenSize(t: Token): nat { Align4(RawSize(t)) }

  /** The unpadded bytes of a token. */
  function RawBytes(t: Token): seq<Byte>
    requires Sane(t)
  {
    if t.Begin? then Be32(FDT_BEGIN_NODE) + t.name + [0]
    else if t.Prop? then Be32(FDT_PROP) + Be32(|t.value|) + Be32(t.nameoff) + t.value
    else Be32(Tag(t))
  }

  function TokenBytes(t: Token): seq<Byte>
    requires Sane(t)
  {
    RawBytes(t) + Zeros(TokenSize(t) - RawSize(t))
  }

  /** Where token `i` starts. */
  function Offset(ts: seq<Token>, i: nat): nat
    requires i <= |ts|
  {
    if i == 0 then 0 else Offset(ts, i - 1) + TokenSize(ts[i - 1])
  }

  ghost predicate Encoded(b: Blob, o: nat, t: Token) {
    Sane(t) && o + TokenSize(t) <= |b| && b[o..o + TokenSize(t)] == TokenBytes(t)
  }

  /** The block is the serialisation of `ts`. */
  ghost predicate Holds(b: Blob, ts: seq<Token>) {
    && |b| == Offset(ts, |ts|)
    && forall i {:trigger ts[i]} :: 0 <= i < |ts| ==> Encoded(b, Offset(ts, i), ts[i])
  }

  /** Serialisation of a token stream. */
  function Serialise(ts: seq<Token>): seq<Byte>
    requires forall t :: t in ts ==> Sane(t)
  {
    if ts == [] then [] else Serialise(ts[..|ts| - 1]) + TokenBytes(ts[|ts| - 1])
  }

  lemma {:induction false} TokenBytesLength(t: Token)
    requires Sane(t)
    ensures |TokenBytes(t)| == TokenSize(t) && TokenSize(t) % 4 == 0 && TokenSize(t) >= 4
  {}

  lemma {:induction false} OffsetStep(ts: seq<Token>, i: nat)
    requires i < |ts|
    ensures Offset(ts, i + 1) == Offset(ts, i) + TokenSize(ts[i]) && Offset(ts, i + 1) >= Offset(ts, i) + 4 && Offset(ts, i) % 4 == 0
  {
    if i > 0 { OffsetStep(ts, i - 1); }
  }

  lemma {:induction false} OffsetOrder(ts: seq<Token>, i: nat, j: nat)
    requires i < j <= |ts|
    ensures Offset(ts, i) < Offset(ts, j)
  {
    OffsetStep(ts, j - 1);
    if i < j - 1 { OffsetOrder(ts, i, j - 1); }
  }

  lemma {:induction false} OffsetPrefix(ts: seq<Token>, n: nat, i: nat)
    requires i <= n <= |ts|
    ensures Offset(ts[..n], i) == Offset(ts, i)
  {
    if i > 0 { OffsetPrefix(ts, n, i - 1); }
  }

  /** A serialised stream can be read back token by token. */
  lemma {:induction false} SerialiseHolds(ts: seq<Token>)
    requires (forall t :: t in ts ==> Sane(t)) && Offset(ts, |ts|) < TWO_TO_THE_31
    ensures |Serialise(ts)| == Offset(ts, |ts|)
    ensures Holds(Serialise(ts), ts)
    decreases |ts|
  {
    hide Encoded, TokenBytes, TokenSize, Sane;
    if ts != [] {
      var n := |ts| - 1;
      OffsetPrefix(ts, n, n);
      OffsetStep(ts, n);
      SerialiseHolds(ts[..n]);
      TokenBytesLength(ts[n]);
      forall i | 0 <= i < |ts| ensures Encoded(Serialise(ts), Offset(ts, i), ts[i]) {
        if i < n { EncodedBefore(ts, i); } else { EncodedLast(ts); }
      }
    }
  }

  lemma {:induction false} EncodedLast(ts: seq<Token>)
    requires ts != [] && (forall t :: t in ts ==> Sane(t)) && Offset(ts, |ts|) < TWO_TO_THE_31
    requires |Serialise(ts[..|ts| - 1])| == Offset(ts, |ts| - 1)
    ensures |Serialise(ts)| == Offset(ts, |ts|) && Encoded(Serialise(ts), Offset(ts, |ts| - 1), ts[|ts| - 1])
  {
    TokenBytesLength(ts[|ts| - 1]);
    hide TokenBytes, Sane, TokenSize;
  }

  lemma {:induction false} EncodedBefore(ts: seq<Token>, i: nat)
    requires i < |ts| - 1 && (forall t :: t in ts ==> Sane(t)) && |Serialise(ts)| < TWO_TO_THE_31
    requires |Serialise(ts[..|ts| - 1])| < TWO_TO_THE_31 && Holds(Serialise(ts[..|ts| - 1]), ts[..|ts| - 1])
    ensures Encoded(Serialise(ts), Offset(ts, i), ts[i])
  {
    hide Encoded, TokenBytes, Offset, TokenSize;
    var n := |ts| - 1;
    OffsetPrefix(ts, n, i);
    assert ts[..n][i] == ts[i];
    EncodedInFront(Serialise(ts[..n]), Serialise(ts), Offset(ts, i), ts[i]);
  }

  lemma {:induction false} EncodedInFront(a: Blob, b: Blob, o: nat, t: Token)
    requires |a| <= |b| && b[..|a|] == a && Encoded(a, o, t)
    ensures Encoded(b, o, t)
  {
    hide Sane, TokenBytes, TokenSize;
    SameSlice(a, b, o, o + TokenSize(t));
  }

  lemma {:induction false} SameSlice(a: seq<Byte>, b: seq<Byte>, lo: nat, hi: nat)
    requires lo <= hi <= |a| <= |b| && b[..|a|] == a
    ensures a[lo..hi] == b[lo..hi]
  {}

  // ---------- reading

  lemma {:induction false} WordOfBe32(b: seq<Byte>, o: nat, x: nat)
    requires x < TWO_TO_THE_32 && o + 4 <= |b| && b[o..o + 4] == Be32(x)
    ensures Word(b, o) == x
  {
    var w := b[o..o + 4];
    assert w[0] == b[o] && w[1] == b[o + 1] && w[2] == b[o + 2] && w[3] == b[o + 3];
    Digits(x);
  }

  lemma {:induction false} Digits(x: nat)
    ensures x == x / 0x100_0000 * 0x100_0000 + x / 0x1_0000 % 256 * 0x1_0000 + x / 0x100 % 256 * 0x100 + x % 256
  {
    var y := x / 0x100;
    var z := y / 0x100;
    assert z == x / 0x1_0000 && z / 0x100 == x / 0x100_0000;
    assert x == y * 0x100 + x % 256 && y == z * 0x100 + y % 256 && z == z / 0x100 * 0x100 + z % 256;
  }

  lemma {:induction false} SliceOfSlice(b: seq<Byte>, o: nat, n: nat, i: nat, j: nat)
    requires o + n <= |b| && i <= j <= n
    ensures b[o..o + n][i..j] == b[o + i..o + j]
  {
    var x, y := b[o..o + n][i..j], b[o + i..o + j];
    assert |x| == |y|;
    forall m | 0 <= m < |x| ensures x[m] == y[m] { assert b[o..o + n][i + m] == b[o + i + m]; }
  }

  /** The first word of a token is its tag. */
  lemma {:induction false} TagRead(b: Blob, o: nat, t: Token)
    requires Encoded(b, o, t)
    ensures o + 4 <= o + RawSize(t) <= o + TokenSize(t) <= |b| && Word(b, o) == Tag(t)
  {
    FirstWord(t);
    SliceOfSlice(b, o, TokenSize(t), 0, 4);
    assert b[o + 0..o + 4] == b[o..o + 4];
    hide TokenBytes, RawBytes;
    WordOfBe32(b, o, Tag(t));
  }

  lemma {:induction false} FirstWord(t: Token)
    requires Sane(t)
    ensures |TokenBytes(t)| == TokenSize(t) >= 4 && TokenBytes(t)[0..4] == Be32(Tag(t))
  {
    assert RawBytes(t)[..4] == Be32(Tag(t));
  }

  lemma {:induction false} NameRead(b: Blob, o: nat, t: Token, m: nat)
    requires Encoded(b, o, t) && t.Begin? && m <= |t.name|
    ensures o + 4 + m < |b| && b[o + 4 + m] == (if m < |t.name| then t.name[m] else 0)
    ensures m < |t.name| ==> b[o + 4 + m] != 0
  {
    var s := b[o..o + TokenSize(t)];
    assert s[4 + m] == (Be32(FDT_BEGIN_NODE) + t.name + [0])[4 + m];
    assert b[o + 4 + m] == s[4 + m];
  }

  lemma {:induction false} SecondWord(a: seq<Byte>, w: seq<Byte>, c: seq<Byte>, d: seq<Byte>)
    requires |a| == 4 && |w| == 4
    ensures (a + w + c + d)[4..8] == w
  {}

  lemma {:induction false} LengthRead(b: Blob, o: nat, t: Token)
    requires Encoded(b, o, t) && t.Prop?
    ensures o + 8 <= |b| && Word(b, o + 4) == |t.value| < TWO_TO_THE_31
  {
    SecondWord(Be32(FDT_PROP), Be32(|t.value|), Be32(t.nameoff) + t.value, Zeros(TokenSize(t) - RawSize(t)));
    assert RawBytes(t) == Be32(FDT_PROP) + Be32(|t.value|) + (Be32(t.nameoff) + t.value);
    assert TokenSize(t) >= 12;
    SliceOfSlice(b, o, TokenSize(t), 4, 8);
    WordOfBe32(b, o + 4, |t.value|);
  }

  /** A 32-bit word read as a signed int. */
  function ToInt(x: nat): int
    requires x < TWO_TO_THE_32
  {
    if x < TWO_TO_THE_31 then x else x - TWO_TO_THE_32
  }

  /** fdt_offset_ptr, for version 17 blocks: whether `len` bytes from `offset` are there, in 32-bit arithmetic. */
  predicate InBlock(b: Blob, offset: int, len: nat)
    requires len < TWO_TO_THE_32
  {
    var start := offset % TWO_TO_THE_32;
    var end := (start + len) % TWO_TO_THE_32;
    end >= start && end <= |b|
  }

  lemma {:induction false} InBlockMeans(b: Blob, offset: int, len: nat)
    requires MIN_INT <= offset <= TWO_TO_THE_31 && len < TWO_TO_THE_32
    ensures 0 < len < TWO_TO_THE_31 ==> (InBlock(b, offset, len) <==> 0 <= offset && offset + len <= |b|)
  {}

  /** Where a property with length field `length` at `start` is taken to end. */
  function PropEnd(start: int, length: nat): int {
    ToInt((start + 12 + length) % TWO_TO_THE_32)
  }

  /** A property's end is past its start except for one length, whose wrapped sum leads back to the start. */
  lemma {:induction false} PropAdvances(b: Blob, start: nat, length: nat)
    requires start + 8 <= |b| && length < TWO_TO_THE_32
    ensures InBlock(b, start, (PropEnd(start, length) - start) % TWO_TO_THE_32) ==> PropEnd(start, length) >= start
    ensures InBlock(b, start, (PropEnd(start, length) - start) % TWO_TO_THE_32) && start % 4 == 0 ==>
      (Align4(PropEnd(start, length)) > start <==> length != TWO_TO_THE_32 - 12)
    ensures start + 12 + length <= |b| ==> PropEnd(start, length) == start + 12 + length
  {
    var sum := start + 12 + length;
    if sum < TWO_TO_THE_32 {
      assert sum % TWO_TO_THE_32 == sum;
    } else {
      assert sum % TWO_TO_THE_32 == sum - TWO_TO_THE_32;
    }
  }

  /** The NUL-terminated name after the tag at `start`. */
  ghost predicate NameAt(b: Blob, start: nat, name: Name) {
    && start + 4 + |name| < |b| && b[start + 4 + |name|] == 0
    && forall m :: 0 <= m < |name| ==> b[start + 4 + m] == name[m] && name[m] != 0
  }

  /** What the reader will find at a token. */
  ghost predicate Readable(b: Blob, o: nat, t: Token, next: nat) {
    && o % 4 == 0 && o + 4 <= o + RawSize(t) <= |b| && Word(b, o) == Tag(t) && next == Align4(o + RawSize(t))
    && (t.Begin? ==> NameAt(b, o, t.name))
    && (t.Prop? ==> o + 8 <= |b| && Word(b, o + 4) == |t.value| < TWO_TO_THE_31)
  }

  lemma {:induction false} TokenInBlock(b: Blob, ts: seq<Token>, i: nat)
    requires Holds(b, ts) && i < |ts|
    ensures Readable(b, Offset(ts, i), ts[i], Offset(ts, i + 1))
  {
    OffsetStep(ts, i);
    EncodedIsReadable(b, Offset(ts, i), ts[i]);
  }

  lemma {:induction false} EncodedIsReadable(b: Blob, o: nat, t: Token)
    requires Encoded(b, o, t) && o % 4 == 0
    ensures Readable(b, o, t, o + TokenSize(t))
  {
    hide Encoded, Word;
    AlignSum(o, RawSize(t));
    TagRead(b, o, t);
    if t.Prop? { LengthRead(b, o, t); }
    if t.Begin? { NameInBlock(b, o, t); }
  }

  lemma {:induction false} NameInBlock(b: Blob, o: nat, t: Token)
    requires Encoded(b, o, t) && t.Begin?
    ensures NameAt(b, o, t.name)
  {
    hide TokenBytes, TokenSize;
    NameRead(b, o, t, |t.name|);
    forall m | 0 <= m < |t.name| ensures b[o + 4 + m] == t.name[m] && t.name[m] != 0 { NameRead(b, o, t, m); }
  }

  lemma {:induction false} AlignSum(o: nat, n: nat)
    requires o % 4 == 0
    ensures Align4(o + n) == o + Align4(n)
  {}

  /** The end of a NUL-terminated name, or -1 when the block ends first. */
  function NameEnd(b: Blob, o: nat): (e: int)
    requires o <= |b|
    ensures e == -1 || o < e <= |b|
    decreases |b| - o
  {
    if o == |b| then -1 else if b[o] == 0 then o + 1 else NameEnd(b, o + 1)
  }

  lemma {:induction false} NameEnds(b: Blob, start: nat, name: Name, m: nat)
    requires NameAt(b, start, name) && m <= |name|
    ensures NameEnd(b, start + 4 + m) == start + 5 + |name|
    decreases |name| - m
  {
    if m < |name| {
      assert b[start + 4 + m] == name[m] != 0;
      NameEnds(b, start, name, m + 1);
    }
  }

  /** The tag, when the block holds it up to `end`, and the aligned offset behind it. */
  function Closed(b: Blob, start: nat, tag: nat, end: int): (nat, int)
    requires InBlock(b, start, (end - start) % TWO_TO_THE_32) ==> end >= 0
  {
    if InBlock(b, start, (end - start) % TWO_TO_THE_32) then (tag, Align4(end)) else (FDT_END, -FDT_ERR_BADSTRUCTURE)
  }

  /** The tag at an offset of any block, with the next offset, or the end tag with an error. */
  function TagAt(b: Blob, start: int): (nat, int) {
    if start < 0 || start + 4 > |b| then (FDT_END, -FDT_ERR_TRUNCATED)
    else
      var tag := Word(b, start);
      if tag == FDT_BEGIN_NODE then
        var end := NameEnd(b, start + 4);
        if end < 0 then (FDT_END, -FDT_ERR_BADSTRUCTURE) else Closed(b, start, tag, end)
      else if tag == FDT_PROP then
        if start + 8 > |b| then (FDT_END, -FDT_ERR_BADSTRUCTURE)
        else
          PropAdvances(b, start, Word(b, start + 4));
          Closed(b, start, tag, PropEnd(start, Word(b, start + 4)))
      else if tag == FDT_END || tag == FDT_END_NODE || tag == FDT_NOP then Closed(b, start, tag, start + 4)
      else (FDT_END, -FDT_ERR_BADSTRUCTURE)
  }

  /** At a token the reader finds its tag and the offset of the next one. */
  lemma {:induction false} TagOfToken(b: Blob, start: nat, t: Token, after: nat)
    requires Readable(b, start, t, after)
    ensures TagAt(b, start) == (Tag(t), after)
  {
    hide InBlock, PropEnd, Word;
    var end := start + RawSize(t);
    InBlockMeans(b, start, end - start);
    if t.Begin? { NameEnds(b, start, t.name, 0); }
    if t.Prop? { PropAdvances(b, start, Word(b, start + 4)); }
  }

  /** A property that the reader takes to end where it starts. */
  predicate Loops(b: Blob, p: int) {
    p >= 0 && p % 4 == 0 && p + 8 <= |b| && Word(b, p) == FDT_PROP && Word(b, p + 4) == TWO_TO_THE_32 - 12
  }

  /** On any block the reader fails or advances, except at a property that it takes to end where it starts. */
  lemma {:induction false} TagAdvances(b: Blob, start: int)
    ensures var (tag, next) := TagAt(b, start);
      && (next < 0 ==> tag == FDT_END && (next == -FDT_ERR_TRUNCATED || next == -FDT_ERR_BADSTRUCTURE))
      && (next >= 0 ==> 0 <= start && start + 4 <= |b| && tag == Word(b, start) && next % 4 == 0 && next <= TWO_TO_THE_31)
      && (next >= 0 && start % 4 == 0 ==> if Loops(b, start) then tag == FDT_PROP && next == start else next > start)
      && (Loops(b, start) ==> next >= 0)
  {
    hide Word, NameEnd;
    if 0 <= start && start + 4 <= |b| {
      var tag := Word(b, start);
      if tag == FDT_PROP {
        if start + 8 <= |b| { PropertyAdvances(b, start); }
      } else if tag == FDT_BEGIN_NODE {
        var end := NameEnd(b, start + 4);
        if end >= 0 { ClosedAdvances(b, start, tag, end); }
      } else {
        ClosedAdvances(b, start, tag, start + 4);
      }
    }
  }

  lemma {:induction false} ClosedAdvances(b: Blob, start: nat, tag: nat, end: int)
    requires start < end <= |b|
    ensures var (tag', next) := Closed(b, start, tag, end); tag' == tag && start < next <= TWO_TO_THE_31 && next % 4 == 0
  {
    InBlockMeans(b, start, end - start);
  }

  lemma {:induction false} PropertyAdvances(b: Blob, start: nat)
    requires start + 8 <= |b|
    requires Word(b, start) == FDT_PROP
    ensures var (tag, next) := TagAt(b, start);
      && (next < 0 ==> tag == FDT_END && next == -FDT_ERR_BADSTRUCTURE)
      && (next >= 0 ==> tag == FDT_PROP && next % 4 == 0 && next <= TWO_TO_THE_31)
      && (start % 4 == 0 && next >= 0 ==> if Loops(b, start) then next == start else next > start)
      && (Loops(b, start) ==> next >= 0)
  {
    hide Word, PropEnd, InBlock;
    var length := Word(b, start + 4);
    PropAdvances(b, start, length);
    PropertyEnd(b, start, length);
  }

  lemma {:induction false} PropEndIs(start: nat, length: nat)
    requires start < TWO_TO_THE_31 && length < TWO_TO_THE_32
    ensures var sum := start + 12 + length;
      PropEnd(start, length) == if sum < TWO_TO_THE_31 then sum else if sum < TWO_TO_THE_32 + TWO_TO_THE_31 then sum - TWO_TO_THE_32 else sum - 2 * TWO_TO_THE_32
  {}

  lemma {:induction false} PropertyEnd(b: Blob, start: nat, length: nat)
    requires start + 8 <= |b| && length < TWO_TO_THE_32
    ensures var end := PropEnd(start, length);
      && (InBlock(b, start, (end - start) % TWO_TO_THE_32) ==> start <= end <= |b| && (end == start <==> length == TWO_TO_THE_32 - 12))
      && (length == TWO_TO_THE_32 - 12 ==> end == start && InBlock(b, start, (end - start) % TWO_TO_THE_32))
  {
    var end := PropEnd(start, length);
    PropEndIs(start, length);
    hide PropEnd, InBlock;
    if end >= start { InBlockMeans(b, start, end - start); } else { PropAdvances(b, start, length); }
  }

  /** The reader's errors, on any block: no word at the offset; or an unknown tag, a name without an end, or a property that does not fit. */
  lemma {:induction false} TagErrors(b: Blob, start: int)
    ensures TagAt(b, start) == (9, -8) <==> start < 0 || start + 4 > |b|
    ensures 0 <= start && start + 4 <= |b| ==>
      var tag := Word(b, start);
      (TagAt(b, start) == (9, -11) <==>
        || (tag != 1 && tag != 2 && tag != 3 && tag != 4 && tag != 9)
        || (tag == 1 && forall i :: start + 4 <= i < |b| ==> b[i] != 0)
        || (tag == 3 && (start + 8 > |b| || !(start <= PropEnd(start, Word(b, start + 4)) <= |b|))))
  {
    hide Word, PropEnd, InBlock, NameEnd;
    if 0 <= start && start + 4 <= |b| {
      var tag := Word(b, start);
      if tag == FDT_BEGIN_NODE {
        NameEndExactly(b, start + 4);
        var end := NameEnd(b, start + 4);
        if end >= 0 { InBlockMeans(b, start, end - start); }
      } else if tag == FDT_PROP {
        if start + 8 <= |b| { PropertyFits(b, start, Word(b, start + 4)); }
      } else {
        InBlockMeans(b, start, 4);
      }
    }
  }

  lemma {:induction false} NameEndExactly(b: Blob, o: nat)
    requires o <= |b|
    ensures NameEnd(b, o) == -1 <==> forall i :: o <= i < |b| ==> b[i] != 0
    decreases |b| - o
  {
    if o < |b| && b[o] != 0 { NameEndExactly(b, o + 1); }
  }

  lemma {:induction false} PropertyFits(b: Blob, start: nat, length: nat)
    requires start + 8 <= |b| && length < TWO_TO_THE_32
    ensures var end := PropEnd(start, length); InBlock(b, start, (end - start) % TWO_TO_THE_32) <==> start <= end <= |b|
  {
    hide PropEnd, InBlock;
    var end := PropEnd(start, length);
    PropertyEnd(b, start, length);
    if start < end <= |b| { InBlockMeans(b, start, end - start); }
    if start == end { NothingFits(b, start); }
  }

  lemma {:induction false} NothingFits(b: Blob, start: nat)
    requires start <= |b|
    ensures InBlock(b, start, 0)
  {}

  /** Eight bytes on which the reader stays in place: a property tag and the length 2^32 - 12. */
  lemma {:induction false} EightBytes()
    ensures var b: Blob := [0, 0, 0, 3, 0xFF, 0xFF, 0xFF, 0xF4]; Loops(b, 0) && TagAt(b, 0) == (FDT_PROP, 0)
  {
    TagAdvances([0, 0, 0, 3, 0xFF, 0xFF, 0xFF, 0xF4], 0);
  }

  /** The end of the name at a begin tag, or -1 when the block ends first. */
  method SkipName(b: Blob, start: nat) returns (offset: int)
    requires start + 4 <= |b|
    ensures offset == NameEnd(b, start + 4)
  {
    hide InBlock;
    offset := start + 4;
    while true
      invariant start + 4 <= offset <= |b| && NameEnd(b, offset) == NameEnd(b, start + 4)
      decreases |b| - offset
    {
      InBlockMeans(b, offset, 1);
      if !InBlock(b, offset, 1) { return -1; }
      offset := offset + 1;
      if b[offset - 1] == 0 { return; }
    }
  }

  /** fdt_next_tag. */
  method NextTag(b: Blob, start: int) returns (tag: nat, next: int)
    requires MIN_INT <= start <= TWO_TO_THE_31
    ensures (tag, next) == TagAt(b, start)
    ensures start >= 0 ==> forall t, after: nat :: Readable(b, start, t, after) ==> tag == Tag(t) && next == after
    ensures next >= 0 && start % 4 == 0 ==> if Loops(b, start) then next == start else next > start
  {
    hide InBlock, NameAt, PropEnd, Word, NameEnd, Readable;
    TagAdvances(b, start);
    if start >= 0 {
      forall t, after: nat | Readable(b, start, t, after) ensures TagAt(b, start) == (Tag(t), after) { TagOfToken(b, start, t, after); }
    }
    InBlockMeans(b, start, 4);
    if !InBlock(b, start, 4) { return FDT_END, -FDT_ERR_TRUNCATED; }
    tag := Word(b, start);
    var offset := start + 4;
    if tag == FDT_BEGIN_NODE {
      offset := SkipName(b, start);
      if offset < 0 { return FDT_END, -FDT_ERR_BADSTRUCTURE; }
    } else if tag == FDT_PROP {
      InBlockMeans(b, offset, 4);
      if !InBlock(b, offset, 4) { return FDT_END, -FDT_ERR_BADSTRUCTURE; }
      PropertyEnd(b, start, Word(b, offset));
      offset := PropEnd(start, Word(b, offset));
    } else if tag != FDT_END && tag != FDT_END_NODE && tag != FDT_NOP {
      return FDT_END, -FDT_ERR_BADSTRUCTURE;
    }
    var len := (offset - start) % TWO_TO_THE_32;
    if !InBlock(b, start, len) { return FDT_END, -FDT_ERR_BADSTRUCTURE; }
    next := Align4(offset);
  }
}
