/** The number formatter of vsprintf and the parser that undoes it. */
module NumberFormat {
  import opened MachineWords
  import BitTricks
  import opened NumberText

  const ZERO: nat := 0x30
  const BLANK: nat := 0x20

  /** The flags, base, width and precision of a conversion. */
  datatype Spec = Spec(base: nat, signed: bool, plus: bool, space: bool, left: bool, zeropad: bool, small: bool, special: bool,
                       width: int, precision: int)

  predicate Int16(x: int) { -0x8000 <= x <= 0x7FFF }

  /** What a 16-bit counter holds after `x` is assigned to it. */
  function Wrapped16(x: int): (w: int)
    ensures Int16(w) && (Int16(x) ==> w == x)
  {
    (x + 0x8000) % 0x1_0000 - 0x8000
  }

  /** The bases the formatter is called with, and any 16-bit width and precision. */
  predicate SpecOk(s: Spec) { (s.base == 8 || s.base == 10 || s.base == 16) && Int16(s.width) && Int16(s.precision) }

  type Text = seq<nat>

  function Repeat(c: nat, n: int): Text { if n <= 0 then [] else seq(n, _ => c) }

  function Reversed(t: Text): Text { if t == [] then [] else Reversed(t[1..]) + [t[0]] }

  /** The sign to print, and the magnitude. */
  function Sign(num: nat, s: Spec): Text {
    if !s.signed then [] else if num >= TWO_TO_THE_64 / 2 then [0x2d] else if s.plus then [0x2b] else if s.space then [BLANK] else []
  }

  function Magnitude(num: nat, s: Spec): nat
    requires num < TWO_TO_THE_64
  {
    if s.signed && num >= TWO_TO_THE_64 / 2 then TWO_TO_THE_64 - num else num
  }

  function Prefix(s: Spec): Text {
    if !s.special || s.base == 10 then [] else if s.base == 16 then [ZERO, if s.small then 0x78 else 0x58] else [ZERO]
  }

  /** The digits, most significant first. */
  function DigitText(num: nat, s: Spec): Text
    requires num < TWO_TO_THE_64 && s.base >= 2
  {
    Reversed(DigitChars(Digits(Magnitude(num, s), s.base), s.small && s.base != 10))
  }

  function Max(a: int, b: int): int { if a < b then b else a }

  /** What is left of the field width. */
  function Room(num: nat, s: Spec): int
    requires num < TWO_TO_THE_64 && s.base >= 2
  {
    s.width - |Sign(num, s)| - |Prefix(s)| - Max(|DigitText(num, s)|, s.precision)
  }

  /** How much padding goes in front, between prefix and digits, and behind. */
  datatype Padding = Padding(lead: nat, mid: nat, trail: nat)

  /** The room is filled with blanks in front or behind, or with zeros after sign and prefix. */
  function Asked(room: int, zeropad: bool, left: bool): Padding {
    var n := if room > 0 then room else 0;
    if left then Padding(0, 0, n) else if zeropad then Padding(0, n, 0) else Padding(n, 0, 0)
  }

  /** How often `while (--width >= 0)` runs on a 16-bit counter, and what it leaves there. */
  function Turns(width: int): nat { if width > 0 then width else if width == -0x8000 then 0x8000 else 0 }

  function AfterTurns(width: int): int { if Turns(width) > 0 then -1 else width - 1 }

  /** The padding of the three loops that share one counter. */
  function Counted(w: int, zeropad: bool, left: bool): Padding {
    var lead := if zeropad || left then 0 else Turns(w);
    var w1 := if zeropad || left then w else AfterTurns(w);
    var mid := if left then 0 else Turns(w1);
    var w2 := if left then w1 else AfterTurns(w1);
    Padding(lead, mid, Turns(w2))
  }

  function Laid(sign: Text, prefix: Text, zeros: int, ds: Text, fill: nat, pad: Padding): Text {
    Repeat(BLANK, pad.lead) + sign + prefix + Repeat(fill, pad.mid) + Repeat(ZERO, zeros) + ds + Repeat(BLANK, pad.trail)
  }

  function FillChar(s: Spec): nat { if s.zeropad && !s.left then ZERO else BLANK }

  function WithPadding(num: nat, s: Spec, pad: Padding): Text
    requires num < TWO_TO_THE_64 && s.base >= 2
  {
    var ds := DigitText(num, s);
    Laid(Sign(num, s), Prefix(s), Max(|ds|, s.precision) - |ds|, ds, FillChar(s), pad)
  }

  /** The text asked for. */
  function Formatted(num: nat, s: Spec): Text
    requires num < TWO_TO_THE_64 && s.base >= 2
  {
    WithPadding(num, s, Asked(Room(num, s), s.zeropad && !s.left, s.left))
  }

  /** The padding written: the room is held in 16 bits. */
  function Pads(num: nat, s: Spec): Padding
    requires num < TWO_TO_THE_64 && s.base >= 2
  {
    Counted(Wrapped16(Room(num, s)), s.zeropad && !s.left, s.left)
  }

  /** The text written. */
  function Printed(num: nat, s: Spec): Text
    requires num < TWO_TO_THE_64 && s.base >= 2
  {
    WithPadding(num, s, Pads(num, s))
  }

  /** Neither the room nor the decrements of the padding loops come out of the 16-bit range in a way that shows. */
  predicate Steady(num: nat, s: Spec)
    requires num < TWO_TO_THE_64 && s.base >= 2
  {
    Room(num, s) - (if s.left then 1 else if s.zeropad then 2 else 3) >= -0x8000 || Room(num, s) <= -0x1_0000
  }

  lemma {:induction false} PaddingExactly(room: int, zeropad: bool, left: bool)
    requires -0x1_0002 <= room <= 0x7FFF && !(zeropad && left)
    ensures var pad, asked := Counted(Wrapped16(room), zeropad, left), Asked(room, zeropad, left);
      && (pad == asked <==> room - (if left then 1 else if zeropad then 2 else 3) >= -0x8000 || room <= -0x1_0000)
      && (pad != asked ==> pad.lead + pad.mid + pad.trail > asked.lead + asked.mid + asked.trail)
  {
    assert Wrapped16(room) == if room < -0x8000 then room + 0x1_0000 else room;
  }

  /** The text written is the text asked for exactly when the counters stay steady. */
  lemma {:induction false} PrintedExactly(num: nat, s: Spec)
    requires SpecOk(s) && num < TWO_TO_THE_64
    ensures Printed(num, s) == Formatted(num, s) <==> Steady(num, s)
  {
    hide Counted, Asked, Wrapped16, DigitText, Prefix, Sign;
    RoomBounds(num, s);
    var room, zeropad := Room(num, s), s.zeropad && !s.left;
    PaddingExactly(room, zeropad, s.left);
    PaddedLength(num, s, Pads(num, s));
    PaddedLength(num, s, Asked(room, zeropad, s.left));
  }

  lemma {:induction false} PaddedLength(num: nat, s: Spec, pad: Padding)
    requires num < TWO_TO_THE_64 && s.base >= 2
    ensures |WithPadding(num, s, pad)| == |WithPadding(num, s, Padding(0, 0, 0))| + pad.lead + pad.mid + pad.trail
  {
    hide DigitText, Prefix, Sign;
  }

  lemma {:induction false} RoomBounds(num: nat, s: Spec)
    requires SpecOk(s) && num < TWO_TO_THE_64
    ensures -0x1_0002 <= Room(num, s) <= 0x7FFF
  {
    hide Digits, Reversed, DigitChars;
    BodyLength(num, s, []);
    BitTricks.PowValues();
    FewDigits(Magnitude(num, s), s.base, 64);
  }

  lemma {:induction false} FewDigits(num: nat, base: nat, k: nat)
    requires base >= 2 && k > 0 && num < BitTricks.Pow2(k)
    ensures |Digits(num, base)| <= k
    decreases k
  {
    hide Over, Under;
    OverUnder(num, base);
    assert BitTricks.Pow2(1) == 2;
    if num >= base {
      BitTricks.PowSucc(k - 1);
      BitTricks.ProductOrder(Over(num, base), 2, base);
      FewDigits(Over(num, base), base, k - 1);
    }
  }

  /** With a precision of 32767 and no width, which is then -1, a number comes after 32768 blanks. */
  lemma {:induction false} BlanksFromNowhere(num: nat)
    requires num < TWO_TO_THE_64
    ensures var s := Spec(10, false, false, false, false, false, false, false, -1, 0x7FFF);
      SpecOk(s) && Room(num, s) == -0x8000 && Pads(num, s).lead == 0x8000 && !Steady(num, s)
  {
    hide Digits, Reversed, DigitChars;
    var s := Spec(10, false, false, false, false, false, false, false, -1, 0x7FFF);
    BodyLength(num, s, []);
    BitTricks.PowValues();
    FewDigits(Magnitude(num, s), 10, 64);
  }

  // ---------- writing into a bounded buffer

  /** From `p` on, as much of `text` as lies before `end` has been written, and nothing else. */
  ghost predicate Emitted(before: Text, after: Text, p: nat, end: nat, text: Text) {
    && |after| == |before|
    && forall j :: 0 <= j < |after| ==> after[j] == if p <= j < end && j - p < |text| then text[j - p] else before[j]
  }

  lemma {:induction false} EmittedNothing(b: Text, p: nat, end: nat)
    ensures Emitted(b, b, p, end, [])
  {}

  lemma {:induction false} EmittedOne(b: Text, a: Text, p: nat, end: nat, text: Text, c: nat)
    requires Emitted(b, a, p, end, text) && end <= |b|
    ensures var q := p + |text|; Emitted(b, if q < end then a[q := c] else a, p, end, text + [c])
  {}

  method Put(buf: array<nat>, q: nat, end: nat, c: nat, ghost b: Text, ghost p: nat, ghost text: Text) returns (q': nat)
    requires end <= buf.Length && q == p + |text| && Emitted(b, buf[..], p, end, text)
    modifies buf
    ensures q' == q + 1 && Emitted(b, buf[..], p, end, text + [c])
  {
    EmittedOne(b, buf[..], p, end, text, c);
    hide Emitted;
    if q < end {
      ghost var was := buf[..];
      buf[q] := c;
      assert buf[..] == was[q := c];
    }
    q' := q + 1;
  }

  /** `while (--width >= 0)` over one character, on a 16-bit counter. */
  method Pad(buf: array<nat>, q0: nat, end: nat, c: nat, width0: int, ghost b: Text, ghost p: nat, ghost text: Text) returns (q: nat, width: int)
    requires end <= buf.Length && q0 == p + |text| && Emitted(b, buf[..], p, end, text) && Int16(width0)
    modifies buf
    ensures q == q0 + |Repeat(c, Turns(width0))| && Emitted(b, buf[..], p, end, text + Repeat(c, Turns(width0)))
    ensures width == AfterTurns(width0) && Int16(width)
  {
    hide Emitted, Wrapped16;
    q, width := q0, Wrapped16(width0 - 1);
    ghost var first := width;
    PastMinimum(width0);
    ghost var done := [];
    assert text + done == text;
    while width >= 0
      invariant Int16(width) && (first >= 0 ==> -1 <= width <= first) && (first < 0 ==> width == first)
      invariant |done| == first - width && done == Repeat(c, |done|) && q == p + |text + done|
      invariant Emitted(b, buf[..], p, end, text + done)
      decreases width + 1
    {
      q := Put(buf, q, end, c, b, p, text + done);
      assert (text + done) + [c] == text + (done + [c]);
      done := done + [c];
      width := Wrapped16(width - 1);
    }
  }

  lemma {:induction false} PastMinimum(w: int)
    requires Int16(w)
    ensures Wrapped16(w - 1) == if w == -0x8000 then 0x7FFF else w - 1
  {}

  /** The digits of a number in base 8 or 16, least significant first. */
  method PowerDigits(num0: nat, base: nat, small: bool) returns (tmp: Text)
    requires (base == 8 || base == 16) && num0 > 0
    ensures tmp == DigitChars(Digits(num0, base), small)
  {
    hide Digits, DigitChars;
    tmp := [];
    var num := num0;
    Joined([], Digits(num0, base), small);
    while true
      invariant num > 0 && tmp + DigitChars(Digits(num, base), small) == DigitChars(Digits(num0, base), small)
      decreases num
    {
      var d := num % 256 % base;
      PowerStep(num, base, small);
      tmp := tmp + [DigitChar(d, small)];
      num := if base == 16 then num / 16 else num / 8;
      if num == 0 { return; }
    }
  }

  lemma {:induction false} PowerStep(num: nat, base: nat, small: bool)
    requires (base == 8 || base == 16) && num > 0
    ensures var d, rest := num % 256 % base, if base == 16 then num / 16 else num / 8;
      DigitChars(Digits(num, base), small) == [DigitChar(d, small)] + (if rest == 0 then [] else DigitChars(Digits(rest, base), small))
  {
    hide Digits, DigitChars;
    var d, rest := num % 256 % base, if base == 16 then num / 16 else num / 8;
    LowBits(num);
    if base == 16 { NextDigit(num, 16, num % 16, num / 16); } else { NextDigit(num, 8, num % 8, num / 8); }
    OneChar(d, small);
    if rest != 0 { Joined([d], Digits(rest, base), small); }
  }

  lemma {:induction false} LowBits(num: nat)
    ensures num % 256 % 16 == num % 16 && num % 256 % 8 == num % 8
  {
    var q, r := num / 256, num % 256;
    BitTricks.UniqueQuotient(num, 16, 16 * q + r / 16, r % 16);
    BitTricks.UniqueQuotient(num, 8, 32 * q + r / 8, r % 8);
  }

  lemma {:induction false} OneChar(d: nat, small: bool)
    ensures DigitChars([d], small) == [DigitChar(d, small)]
  {}

  lemma {:induction false} NextDigit(num: nat, base: nat, d: nat, rest: nat)
    requires base >= 2 && num == base * rest + d && d < base
    ensures Digits(num, base) == if rest == 0 then [d] else [d] + Digits(rest, base)
  {
    BitTricks.UniqueQuotient(num, base, rest, d);
    OverUnder(num, base);
    if rest > 0 { BitTricks.ProductOrder(base, 1, rest); }
  }

  /** Writes a whole text, character by character. */
  method PutAll(buf: array<nat>, q0: nat, end: nat, s: Text, ghost b: Text, ghost p: nat, ghost text: Text) returns (q: nat)
    requires end <= buf.Length && q0 == p + |text| && Emitted(b, buf[..], p, end, text)
    modifies buf
    ensures q == q0 + |s| && Emitted(b, buf[..], p, end, text + s)
  {
    hide Emitted;
    q := q0;
    assert text + s[..0] == text;
    for i := 0 to |s|
      invariant q == q0 + i && Emitted(b, buf[..], p, end, text + s[..i])
    {
      q := Put(buf, q, end, s[i], b, p, text + s[..i]);
      assert (text + s[..i]) + [s[i]] == text + s[..i + 1];
    }
    assert s[..|s|] == s;
  }

  /** Writes the digits held in reverse in `tmp`. */
  method PutReversed(buf: array<nat>, q0: nat, end: nat, tmp: Text, ghost b: Text, ghost p: nat, ghost text: Text) returns (q: nat)
    requires end <= buf.Length && q0 == p + |text| && Emitted(b, buf[..], p, end, text)
    modifies buf
    ensures q == q0 + |tmp| && Emitted(b, buf[..], p, end, text + Reversed(tmp))
  {
    hide Emitted, Reversed;
    q := q0;
    var i := |tmp|;
    ReversedPart(tmp, i);
    assert text + Reversed(tmp[i..]) == text;
    while i > 0
      invariant 0 <= i <= |tmp| && |Reversed(tmp[i..])| == |tmp| - i && q == q0 + |tmp| - i && Emitted(b, buf[..], p, end, text + Reversed(tmp[i..]))
    {
      i := i - 1;
      ReversedPart(tmp, i);
      q := Put(buf, q, end, tmp[i], b, p, text + Reversed(tmp[i + 1..]));
      assert (text + Reversed(tmp[i + 1..])) + [tmp[i]] == text + Reversed(tmp[i..]);
    }
    assert tmp[0..] == tmp;
  }

  lemma {:induction false} ReversedPart(t: Text, i: nat)
    requires i <= |t|
    ensures i == |t| ==> Reversed(t[i..]) == []
    ensures i < |t| ==> Reversed(t[i..]) == Reversed(t[i + 1..]) + [t[i]]
  {
    if i < |t| { assert t[i..][0] == t[i] && t[i..][1..] == t[i + 1..]; }
  }

  lemma {:induction false} ReversedLength(t: Text)
    ensures |Reversed(t)| == |t|
  {
    if t != [] { ReversedLength(t[1..]); }
  }

  /** The digits in reverse order, as number collects them. */
  method ReverseDigits(num: nat, spec: Spec) returns (tmp: Text)
    requires SpecOk(spec)
    ensures tmp == DigitChars(Digits(num, spec.base), spec.small && spec.base != 10)
  {
    hide Digits, DigitChars;
    if num == 0 {
      tmp := [ZERO];
      ZeroDigits(spec.base, spec.small && spec.base != 10);
    } else if spec.base != 10 {
      tmp := PowerDigits(num, spec.base, spec.small);
    } else {
      tmp := PutDec(num);
    }
  }

  /** number: writes the text of a number from `p` on, never at or past `end`, and returns where it would end. */
  method Number(buf: array<nat>, p: nat, end: nat, num0: nat, spec: Spec) returns (q: nat)
    requires SpecOk(spec) && num0 < TWO_TO_THE_64 && end <= buf.Length
    modifies buf
    ensures q == p + |Printed(num0, spec)| && Emitted(old(buf[..]), buf[..], p, end, Printed(num0, spec))
    ensures Steady(num0, spec) ==> Printed(num0, spec) == Formatted(num0, spec)
  {
    hide Emitted, Digits, Reversed, DigitChars, Repeat, Laid, Counted, Wrapped16, Formatted, Steady, Sign, Magnitude, Prefix;
    PrintedExactly(num0, spec);
    var zeropad := spec.zeropad && !spec.left;
    var sign, num, width := SignAndWidth(num0, spec);
    var precision := spec.precision;
    var tmp := ReverseDigits(num, spec);
    ReversedLength(tmp);
    var i := |tmp|;
    if i > precision { precision := i; }
    WrappedTwice(spec.width - |sign| - |Prefix(spec)|, precision);
    width := Wrapped16(width - precision);
    RoomBounds(num0, spec);
    q := Lay(buf, p, end, sign, Prefix(spec), precision - i, tmp, zeropad, spec.left, width);
  }

  /** The sign, the magnitude, and the width that sign and prefix leave. */
  method SignAndWidth(num0: nat, spec: Spec) returns (sign: Text, num: nat, width: int)
    requires SpecOk(spec) && num0 < TWO_TO_THE_64
    ensures sign == Sign(num0, spec) && num == Magnitude(num0, spec) && width == Wrapped16(spec.width - |sign| - |Prefix(spec)|)
  {
    hide Wrapped16;
    var needPrefix := spec.special && spec.base != 10;
    sign, num, width := [], num0, spec.width;
    if spec.signed {
      if num >= TWO_TO_THE_64 / 2 {
        sign, num := [0x2d], TWO_TO_THE_64 - num;
        width := Wrapped16(width - 1);
      } else if spec.plus {
        sign, width := [0x2b], Wrapped16(width - 1);
      } else if spec.space {
        sign, width := [BLANK], Wrapped16(width - 1);
      }
    }
    if needPrefix {
      WrappedTwice(spec.width - |sign|, 1);
      width := Wrapped16(width - 1);
      WrappedTwice(spec.width - |sign| - 1, 1);
      if spec.base == 16 { width := Wrapped16(width - 1); }
    }
  }

  lemma {:induction false} WrappedTwice(a: int, b: int)
    ensures Wrapped16(Wrapped16(a) - b) == Wrapped16(a - b)
  {}

  /** The output part of number, once everything is known. */
  method Lay(buf: array<nat>, p: nat, end: nat, sign: Text, prefix: Text, zeros: int, tmp: Text, zeropad: bool, left: bool, width0: int) returns (q: nat)
    requires end <= buf.Length && !(zeropad && left) && Int16(width0) && Int16(zeros) && zeros >= 0
    modifies buf
    ensures var text := Laid(sign, prefix, zeros, Reversed(tmp), if zeropad then ZERO else BLANK, Counted(width0, zeropad, left));
      q == p + |text| && Emitted(old(buf[..]), buf[..], p, end, text)
  {
    hide Emitted, Reversed, Repeat, Turns, AfterTurns;
    ghost var b := buf[..];
    EmittedNothing(b, p, end);
    RepeatNone(BLANK);
    RepeatNone(ZERO);
    var width := width0;
    ghost var pad := Counted(width0, zeropad, left);
    ghost var text: Text := [];
    q := p;
    if !zeropad && !left {
      q, width := Pad(buf, q, end, BLANK, width, b, p, text);
    }
    text := text + Repeat(BLANK, pad.lead);
    q := PutAll(buf, q, end, sign, b, p, text);
    text := text + sign;
    q := PutAll(buf, q, end, prefix, b, p, text);
    text := text + prefix;
    var c := if zeropad then ZERO else BLANK;
    if !left {
      q, width := Pad(buf, q, end, c, width, b, p, text);
    }
    assert text + Repeat(c, 0) == text;
    text := text + Repeat(c, pad.mid);
    q := FinishNumber(buf, q, end, zeros, tmp, width, b, p, text);
    assert text == [] + Repeat(BLANK, pad.lead) + sign + prefix + Repeat(c, pad.mid);
    assert [] + Repeat(BLANK, pad.lead) == Repeat(BLANK, pad.lead);
  }

  /** Zeros for the precision, the digits, and the blanks behind. */
  method FinishNumber(buf: array<nat>, q0: nat, end: nat, zeros: int, tmp: Text, width: int, ghost b: Text, ghost p: nat, ghost text: Text) returns (q: nat)
    requires end <= buf.Length && q0 == p + |text| && Emitted(b, buf[..], p, end, text) && Int16(width) && Int16(zeros) && zeros >= 0
    modifies buf
    ensures var text' := text + Repeat(ZERO, zeros) + Reversed(tmp) + Repeat(BLANK, Turns(width)); q == p + |text'| && Emitted(b, buf[..], p, end, text')
  {
    hide Emitted, Reversed, Repeat;
    ReversedLength(tmp);
    var rest;
    q, rest := Pad(buf, q0, end, ZERO, zeros, b, p, text);
    q := PutReversed(buf, q, end, tmp, b, p, text + Repeat(ZERO, zeros));
    q, rest := Pad(buf, q, end, BLANK, width, b, p, text + Repeat(ZERO, zeros) + Reversed(tmp));
  }

  lemma {:induction false} RepeatNone(c: nat)
    ensures Repeat(c, 0) == []
  {}

  lemma {:induction false} ZeroDigits(base: nat, small: bool)
    requires base >= 2
    ensures DigitChars(Digits(0, base), small) == [ZERO]
  {
    assert Digits(0, base) == [0];
  }

  /** A smaller buffer gets a prefix of what a larger one gets, and the same length is reported. */
  lemma {:induction false} SmallerBuffer(b1: Text, a1: Text, b2: Text, a2: Text, p: nat, end1: nat, end2: nat, text: Text)
    requires Emitted(b1, a1, p, end1, text) && Emitted(b2, a2, p, end2, text) && end1 <= end2 && end1 <= |b1| && end2 <= |b2|
    ensures forall j :: p <= j < end1 && j - p < |text| ==> a1[j] == a2[j] == text[j - p]
    ensures forall j :: 0 <= j < |a1| && (j < p || end1 <= j) ==> a1[j] == b1[j]
  {}

  // ---------- parsing

  /** The value of a hexadecimal digit character, or 16. */
  function DigitValue(c: nat): nat {
    if 0x30 <= c <= 0x39 then c - 0x30
    else if 0x41 <= c <= 0x46 then c - 0x41 + 10
    else if 0x61 <= c <= 0x66 then c - 0x61 + 10
    else 16
  }

  /** Reading digits from place `i` on, in 64-bit arithmetic. */
  function Parse(text: Text, i: nat, base: nat, acc: nat): nat
    requires base <= 16 && i <= |text|
    decreases |text| - i
  {
    if i < |text| && DigitValue(text[i]) < base then Parse(text, i + 1, base, (acc * base + DigitValue(text[i])) % TWO_TO_THE_64) else acc
  }

  /** Where the digits start: behind "0x" in base 16. */
  function Start(text: Text, base: nat): nat {
    if base == 16 && |text| >= 2 && text[0] == ZERO && (text[1] == 0x78 || text[1] == 0x58) then 2 else 0
  }

  /** Which characters are digits, and with which values. */
  lemma {:induction false} DigitCharacters(c: nat)
    ensures DigitValue(c) < 16 <==> '0' as nat <= c <= '9' as nat || 'A' as nat <= c <= 'F' as nat || 'a' as nat <= c <= 'f' as nat
    ensures '0' as nat <= c <= '9' as nat ==> DigitValue(c) == c - '0' as nat
    ensures 'A' as nat <= c <= 'F' as nat ==> DigitValue(c) == DigitValue(c + 0x20) == c - 'A' as nat + 10
  {}

  /** In base 16 a leading "0x" or "0X" is skipped, and nothing else ever. */
  lemma {:induction false} StartExactly(text: Text, base: nat)
    ensures Start(text, base) == 0 || Start(text, base) == 2
    ensures Start(text, base) == 2 <==> base == 16 && |text| >= 2 && (text[..2] == ['0' as nat, 'x' as nat] || text[..2] == ['0' as nat, 'X' as nat])
  {
    assert |text| >= 2 ==> text[..2][0] == text[0] && text[..2][1] == text[1] && text[..2] == [text[0], text[1]];
  }

  /** The values of digit characters. */
  function DigitValues(t: Text): seq<nat> { seq(|t|, i requires 0 <= i < |t| => DigitValue(t[i])) }

  /** simple_guess_base */
  function GuessedBase(text: Text): nat {
    if text == [] || text[0] != ZERO then 10
    else if |text| >= 3 && (text[1] == 0x78 || text[1] == 0x58) && DigitValue(text[2]) < 16 then 16
    else 8
  }

  /** simple_strtoull, with a base of 8, 10 or 16, or 0 to guess it: the value, in 64 bits, of the longest run of digits. */
  method Strtoull(text: Text, base0: nat) returns (result: nat, end: nat)
    requires base0 == 0 || base0 == 8 || base0 == 10 || base0 == 16
    ensures var base := if base0 == 0 then GuessedBase(text) else base0;
      && result == Parse(text, Start(text, base), base, 0)
      && Start(text, base) <= end <= |text| && (end < |text| ==> DigitValue(text[end]) >= base)
      && (forall i :: Start(text, base) <= i < end ==> DigitValue(text[i]) < base)
      && result == Horner(DigitValues(text[Start(text, base)..end]), base, 0) % TWO_TO_THE_64
  {
    var base := if base0 == 0 then GuessedBase(text) else base0;
    hide DigitValue, DigitValues, Horner;
    end := Start(text, base);
    ghost var start := end;
    NoDigits(text, end, base);
    result := 0;
    while end < |text| && DigitValue(text[end]) < 16
      invariant start <= end <= |text| && Parse(text, end, base, result) == Parse(text, start, base, 0)
      invariant forall i :: start <= i < end ==> DigitValue(text[i]) < base
      invariant result == Horner(DigitValues(text[start..end]), base, 0) % TWO_TO_THE_64
    {
      var value := DigitValue(text[end]);
      if value >= base { break; }
      DigitValuesSnoc(text, start, end);
      HornerSnoc(DigitValues(text[start..end]), value, base, 0);
      HornerWraps(Horner(DigitValues(text[start..end]), base, 0), base, value);
      result := (result * base + value) % TWO_TO_THE_64;
      end := end + 1;
    }
  }

  lemma {:induction false} NoDigits(text: Text, i: nat, base: nat)
    requires i <= |text|
    ensures Horner(DigitValues(text[i..i]), base, 0) == 0
  {}

  lemma {:induction false} DigitValuesSnoc(text: Text, start: nat, end: nat)
    requires start <= end < |text|
    ensures DigitValues(text[start..end + 1]) == DigitValues(text[start..end]) + [DigitValue(text[end])]
  {}

  lemma {:induction false} HornerWraps(h: nat, base: nat, v: nat)
    ensures (h % TWO_TO_THE_64 * base + v) % TWO_TO_THE_64 == (h * base + v) % TWO_TO_THE_64
  {
    var m, q, r := TWO_TO_THE_64, h / TWO_TO_THE_64, h % TWO_TO_THE_64;
    var x := r * base + v;
    assert h * base == m * (q * base) + r * base by { assert h == m * q + r; }
    BitTricks.Quotient(x, m);
    BitTricks.UniqueQuotient(h * base + v, m, q * base + x / m, x % m);
  }

  /** The value of digits, most significant first. */
  function Horner(ds: seq<nat>, base: nat, acc: nat): nat {
    if ds == [] then acc else Horner(ds[1..], base, acc * base + ds[0])
  }

  lemma {:induction false} HornerGrows(ds: seq<nat>, base: nat, acc: nat)
    requires base >= 1
    ensures Horner(ds, base, acc) >= acc
    decreases |ds|
  {
    if ds != [] {
      HornerGrows(ds[1..], base, acc * base + ds[0]);
      BitTricks.ProductOrder(acc, 1, base);
    }
  }

  lemma {:induction false} HornerSnoc(ds: seq<nat>, d: nat, base: nat, acc: nat)
    ensures Horner(ds + [d], base, acc) == Horner(ds, base, acc) * base + d
    decreases |ds|
  {
    if ds != [] {
      assert (ds + [d])[1..] == ds[1..] + [d];
      HornerSnoc(ds[1..], d, base, acc * base + ds[0]);
    } else {
      assert ([] + [d])[1..] == [];
    }
  }

  /** Digits least significant first, read from the other end. */
  lemma {:induction false} HornerReversed(ds: seq<nat>, base: nat)
    ensures Horner(Reversed(ds), base, 0) == Value(ds, base)
  {
    if ds != [] {
      HornerReversed(ds[1..], base);
      HornerSnoc(Reversed(ds[1..]), ds[0], base, 0);
    }
  }

  lemma {:induction false} HornerZeros(n: int, ds: seq<nat>, base: nat)
    ensures Horner(Repeat(0, n) + ds, base, 0) == Horner(ds, base, 0)
    decreases n
  {
    if n > 0 {
      var s := Repeat(0, n) + ds;
      assert s[1..] == Repeat(0, n - 1) + ds;
      HornerZeros(n - 1, ds, base);
    } else {
      assert Repeat(0, n) + ds == ds;
    }
  }

  /** Parsing digit characters gives their value, as long as it fits. */
  lemma {:induction false} ParseDigits(text: Text, i: nat, base: nat, acc: nat, ds: seq<nat>)
    requires (base == 8 || base == 10 || base == 16) && i + |ds| <= |text| && Horner(ds, base, acc) < TWO_TO_THE_64
    requires forall k :: 0 <= k < |ds| ==> ds[k] < base && DigitValue(text[i + k]) == ds[k]
    requires i + |ds| < |text| ==> DigitValue(text[i + |ds|]) >= base
    ensures Parse(text, i, base, acc) == Horner(ds, base, acc)
    decreases |ds|
  {
    hide DigitValue, Parse;
    if ds == [] {
      ParseEnds(text, i, base, acc);
    } else {
      var next := acc * base + ds[0];
      assert DigitValue(text[i + 0]) == ds[0];
      HornerGrows(ds[1..], base, next);
      forall k | 0 <= k < |ds| - 1 ensures ds[1..][k] < base && DigitValue(text[i + 1 + k]) == ds[1..][k] {
        assert DigitValue(text[i + (k + 1)]) == ds[k + 1];
      }
      ParseDigits(text, i + 1, base, next, ds[1..]);
      ParseStep(text, i, base, acc, next);
    }
  }

  lemma {:induction false} ParseEnds(text: Text, i: nat, base: nat, acc: nat)
    requires base <= 16 && i <= |text| && (i < |text| ==> DigitValue(text[i]) >= base)
    ensures Parse(text, i, base, acc) == acc
  {}

  lemma {:induction false} ParseStep(text: Text, i: nat, base: nat, acc: nat, next: nat)
    requires base <= 16 && i < |text| && DigitValue(text[i]) < base && next == acc * base + DigitValue(text[i]) < TWO_TO_THE_64
    ensures Parse(text, i, base, acc) == Parse(text, i + 1, base, next)
  {
    hide DigitValue;
    var sum := acc * base + DigitValue(text[i]);
    assert sum == next && sum % TWO_TO_THE_64 == next;
  }

  /** Blanks come before the digits. */
  ghost predicate BlankFirst(num: nat, s: Spec)
    requires num < TWO_TO_THE_64 && s.base >= 2
  {
    Pads(num, s).lead > 0 || (FillChar(s) == BLANK && Pads(num, s).mid > 0)
  }

  /** As long as the counters stay steady, that is when the room in front is not filled with zeros. */
  lemma {:induction false} BlankWhenRoom(num: nat, s: Spec)
    requires SpecOk(s) && num < TWO_TO_THE_64 && Steady(num, s)
    ensures BlankFirst(num, s) <==> !s.left && !s.zeropad && Room(num, s) > 0
  {
    hide Counted, Wrapped16, Room;
    RoomBounds(num, s);
    PaddingExactly(Room(num, s), s.zeropad && !s.left, s.left);
  }

  /** The digit values in the text of a number, behind its prefix. */
  ghost function AllDigits(num: nat, s: Spec): seq<nat>
    requires num < TWO_TO_THE_64 && s.base >= 2
  {
    var ds := DigitText(num, s);
    Repeat(0, if FillChar(s) == ZERO then Pads(num, s).mid else 0) + Repeat(0, Max(|ds|, s.precision) - |ds|) + Reversed(Digits(Magnitude(num, s), s.base))
  }

  lemma {:induction false} ReversedAt(t: seq<nat>, k: nat)
    requires k < |t|
    ensures |Reversed(t)| == |t| && Reversed(t)[k] == t[|t| - 1 - k]
  {
    ReversedLength(t);
    if k < |t| - 1 { ReversedAt(t[1..], k); } else { ReversedLength(t[1..]); }
  }

  lemma {:induction false} DigitCharValue(d: nat, small: bool)
    requires d < 16
    ensures DigitValue(DigitChar(d, small)) == d && DigitChar(d, small) != 0x78 && DigitChar(d, small) != 0x58
  {}

  /** The characters are digits with these values. */
  ghost predicate Spells(chars: Text, vals: seq<nat>, base: nat) {
    && |chars| == |vals|
    && forall k :: 0 <= k < |vals| ==> vals[k] < base && DigitValue(chars[k]) == vals[k] && chars[k] != 0x78 && chars[k] != 0x58
  }

  lemma {:induction false} SpellsBoth(a: Text, x: seq<nat>, b: Text, y: seq<nat>, base: nat)
    requires Spells(a, x, base) && Spells(b, y, base)
    ensures Spells(a + b, x + y, base)
  {}

  lemma {:induction false} SpellsZeros(n: int, base: nat)
    requires base > 0
    ensures Spells(Repeat(ZERO, n), Repeat(0, n), base)
  {}

  lemma {:induction false} SpellsReversed(ds: seq<nat>, small: bool, base: nat)
    requires base <= 16 && forall i :: 0 <= i < |ds| ==> ds[i] < base
    ensures Spells(Reversed(DigitChars(ds, small)), Reversed(ds), base)
  {
    var cs := DigitChars(ds, small);
    ReversedLength(cs);
    ReversedLength(ds);
    forall k | 0 <= k < |ds|
      ensures Reversed(ds)[k] < base && DigitValue(Reversed(cs)[k]) == Reversed(ds)[k] && Reversed(cs)[k] != 0x78 && Reversed(cs)[k] != 0x58
    {
      ReversedAt(cs, k);
      ReversedAt(ds, k);
      DigitCharValue(ds[|ds| - 1 - k], small);
    }
  }

  /** The text behind blanks in front and the sign. */
  function AfterSign(num: nat, s: Spec): Text
    requires num < TWO_TO_THE_64 && s.base >= 2
  {
    var ds, pad := DigitText(num, s), Pads(num, s);
    Prefix(s) + Repeat(FillChar(s), pad.mid) + Repeat(ZERO, Max(|ds|, s.precision) - |ds|) + ds + Repeat(BLANK, pad.trail)
  }

  lemma {:induction false} SignAndRest(num: nat, s: Spec)
    requires SpecOk(s) && num < TWO_TO_THE_64
    ensures Printed(num, s) == Repeat(BLANK, Pads(num, s).lead) + Sign(num, s) + AfterSign(num, s)
    ensures Pads(num, s).lead == 0 ==> Printed(num, s) == Sign(num, s) + AfterSign(num, s)
  {
    hide Repeat, DigitText, Prefix, Sign, Pads;
    RepeatNone(BLANK);
    assert [] + Sign(num, s) == Sign(num, s);
  }

  /** With no blank before the digits, the text behind the sign is a prefix, the digits, and only blanks behind. */
  lemma {:induction false} TextSpells(num: nat, s: Spec) returns (body: Text, tail: Text)
    requires SpecOk(s) && num < TWO_TO_THE_64 && (FillChar(s) == BLANK ==> Pads(num, s).mid == 0)
    ensures AfterSign(num, s) == Prefix(s) + body + tail && Spells(body, AllDigits(num, s), s.base) && body != []
    ensures tail == [] || tail[0] == BLANK
  {
    hide Digits, Reversed, DigitChars, Repeat, Spells, Pads, Prefix, AfterSign;
    var ds, small := Digits(Magnitude(num, s), s.base), s.small && s.base != 10;
    ValueOfDigits(Magnitude(num, s), s.base);
    ReversedLength(DigitChars(ds, small));
    CharsLength(ds, small);
    var a, b := if FillChar(s) == ZERO then Pads(num, s).mid else 0, Max(|ds|, s.precision) - |ds|;
    SpellsZeros(a, s.base);
    SpellsZeros(b, s.base);
    SpellsReversed(ds, small, s.base);
    SpellsBoth(Repeat(ZERO, a), Repeat(0, a), Repeat(ZERO, b), Repeat(0, b), s.base);
    SpellsBoth(Repeat(ZERO, a) + Repeat(ZERO, b), Repeat(0, a) + Repeat(0, b), DigitText(num, s), Reversed(ds), s.base);
    body := Repeat(ZERO, a) + Repeat(ZERO, b) + DigitText(num, s);
    tail := Repeat(BLANK, Pads(num, s).trail);
    Blanks(Pads(num, s).trail);
    PlainLayout(num, s, a, b, tail);
    Regroup(Prefix(s), Repeat(ZERO, a), Repeat(ZERO, b), DigitText(num, s), tail);
    BodyLength(num, s, Repeat(ZERO, a) + Repeat(ZERO, b));
  }

  lemma {:induction false} BodyLength(num: nat, s: Spec, zeros: Text)
    requires SpecOk(s) && num < TWO_TO_THE_64
    ensures zeros + DigitText(num, s) != [] && |DigitText(num, s)| == |Digits(Magnitude(num, s), s.base)|
  {
    hide Digits;
    ValueOfDigits(Magnitude(num, s), s.base);
    ReversedLength(DigitChars(Digits(Magnitude(num, s), s.base), s.small && s.base != 10));
  }

  lemma {:induction false} Regroup(p: Text, a: Text, b: Text, c: Text, d: Text)
    ensures p + a + b + c + d == p + (a + b + c) + d
  {}

  lemma {:induction false} PlainLayout(num: nat, s: Spec, a: int, b: int, tail: Text)
    requires SpecOk(s) && num < TWO_TO_THE_64 && (FillChar(s) == BLANK ==> Pads(num, s).mid == 0)
    requires a == (if FillChar(s) == ZERO then Pads(num, s).mid else 0) && b == Max(|DigitText(num, s)|, s.precision) - |DigitText(num, s)|
    requires tail == Repeat(BLANK, Pads(num, s).trail)
    ensures AfterSign(num, s) == Prefix(s) + Repeat(ZERO, a) + Repeat(ZERO, b) + DigitText(num, s) + tail
  {
    hide Repeat, DigitText, Prefix, Pads;
    RepeatNone(BLANK);
    RepeatNone(ZERO);
  }

  lemma {:induction false} Blanks(n: int)
    ensures n <= 0 ==> Repeat(BLANK, n) == []
    ensures Repeat(BLANK, n) == [] || Repeat(BLANK, n)[0] == BLANK
  {}

  lemma {:induction false} CharsLength(ds: seq<nat>, small: bool)
    ensures |DigitChars(ds, small)| == |ds|
  {}

  /** The value spelled is the number. */
  lemma {:induction false} AllDigitsValue(num: nat, s: Spec)
    requires SpecOk(s) && num < TWO_TO_THE_64
    ensures Horner(AllDigits(num, s), s.base, 0) == Magnitude(num, s)
  {
    var ds := DigitText(num, s);
    var a, b, r := if FillChar(s) == ZERO then Pads(num, s).mid else 0, Max(|ds|, s.precision) - |ds|, Reversed(Digits(Magnitude(num, s), s.base));
    assert AllDigits(num, s) == Repeat(0, a) + (Repeat(0, b) + r);
    HornerZeros(a, Repeat(0, b) + r, s.base);
    HornerZeros(b, r, s.base);
    HornerReversed(Digits(Magnitude(num, s), s.base), s.base);
    ValueOfDigits(Magnitude(num, s), s.base);
  }

  /** What simple_strtoull makes of a text, in a base of 8, 10 or 16. */
  function Reading(text: Text, base: nat): nat
    requires base == 8 || base == 10 || base == 16
  {
    Parse(text, Start(text, base), base, 0)
  }

  /** Behind the sign stands the magnitude, when no blank comes before the digits. */
  lemma {:induction false} RestReads(num: nat, s: Spec)
    requires SpecOk(s) && num < TWO_TO_THE_64 && (FillChar(s) == BLANK ==> Pads(num, s).mid == 0)
    ensures Reading(AfterSign(num, s), s.base) == Magnitude(num, s)
  {
    hide AfterSign, AllDigits, Horner, Parse, Pads, Spells;
    var body, tail := TextSpells(num, s);
    AllDigitsValue(num, s);
    var text, vals := AfterSign(num, s), AllDigits(num, s);
    if Prefix(s) == [] {
      assert text == [] + body + tail;
      NoPrefix(body, tail, vals, s.base);
      ParseSpelled([], body, tail, vals, s.base);
    } else if s.base == 16 {
      assert text[0] == ZERO && text[1] == Prefix(s)[1];
      ParseSpelled(Prefix(s), body, tail, vals, s.base);
    } else {
      assert text == [] + ([ZERO] + body) + tail;
      SpellsZeros(1, s.base);
      assert Repeat(ZERO, 1) == [ZERO] && Repeat(0, 1) == [0];
      SpellsBoth([ZERO], [0], body, vals, s.base);
      HornerZeros(1, vals, s.base);
      ParseSpelled([], [ZERO] + body, tail, [0] + vals, s.base);
    }
  }

  /** simple_strtoull undoes number, for texts without a sign and without blanks before the digits. */
  lemma {:induction false} RoundTrip(num: nat, s: Spec)
    requires SpecOk(s) && num < TWO_TO_THE_64 && Sign(num, s) == [] && !BlankFirst(num, s)
    ensures Reading(Printed(num, s), s.base) == num
  {
    hide AfterSign, Pads, Reading, Printed;
    RestReads(num, s);
    SignAndRest(num, s);
    assert [] + AfterSign(num, s) == AfterSign(num, s);
  }

  lemma {:induction false} NoPrefix(body: Text, tail: Text, vals: seq<nat>, base: nat)
    requires Spells(body, vals, base) && body != [] && (tail == [] || tail[0] == BLANK)
    ensures Start([] + body + tail, base) == 0
  {}

  lemma {:induction false} ParseSpelled(pre: Text, body: Text, tail: Text, vals: seq<nat>, base: nat)
    requires (base == 8 || base == 10 || base == 16) && Spells(body, vals, base) && (tail == [] || tail[0] == BLANK)
    requires Horner(vals, base, 0) < TWO_TO_THE_64
    ensures Parse(pre + body + tail, |pre|, base, 0) == Horner(vals, base, 0)
  {
    hide Parse, Horner;
    var text := pre + body + tail;
    forall k | 0 <= k < |vals| ensures DigitValue(text[|pre| + k]) == vals[k] { assert text[|pre| + k] == body[k]; }
    assert tail != [] ==> text[|pre| + |body|] == BLANK;
    ParseDigits(text, |pre|, base, 0, vals);
  }

  /** A leading blank or sign stops the parser at once. */
  lemma {:induction false} LeadingStops(text: Text, base: nat)
    requires (base == 8 || base == 10 || base == 16) && text != [] && DigitValue(text[0]) >= base
    ensures Start(text, base) == 0 && Parse(text, 0, base, 0) == 0
  {}

  /** Exactly when it does: the text parses back if and only if the number is zero or no sign and no blank come first. */
  lemma {:induction false} RoundTripExactly(num: nat, s: Spec)
    requires SpecOk(s) && num < TWO_TO_THE_64
    ensures Reading(Printed(num, s), s.base) == num <==> num == 0 || (Sign(num, s) == [] && !BlankFirst(num, s))
  {
    hide Printed, Parse, Pads, AfterSign;
    if Sign(num, s) == [] && !BlankFirst(num, s) {
      RoundTrip(num, s);
    } else if Pads(num, s).lead > 0 || Sign(num, s) != [] {
      StartsOdd(num, s);
      LeadingStops(Printed(num, s), s.base);
    } else {
      BlankInside(num, s);
      SignAndRest(num, s);
      assert [] + AfterSign(num, s) == AfterSign(num, s);
    }
  }

  // ---------- signed numbers

  /** The value of a 64-bit word as a signed number. */
  function Signed64(x: nat): int { if x < 0x8000_0000_0000_0000 then x else x - 0x1_0000_0000_0000_0000 }

  /** What simple_strtoll makes of a text: behind a minus, the negated value, all in 64 bits. */
  function SignedReading(text: Text, base: nat): int
    requires base == 8 || base == 10 || base == 16
  {
    if text != [] && text[0] == 0x2d then Signed64((TWO_TO_THE_64 - Reading(text[1..], base)) % TWO_TO_THE_64)
    else Signed64(Reading(text, base))
  }

  /** simple_strtol and simple_strtoll. */
  method Strtoll(text: Text, base0: nat) returns (value: int, end: nat)
    requires base0 == 0 || base0 == 8 || base0 == 10 || base0 == 16
    ensures var digits := if text != [] && text[0] == 0x2d then text[1..] else text;
      value == SignedReading(text, if base0 == 0 then GuessedBase(digits) else base0)
    ensures end <= |text|
  {
    var result;
    if text != [] && text[0] == 0x2d {
      result, end := Strtoull(text[1..], base0);
      value, end := Signed64((TWO_TO_THE_64 - result) % TWO_TO_THE_64), end + 1;
    } else {
      result, end := Strtoull(text, base0);
      value := Signed64(result);
    }
  }

  /** A signed conversion prints its sign: a minus exactly for negative numbers, and what was asked for the others. */
  lemma {:induction false} SignPrinted(num: nat, s: Spec)
    requires SpecOk(s) && num < TWO_TO_THE_64 && !BlankFirst(num, s)
    ensures var text := Printed(num, s);
      && text != [] && (text[0] == 0x2d <==> s.signed && Signed64(num) < 0)
      && (text[0] == 0x2b <==> s.signed && Signed64(num) >= 0 && s.plus)
      && (text[0] == 0x20 <==> s.signed && Signed64(num) >= 0 && !s.plus && s.space)
  {
    hide Printed, Pads, Spells, AfterSign;
    SignAndRest(num, s);
    var body, tail := TextSpells(num, s);
    StartsWithDigit(body, AllDigits(num, s), s.base);
    assert AfterSign(num, s)[0] == if Prefix(s) == [] then body[0] else ZERO;
  }

  lemma {:induction false} StartsWithDigit(body: Text, vals: seq<nat>, base: nat)
    requires Spells(body, vals, base) && body != [] && base <= 16
    ensures DigitValue(body[0]) < 16
  {
    assert vals[0] < base;
  }

  /** simple_strtoll gives a signed number back exactly when it is zero, or no blank and no sign but a minus come before the digits. */
  lemma {:induction false} SignedRoundTripExactly(num: nat, s: Spec)
    requires SpecOk(s) && num < TWO_TO_THE_64 && s.signed
    ensures SignedReading(Printed(num, s), s.base) == Signed64(num) <==>
            num == 0 || (!BlankFirst(num, s) && (Signed64(num) < 0 || (!s.plus && !s.space)))
  {
    hide Printed, Parse, Pads, AfterSign;
    var text, rest := Printed(num, s), AfterSign(num, s);
    SignAndRest(num, s);
    if Pads(num, s).lead > 0 || (Sign(num, s) != [] && Signed64(num) >= 0) {
      StartsOdd(num, s);
      LeadingStops(text, s.base);
      NoMinus(num, s);
    } else {
      if FillChar(s) == BLANK && Pads(num, s).mid > 0 { BlankInside(num, s); } else { RestReads(num, s); }
      if Signed64(num) < 0 {
        assert text[1..] == rest;
      } else {
        assert text == rest;
        StartsPlain(num, s);
      }
    }
  }

  lemma {:induction false} NoMinus(num: nat, s: Spec)
    requires SpecOk(s) && num < TWO_TO_THE_64 && (Pads(num, s).lead > 0 || (Sign(num, s) != [] && Signed64(num) >= 0))
    ensures Printed(num, s) != [] && Printed(num, s)[0] != 0x2d
  {
    hide DigitText, Prefix, Pads;
    var n := Pads(num, s).lead;
    if n > 0 { assert Repeat(BLANK, n)[0] == BLANK; } else { assert Repeat(BLANK, n) == []; }
  }

  lemma {:induction false} StartsPlain(num: nat, s: Spec)
    requires SpecOk(s) && num < TWO_TO_THE_64
    ensures AfterSign(num, s) != [] && AfterSign(num, s)[0] != 0x2d
  {
    hide Pads, Spells, AfterSign;
    if FillChar(s) == BLANK && Pads(num, s).mid > 0 {
      GapIsBlank(Pads(num, s).mid);
      RestStarts(num, s);
    } else {
      var body, tail := TextSpells(num, s);
      StartsWithDigit(body, AllDigits(num, s), s.base);
      assert AfterSign(num, s)[0] == if Prefix(s) == [] then body[0] else ZERO;
    }
  }

  lemma {:induction false} RestStarts(num: nat, s: Spec)
    requires SpecOk(s) && num < TWO_TO_THE_64 && Repeat(FillChar(s), Pads(num, s).mid) != [] && Repeat(FillChar(s), Pads(num, s).mid)[0] == BLANK
    ensures AfterSign(num, s) != [] && AfterSign(num, s)[0] == if Prefix(s) == [] then BLANK else ZERO
  {
    hide Pads, Repeat, DigitText;
  }

  /** Blanks or a sign in front. */
  lemma {:induction false} StartsOdd(num: nat, s: Spec)
    requires SpecOk(s) && num < TWO_TO_THE_64 && (Pads(num, s).lead > 0 || Sign(num, s) != [])
    ensures Printed(num, s) != [] && DigitValue(Printed(num, s)[0]) >= s.base
  {
    hide DigitText, Prefix, Pads;
    var n := Pads(num, s).lead;
    if n > 0 { assert Repeat(BLANK, n)[0] == BLANK; } else { assert Repeat(BLANK, n) == []; }
  }

  /** Blanks between the prefix and the digits. */
  lemma {:induction false} BlankInside(num: nat, s: Spec)
    requires SpecOk(s) && num < TWO_TO_THE_64 && FillChar(s) == BLANK && Pads(num, s).mid > 0
    ensures Reading(AfterSign(num, s), s.base) == 0
  {
    hide DigitText, Pads, Repeat, Parse, Spells;
    var pad := Pads(num, s);
    var ds := DigitText(num, s);
    var gap := Repeat(BLANK, pad.mid);
    assert gap != [] && gap[0] == BLANK by { GapIsBlank(pad.mid); }
    var tail := gap + Repeat(ZERO, Max(|ds|, s.precision) - |ds|) + ds + Repeat(BLANK, pad.trail);
    var text := AfterSign(num, s);
    assert text == Prefix(s) + tail;
    SpellsNothing(s.base);
    if Prefix(s) == [] {
      LeadingStops(text, s.base);
    } else if s.base == 16 {
      assert text == Prefix(s) + [] + tail;
      ParseSpelled(Prefix(s), [], tail, [], s.base);
    } else {
      assert text == [] + [ZERO] + tail;
      ParseSpelled([], [ZERO], tail, [0], s.base);
    }
  }

  lemma {:induction false} GapIsBlank(n: nat)
    requires n > 0
    ensures Repeat(BLANK, n) != [] && Repeat(BLANK, n)[0] == BLANK
  {}

  lemma {:induction false} SpellsNothing(base: nat)
    requires base > 0
    ensures Spells([], [], base) && Spells([ZERO], [0], base) && Horner([], base, 0) == 0 && Horner([0], base, 0) == 0
  {
    assert [0][1..] == [];
  }

  /** The base is guessed right from a prefix, or from a first decimal digit that is not zero. */
  lemma {:induction false} GuessedRight(num: nat, s: Spec)
    requires SpecOk(s) && num < TWO_TO_THE_64 && Sign(num, s) == [] && !BlankFirst(num, s)
    requires if s.base == 10 then Printed(num, s)[..1] != [ZERO] else s.special
    ensures GuessedBase(Printed(num, s)) == s.base
    ensures Reading(Printed(num, s), GuessedBase(Printed(num, s))) == num
  {
    hide Printed, Pads, Spells, AfterSign, AllDigits, Reading;
    RoundTrip(num, s);
    SignAndRest(num, s);
    assert [] + AfterSign(num, s) == AfterSign(num, s);
    var body, tail := TextSpells(num, s);
    StartsWithDigit(body, AllDigits(num, s), s.base);
    var text := Printed(num, s);
    if s.base == 10 {
      assert text[0] == body[0] && text[..1] == [text[0]];
    } else if s.base == 8 {
      assert text[0] == ZERO && text[1] == body[0];
    } else {
      assert text[0] == ZERO && text[1] == Prefix(s)[1] && text[2] == body[0];
    }
  }

  // ---------- the printed text in full

  /** The sign asked for, in characters. */
  function SignAsked(num: nat, s: Spec): Text {
    if !s.signed then [] else if Signed64(num) < 0 then ['-' as nat] else if s.plus then ['+' as nat] else if s.space then [' ' as nat] else []
  }

  /** The prefix asked for. */
  function PrefixAsked(s: Spec): Text {
    if !s.special || s.base == 10 then []
    else if s.base == 8 then ['0' as nat]
    else ['0' as nat, if s.small then 'x' as nat else 'X' as nat]
  }

  /** The number without its sign. */
  function Absolute(num: nat, s: Spec): int { if s.signed && Signed64(num) < 0 then -Signed64(num) else num }

  /** Digits of a base, in the case asked for, with this value and no zero in front. */
  ghost predicate Shows(digits: Text, s: Spec, value: int) {
    && digits != [] && (|digits| > 1 ==> digits[0] != '0' as nat)
    && (forall i :: 0 <= i < |digits| ==> DigitValue(digits[i]) < s.base && ShownAs(digits[i], s.small))
    && Horner(DigitValues(digits), s.base, 0) == value
  }

  predicate ShownAs(c: nat, small: bool) {
    '0' as nat <= c <= '9' as nat || if small then 'a' as nat <= c <= 'f' as nat else 'A' as nat <= c <= 'F' as nat
  }

  /** The places of blanks and zeros: the field is as wide as asked, or as the number needs. */
  ghost predicate Fills(s: Spec, lead: nat, fixed: nat, zeros: nat, digits: nat, trail: nat) {
    && lead + fixed + zeros + digits + trail == Max(s.width, fixed + Max(digits, s.precision))
    && (s.left || s.zeropad ==> lead == 0) && (!s.left ==> trail == 0)
    && (s.left || !s.zeropad ==> zeros == Max(digits, s.precision) - digits)
  }

  /** As long as the counters stay steady: blanks, sign, prefix, zeros, digits, blanks, each as asked for. */
  lemma {:induction false} PrintedLooks(num: nat, s: Spec) returns (lead: nat, zeros: nat, digits: Text, trail: nat)
    requires SpecOk(s) && num < TWO_TO_THE_64 && Steady(num, s)
    ensures Printed(num, s) == Repeat(' ' as nat, lead) + SignAsked(num, s) + PrefixAsked(s) + Repeat('0' as nat, zeros) + digits + Repeat(' ' as nat, trail)
    ensures Shows(digits, s, Absolute(num, s))
    ensures Fills(s, lead, |SignAsked(num, s)| + |PrefixAsked(s)|, zeros, |digits|, trail)
  {
    hide DigitText, Shows, Repeat, Pads, Steady, Wrapped16, Counted;
    PrintedExactly(num, s);
    digits := DigitText(num, s);
    DigitsShow(num, s);
    var pad, n := Asked(Room(num, s), s.zeropad && !s.left, s.left), Max(|digits|, s.precision) - |digits|;
    lead, trail := pad.lead, pad.trail;
    zeros := if s.zeropad && !s.left then pad.mid + n else n;
    RepeatNone(BLANK);
    RepeatNone(ZERO);
    RepeatSum(ZERO, pad.mid, n);
    LaidOut(Repeat(BLANK, lead), Sign(num, s), Prefix(s), Repeat(FillChar(s), pad.mid), Repeat(ZERO, n), digits, Repeat(BLANK, trail));
  }

  lemma {:induction false} RepeatSum(c: nat, a: nat, b: nat)
    ensures Repeat(c, a) + Repeat(c, b) == Repeat(c, a + b)
  {}

  lemma {:induction false} LaidOut(a: Text, b: Text, c: Text, d: Text, e: Text, f: Text, g: Text)
    ensures a + b + c + d + e + f + g == a + b + c + (d + e) + f + g
    ensures d == [] ==> a + b + c + d + e + f + g == a + b + c + e + f + g
  {}

  lemma {:induction false} DigitsShow(num: nat, s: Spec)
    requires SpecOk(s) && num < TWO_TO_THE_64
    ensures Shows(DigitText(num, s), s, Absolute(num, s))
  {
    hide Digits, Reversed, Horner;
    var ds, small := Digits(Magnitude(num, s), s.base), s.small && s.base != 10;
    var cs, digits := DigitChars(ds, small), DigitText(num, s);
    ValueOfDigits(Magnitude(num, s), s.base);
    ReversedLength(cs);
    ReversedLength(ds);
    forall i | 0 <= i < |digits| ensures DigitValue(digits[i]) == Reversed(ds)[i] < s.base && ShownAs(digits[i], s.small) {
      ReversedAt(cs, i);
      ReversedAt(ds, i);
      CharShown(ds[|ds| - 1 - i], s.base, s.small);
    }
    assert DigitValues(digits) == Reversed(ds);
    HornerReversed(ds, s.base);
    ReversedAt(cs, 0);
    if |ds| > 1 { SingleZero(s.base); }
  }

  lemma {:induction false} CharShown(d: nat, base: nat, small: bool)
    requires d < base && (base == 8 || base == 10 || base == 16)
    ensures var c := DigitChar(d, small && base != 10); DigitValue(c) == d && ShownAs(c, small) && (c == '0' as nat <==> d == 0)
  {}

  lemma {:induction false} SingleZero(base: nat)
    requires base >= 2
    ensures Digits(0, base) == [0]
  {}
}
