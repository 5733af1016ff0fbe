/** The digits of a number, and the decimal conversion that finds them by multiplying and shifting. */
module NumberText {
  import BitTricks

  // ---------- digits

  function Over(num: nat, base: nat): nat
    requires base >= 2
  {
    BitTricks.Quotient(num, base);
    num / base
  }

  function Under(num: nat, base: nat): nat
    requires base >= 2
  {
    BitTricks.Quotient(num, base);
    num % base
  }

  lemma {:induction false} OverUnder(num: nat, base: nat)
    requires base >= 2
    ensures num == base * Over(num, base) + Under(num, base) && Under(num, base) < base
    ensures num > 0 ==> Over(num, base) < num
    ensures num >= base ==> Over(num, base) > 0
  {
    BitTricks.Quotient(num, base);
    BitTricks.ProductOrder(Over(num, base), 2, base);
  }

  /** The digits of a number, least significant first, with no zero at the top. */
  function Digits(num: nat, base: nat): seq<nat>
    requires base >= 2
    decreases num
  {
    OverUnder(num, base);
    if num < base then [num] else [Under(num, base)] + Digits(Over(num, base), base)
  }

  /** Exactly `n` digits, with zeros at the top. */
  function LowDigits(num: nat, base: nat, n: nat): seq<nat>
    requires base >= 2
  {
    if n == 0 then [] else [Under(num, base)] + LowDigits(Over(num, base), base, n - 1)
  }

  function Value(ds: seq<nat>, base: nat): nat {
    if ds == [] then 0 else ds[0] + base * Value(ds[1..], base)
  }

  lemma {:induction false} ValueOfDigits(num: nat, base: nat)
    requires base >= 2
    ensures Value(Digits(num, base), base) == num
    ensures forall i :: 0 <= i < |Digits(num, base)| ==> Digits(num, base)[i] < base
    ensures var ds := Digits(num, base); ds != [] && (num > 0 ==> ds[|ds| - 1] != 0)
  {
    hide Over, Under;
    OverUnder(num, base);
    if num >= base {
      ValueOfDigits(Over(num, base), base);
      assert Digits(num, base)[1..] == Digits(Over(num, base), base);
    } else {
      assert Value([num], base) == num + base * Value([num][1..], base);
      assert base * 0 == 0;
    }
  }

  /** Five low digits and the digits of the rest are the digits of the whole. */
  lemma {:induction false} DigitsSplit(num: nat)
    requires num >= 100000
    ensures Digits(num, 10) == LowDigits(num % 100000, 10, 5) + Digits(num / 100000, 10)
  {
    var r := num % 100000;
    FiveDigits(r);
    ManyDigits(num);
    SameResidues(num, r);
    hide Digits, LowDigits;
  }

  lemma {:induction false} SameResidues(num: nat, r: nat)
    requires r == num % 100000
    ensures r % 10 == num % 10 && r / 10 % 10 == num / 10 % 10 && r / 100 % 10 == num / 100 % 10
    ensures r / 1000 % 10 == num / 1000 % 10 && r / 10000 % 10 == num / 10000 % 10
  {
    var q := num / 100000;
    Carry(num, r, 10000 * q);
    Carry(num / 10, r / 10, 1000 * q);
    Carry(num / 100, r / 100, 100 * q);
    Carry(num / 1000, r / 1000, 10 * q);
    Carry(num / 10000, r / 10000, q);
    assert num / 10 / 10 == num / 100 && num / 100 / 10 == num / 1000 && num / 1000 / 10 == num / 10000;
    assert r / 10 / 10 == r / 100 && r / 100 / 10 == r / 1000 && r / 1000 / 10 == r / 10000;
  }

  lemma {:induction false} OneDigit(num: nat)
    requires num >= 10
    ensures Digits(num, 10) == [num % 10] + Digits(num / 10, 10)
  {}

  lemma {:induction false} ManyDigits(num: nat)
    requires num >= 100000
    ensures Digits(num, 10) == [num % 10, num / 10 % 10, num / 100 % 10, num / 1000 % 10, num / 10000 % 10] + Digits(num / 100000, 10)
  {
    hide Digits;
    OneDigit(num);
    OneDigit(num / 10);
    OneDigit(num / 100);
    OneDigit(num / 1000);
    OneDigit(num / 10000);
    assert num / 10 / 10 == num / 100 && num / 100 / 10 == num / 1000 && num / 1000 / 10 == num / 10000 && num / 10000 / 10 == num / 100000;
  }

  lemma {:induction false} FiveDigits(r: nat)
    ensures LowDigits(r, 10, 5) == [r % 10, r / 10 % 10, r / 100 % 10, r / 1000 % 10, r / 10000 % 10]
  {
    hide LowDigits;
    OneLow(r, 5);
    OneLow(r / 10, 4);
    OneLow(r / 100, 3);
    OneLow(r / 1000, 2);
    OneLow(r / 10000, 1);
    NoneLow(r / 100000);
    assert r / 10 / 10 == r / 100 && r / 100 / 10 == r / 1000 && r / 1000 / 10 == r / 10000 && r / 10000 / 10 == r / 100000;
  }

  lemma {:induction false} OneLow(r: nat, n: nat)
    requires n > 0
    ensures LowDigits(r, 10, n) == [r % 10] + LowDigits(r / 10, 10, n - 1)
  {}

  lemma {:induction false} NoneLow(r: nat)
    ensures LowDigits(r, 10, 0) == []
  {}

  /** (x * 0xcd) >> 11 */
  function MulShift11(x: int): int { x * 0xcd / 0x800 }

  /** (x * 0xd) >> 7 */
  function MulShift7(x: int): int { x * 0xd / 0x80 }

  /** Multiply and shift divides by ten, in the range where it is used. */
  lemma {:induction false} Tenth(x: nat)
    ensures x < 1000 ==> MulShift11(x) == x / 10
    ensures x <= 68 ==> MulShift7(x) == x / 10
  {
    var q, r := x / 10, x % 10;
    if x < 1000 { BitTricks.UniqueQuotient(x * 0xcd, 0x800, q, 2 * q + 0xcd * r); }
    if x <= 68 { BitTricks.UniqueQuotient(x * 0xd, 0x80, q, 2 * q + 0xd * r); }
  }

  lemma {:induction false} Nibbles(q: nat)
    ensures q == q / 4096 * 4096 + q / 256 % 16 * 256 + q / 16 % 16 * 16 + q % 16
  {
    var a := q / 16;
    var b := a / 16;
    assert b == q / 256 && b / 16 == q / 4096;
  }

  lemma {:induction false} CarryChain(q: int, n0: int, n1: int, n2: int, n3: int, s0: int, s1: int, s2: int, s3: int)
    requires 0 <= q < 100000 && 0 <= n0 && 0 <= n1 && 0 <= n2 && 0 <= n3 && q == n3 * 4096 + n2 * 256 + n1 * 16 + n0 && n0 < 16 && n1 < 16 && n2 < 16
    requires s0 == 6 * (n3 + n2 + n1) + n0 && s1 == s0 / 10 + 9 * n3 + 5 * n2 + n1 && s2 == s1 / 10 + 2 * n2 && s3 == s2 / 10 + 4 * n3
    ensures s0 < 1000 && s1 < 1000 && s2 <= 68 && s3 < 1000
    ensures s0 % 10 == q % 10 && s1 % 10 == q / 10 % 10 && s2 % 10 == q / 100 % 10 && s3 % 10 == q / 1000 % 10 && s3 / 10 == q / 10000
    ensures (s1 == 0 <==> q < 10) && (s2 == 0 && n3 == 0 <==> q < 100) && (s3 == 0 <==> q < 1000)
  {
    Carry(q, s0, 409 * n3 + 25 * n2 + n1);
    Carry(q / 10, s1, 40 * n3 + 2 * n2);
    Carry(q / 100, s2, 4 * n3);
    assert q / 10 / 10 == q / 100 && q / 100 / 10 == q / 1000 && q / 1000 / 10 == q / 10000;
    assert n3 <= 24;
  }

  lemma {:induction false} Carry(t: int, s: int, m: int)
    requires t == s + 10 * m
    ensures t / 10 == s / 10 + m && t % 10 == s % 10
  {}

  // ---------- decimal conversion

  /** The character code of a digit: '0' to '9', then 'A' or 'a' on. */
  function DigitChar(d: nat, small: bool): nat { if d < 10 then 0x30 + d else 0x37 + d + (if small then 0x20 else 0) }

  function DigitChars(ds: seq<nat>, small: bool): seq<nat> { seq(|ds|, i requires 0 <= i < |ds| => DigitChar(ds[i], small)) }

  /** The digits of a number below 100000, one by one. */
  lemma {:induction false} TruncDigits(q: nat)
    requires q < 100000
    ensures Digits(q, 10) ==
      if q < 10 then [q]
      else if q < 100 then [q % 10, q / 10]
      else if q < 1000 then [q % 10, q / 10 % 10, q / 100]
      else if q < 10000 then [q % 10, q / 10 % 10, q / 100 % 10, q / 1000]
      else [q % 10, q / 10 % 10, q / 100 % 10, q / 1000 % 10, q / 10000]
  {
    hide Digits;
    assert q / 10 / 10 == q / 100 && q / 100 / 10 == q / 1000 && q / 1000 / 10 == q / 10000;
    if q >= 10 { OneDigit(q); } else { LastDigit(q); }
    if q >= 100 { OneDigit(q / 10); } else if q >= 10 { LastDigit(q / 10); }
    if q >= 1000 { OneDigit(q / 100); } else if q >= 100 { LastDigit(q / 100); }
    if q >= 10000 { OneDigit(q / 1000); LastDigit(q / 10000); } else if q >= 1000 { LastDigit(q / 1000); }
  }

  lemma {:induction false} LastDigit(q: nat)
    requires q < 10
    ensures Digits(q, 10) == [q]
  {}

  /** Decimal digit `k` of a number below 100000. */
  function Dec(q: int, k: nat): int {
    if k == 0 then q % 10 else if k == 1 then q / 10 % 10 else if k == 2 then q / 100 % 10 else if k == 3 then q / 1000 % 10 else q / 10000
  }

  /** The hexadecimal digit of a number at a bit position. */
  function Nibble(q: int, k: nat): int {
    if k == 0 then q % 16 else if k == 1 then q / 16 % 16 else if k == 2 then q / 256 % 16 else q / 4096
  }

  /** What each multiply-and-shift step of the conversion leaves. */
  ghost predicate Steps(q: int, n1: int, n2: int, n3: int, s0: int, q0: int, s1: int, q1: int, s2: int, q2: int, s3: int, q3: int) {
    && s0 - 10 * q0 == Dec(q, 0) && s1 - 10 * q1 == Dec(q, 1) && s2 - 10 * q2 == Dec(q, 2) && s3 - 10 * q3 == Dec(q, 3) && q3 == Dec(q, 4)
    && Dec(q, 0) >= 0 && Dec(q, 1) >= 0 && Dec(q, 2) >= 0 && Dec(q, 3) >= 0 && Dec(q, 4) >= 0 && (Dec(q, 4) == 0 <==> q < 10000)
    && (s1 == 0 <==> q < 10) && (s2 == 0 && n3 == 0 <==> q < 100) && (s3 == 0 <==> q < 1000)
  }

  lemma {:induction false} StepsRight(q: nat, n1: int, n2: int, n3: int, s0: int, q0: int, s1: int, q1: int, s2: int, q2: int, s3: int, q3: int)
    requires q < 100000 && n1 == Nibble(q, 1) && n2 == Nibble(q, 2) && n3 == Nibble(q, 3)
    requires s0 == 6 * (n3 + n2 + n1) + Nibble(q, 0) && q0 == MulShift11(s0)
    requires s1 == q0 + 9 * n3 + 5 * n2 + n1 && q1 == MulShift11(s1)
    requires s2 == q1 + 2 * n2 && q2 == MulShift7(s2)
    requires s3 == q2 + 4 * n3 && q3 == MulShift11(s3)
    ensures Steps(q, n1, n2, n3, s0, q0, s1, q1, s2, q2, s3, q3)
  {
    hide MulShift11, MulShift7, Nibble, Dec;
    NibblesOf(q);
    Tenth(s0);
    Tenth(s1);
    Tenth(s2);
    Tenth(s3);
    CarryChain(q, Nibble(q, 0), n1, n2, n3, s0, s1, s2, s3);
    DecParts(q);
    LastPlace(s0);
    LastPlace(s1);
    LastPlace(s2);
    LastPlace(s3);
  }

  lemma {:induction false} NibblesOf(q: nat)
    requires q < 100000
    ensures q == Nibble(q, 3) * 4096 + Nibble(q, 2) * 256 + Nibble(q, 1) * 16 + Nibble(q, 0)
    ensures 0 <= Nibble(q, 3) <= 24 && 0 <= Nibble(q, 2) < 16 && 0 <= Nibble(q, 1) < 16 && 0 <= Nibble(q, 0) < 16
  {
    Nibbles(q);
    NibbleBounds(q);
  }

  lemma {:induction false} DecParts(q: nat)
    ensures Dec(q, 0) == q % 10 && Dec(q, 1) == q / 10 % 10 && Dec(q, 2) == q / 100 % 10 && Dec(q, 3) == q / 1000 % 10 && Dec(q, 4) == q / 10000
    ensures Dec(q, 4) == 0 <==> q < 10000
  {}

  lemma {:induction false} LastPlace(s: int)
    ensures s - 10 * (s / 10) == s % 10 && 0 <= s % 10
  {}

  lemma {:induction false} NibbleBounds(q: nat)
    requires q < 100000
    ensures q / 4096 <= 24
  {}

  /** put_dec_trunc: the digits of a number below 100000, as characters. */
  method PutDecTrunc(num: nat) returns (buf: seq<nat>)
    requires num < 100000
    ensures buf == DigitChars(Digits(num, 10), false)
  {
    hide Digits, MulShift11, MulShift7, DigitChars, Dec, Nibble;
    TruncChars(num);
    var n1, n2, n3 := Nibble(num, 1), Nibble(num, 2), Nibble(num, 3);
    var s0 := 6 * (n3 + n2 + n1) + Nibble(num, 0);
    var q0 := MulShift11(s0);
    var s1 := q0 + 9 * n3 + 5 * n2 + n1;
    var q1 := MulShift11(s1);
    var s2 := q1 + 2 * n2;
    var q2 := MulShift7(s2);
    var s3 := q2 + 4 * n3;
    var q3 := MulShift11(s3);
    StepsRight(num, n1, n2, n3, s0, q0, s1, q1, s2, q2, s3, q3);
    buf := [s0 - 10 * q0 + 0x30];
    if s1 != 0 {
      buf := buf + [s1 - 10 * q1 + 0x30];
      if s2 != 0 || n3 != 0 {
        buf := buf + [s2 - 10 * q2 + 0x30];
        if s3 != 0 {
          buf := buf + [s3 - 10 * q3 + 0x30];
          if q3 != 0 {
            buf := buf + [q3 + 0x30];
          }
        }
      }
    }
  }

  lemma {:induction false} CharsOfFive(a: nat, b: nat, c: nat, d: nat, e: nat)
    requires a < 10 && b < 10 && c < 10 && d < 10 && e < 10
    ensures DigitChars([a], false) == [a + 0x30] && DigitChars([a, b], false) == [a + 0x30, b + 0x30]
    ensures DigitChars([a, b, c], false) == [a + 0x30, b + 0x30, c + 0x30]
    ensures DigitChars([a, b, c, d], false) == [a + 0x30, b + 0x30, c + 0x30, d + 0x30]
    ensures DigitChars([a, b, c, d, e], false) == [a + 0x30, b + 0x30, c + 0x30, d + 0x30, e + 0x30]
  {}

  /** Below 10, 100 and so on the upper digits are what is left. */
  lemma {:induction false} TopDigits(q: nat)
    requires q < 100000
    ensures q < 10 ==> q % 10 == q
    ensures q < 100 ==> q / 10 % 10 == q / 10
    ensures q < 1000 ==> q / 100 % 10 == q / 100
    ensures q < 10000 ==> q / 1000 % 10 == q / 1000 && q / 10000 == 0
    ensures q / 10000 < 10 && (q >= 10000 ==> q / 10000 > 0)
  {}

  lemma {:induction false} FullChars(q: nat)
    requires q < 100000
    ensures DigitChars(LowDigits(q, 10, 5), false) ==
      [Dec(q, 0) + 0x30, Dec(q, 1) + 0x30, Dec(q, 2) + 0x30, Dec(q, 3) + 0x30, Dec(q, 4) + 0x30]
  {
    hide LowDigits, DigitChars;
    FiveDigits(q);
    TopDigits(q);
    CharsOfFive(q % 10, q / 10 % 10, q / 100 % 10, q / 1000 % 10, q / 10000 % 10);
    assert q / 10000 % 10 == q / 10000;
  }

  lemma {:induction false} TruncChars(q: nat)
    requires q < 100000
    ensures DigitChars(Digits(q, 10), false) ==
      if q < 10 then [Dec(q, 0) + 0x30]
      else if q < 100 then [Dec(q, 0) + 0x30, Dec(q, 1) + 0x30]
      else if q < 1000 then [Dec(q, 0) + 0x30, Dec(q, 1) + 0x30, Dec(q, 2) + 0x30]
      else if q < 10000 then [Dec(q, 0) + 0x30, Dec(q, 1) + 0x30, Dec(q, 2) + 0x30, Dec(q, 3) + 0x30]
      else [Dec(q, 0) + 0x30, Dec(q, 1) + 0x30, Dec(q, 2) + 0x30, Dec(q, 3) + 0x30, Dec(q, 4) + 0x30]
  {
    hide Digits, DigitChars;
    TruncDigits(q);
    TopDigits(q);
    CharsOfFive(q % 10, q / 10 % 10, q / 100 % 10, q / 1000 % 10, q / 10000);
  }

  /** put_dec_full: always five digits. */
  method PutDecFull(num: nat) returns (buf: seq<nat>)
    requires num < 100000
    ensures buf == DigitChars(LowDigits(num, 10, 5), false)
  {
    hide LowDigits, MulShift11, MulShift7, DigitChars, Dec, Nibble;
    FullChars(num);
    var n1, n2, n3 := Nibble(num, 1), Nibble(num, 2), Nibble(num, 3);
    var s0 := 6 * (n3 + n2 + n1) + Nibble(num, 0);
    var q0 := MulShift11(s0);
    var s1 := q0 + 9 * n3 + 5 * n2 + n1;
    var q1 := MulShift11(s1);
    var s2 := q1 + 2 * n2;
    var q2 := MulShift7(s2);
    var s3 := q2 + 4 * n3;
    var q3 := MulShift11(s3);
    StepsRight(num, n1, n2, n3, s0, q0, s1, q1, s2, q2, s3, q3);
    buf := [s0 - 10 * q0 + 0x30, s1 - 10 * q1 + 0x30, s2 - 10 * q2 + 0x30, s3 - 10 * q3 + 0x30, q3 + 0x30];
  }

  /** put_dec: the decimal digits of any number. */
  method PutDec(num0: nat) returns (buf: seq<nat>)
    ensures buf == DigitChars(Digits(num0, 10), false)
  {
    hide Digits, LowDigits, DigitChars;
    buf := [];
    var num := num0;
    Joined([], Digits(num0, 10), false);
    while num >= 100000
      invariant num >= 0 && buf + DigitChars(Digits(num, 10), false) == DigitChars(Digits(num0, 10), false)
    {
      var rem := num % 100000;
      DigitsSplit(num);
      Joined(LowDigits(rem, 10, 5), Digits(num / 100000, 10), false);
      num := num / 100000;
      var five := PutDecFull(rem);
      buf := buf + five;
    }
    var rest := PutDecTrunc(num);
    buf := buf + rest;
  }

  lemma {:induction false} Joined(a: seq<nat>, b: seq<nat>, small: bool)
    ensures DigitChars(a + b, small) == DigitChars(a, small) + DigitChars(b, small)
    ensures DigitChars([], small) == []
  {}
}
