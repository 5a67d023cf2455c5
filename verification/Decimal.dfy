/** Decimal text of integers, as strconv writes and reads it. */
module Decimal {
  import opened Wrappers

  const MIN_INT64: int := -0x8000_0000_0000_0000
  const MAX_INT64: int := 0x7FFF_FFFF_FFFF_FFFF

  predicate IsInt64(n: int) { MIN_INT64 <= n <= MAX_INT64 }

  predicate IsDigit(c: char) { '0' <= c <= '9' }

  predicate AllDigits(s: string) { forall i :: 0 <= i < |s| ==> IsDigit(s[i]) }

  function DigitOf(c: char): nat
    requires IsDigit(c)
  {
    c as int - '0' as int
  }

  function CharOf(d: nat): (c: char)
    requires d < 10
    ensures IsDigit(c) && DigitOf(c) == d
  {
    ('0' as int + d) as char
  }

  /** The number a digit string denotes; the empty string denotes 0. */
  function Value(s: string): nat
    requires AllDigits(s)
  {
    if |s| == 0 then 0 else 10 * Value(s[..|s| - 1]) + DigitOf(s[|s| - 1])
  }

  /** Decimal digits without leading zeros. */
  function Digits(n: nat): (s: string)
    ensures |s| > 0 && AllDigits(s)
  {
    if n < 10 then [CharOf(n)] else Digits(n / 10) + [CharOf(n % 10)]
  }

  function Itoa(n: int): (s: string)
    ensures |s| > 0
  {
    if n < 0 then "-" + Digits(-n) else Digits(n)
  }

  /** ParseInt with base 10 and 64 bits, and Atoi on a 64-bit machine: an optional sign, at least
      one digit, nothing else, and the value in range. */
  function ParseInt64(s: string): Option<int> {
    if s == "" then None
    else if s[0] == '-' then Ranged(s[1..], true)
    else if s[0] == '+' then Ranged(s[1..], false)
    else Ranged(s, false)
  }

  function Ranged(digits: string, negative: bool): Option<int> {
    if digits == "" || !AllDigits(digits) then None
    else
      var v: int := Value(digits);
      var n := if negative then -v else v;
      if IsInt64(n) then Some(n) else None
  }

  lemma ParseSigned(digits: string)
    requires digits != "" && AllDigits(digits)
    ensures ParseInt64(digits) == Ranged(digits, false)
    ensures ParseInt64("-" + digits) == Ranged(digits, true)
    ensures ParseInt64("+" + digits) == Ranged(digits, false)
  {
    assert IsDigit(digits[0]);
    assert ("-" + digits)[1..] == digits;
    assert ("+" + digits)[1..] == digits;
  }

  lemma {:induction false} ValueOfDigits(n: nat)
    ensures Value(Digits(n)) == n
  {
    if n >= 10 {
      ValueOfDigits(n / 10);
      assert Digits(n)[..|Digits(n)| - 1] == Digits(n / 10);
    }
  }

  /** Reading back what was written. */
  lemma ParseItoa(n: int)
    requires IsInt64(n)
    ensures ParseInt64(Itoa(n)) == Some(n)
  {
    if n < 0 {
      ValueOfDigits(-n);
      assert Itoa(n)[1..] == Digits(-n);
    } else {
      ValueOfDigits(n);
    }
  }

  function Pow10(k: nat): (p: nat)
    ensures p >= 1
  {
    if k == 0 then 1 else 10 * Pow10(k - 1)
  }

  /** A number has at most k digits exactly when it is below 10 to the k. */
  lemma {:induction false} DigitCount(n: nat, k: nat)
    requires k > 0
    ensures |Digits(n)| <= k <==> n < Pow10(k)
  {
    if n >= 10 {
      if k > 1 {
        DigitCount(n / 10, k - 1);
      } else {
        assert Pow10(1) == 10;
      }
    } else {
      assert Pow10(k) == 10 * Pow10(k - 1);
    }
  }

  lemma DigitsMonotone(m: nat, n: nat)
    requires m <= n
    ensures |Digits(m)| <= |Digits(n)|
  {
    DigitCount(n, |Digits(n)|);
    DigitCount(m, |Digits(n)|);
  }

  /** Digits followed by digits: the first part is shifted. */
  lemma {:induction false} ValueAppend(a: string, b: string)
    requires AllDigits(a) && AllDigits(b)
    ensures AllDigits(a + b)
    ensures Value(a + b) == Value(a) * Pow10(|b|) + Value(b)
  {
    if |b| == 0 {
      assert a + b == a;
    } else {
      var front := b[..|b| - 1];
      assert (a + b)[..|a + b| - 1] == a + front;
      ValueAppend(a, front);
      assert Value(a + b) == 10 * Value(a + front) + DigitOf(b[|b| - 1]);
      TenTimes(Value(a), Pow10(|front|));
    }
  }

  predicate AllZeros(s: string) { forall i :: 0 <= i < |s| ==> s[i] == '0' }

  /** s is the text of n with a sign, if any, and any number of zeros in front of the digits. */
  predicate Spells(s: string, n: int, sign: string, zeros: string) {
    && s == sign + zeros + Digits(if n < 0 then -n else n)
    && AllZeros(zeros)
    && (if sign == "-" then n <= 0 else sign in {"", "+"} && n >= 0)
  }

  /** A digit string is the text of its value, with zeros in front. */
  lemma {:induction false} DigitsOfValue(s: string) returns (zeros: string)
    requires s != "" && AllDigits(s)
    ensures AllZeros(zeros) && s == zeros + Digits(Value(s))
  {
    var front, last := s[..|s| - 1], s[|s| - 1];
    assert s == front + [last];
    if front == "" {
      assert Value(front) == 0;
      zeros := "";
    } else {
      zeros := DigitsOfValue(front);
      if Value(front) == 0 {
        zeros := zeros + "0";
        assert Digits(0) == "0";
        assert s == zeros + [last];
      } else {
        assert Digits(Value(s)) == Digits(Value(front)) + [last];
      }
    }
  }

  lemma {:induction false} LeadingZeros(zeros: string, s: string)
    requires AllZeros(zeros) && AllDigits(s)
    ensures AllDigits(zeros + s) && Value(zeros + s) == Value(s)
  {
    ValueAppend(zeros, s);
    ValueOfZeros(zeros);
  }

  lemma {:induction false} ValueOfZeros(zeros: string)
    requires AllZeros(zeros)
    ensures Value(zeros) == 0
  {
    if zeros != "" {
      ValueOfZeros(zeros[..|zeros| - 1]);
    }
  }

  lemma ParsedIsSpelled(s: string)
    requires ParseInt64(s).Some?
    ensures var n := ParseInt64(s).value;
            IsInt64(n) && exists sign, zeros :: Spells(s, n, sign, zeros)
  {
    hide Digits, Value;
    var sign := if s[0] == '-' then "-" else if s[0] == '+' then "+" else "";
    var digits := s[|sign|..];
    var zeros := DigitsOfValue(digits);
    assert s == sign + digits;
    assert Spells(s, ParseInt64(s).value, sign, zeros);
  }

  lemma SpelledIsParsed(s: string, n: int, sign: string, zeros: string)
    requires IsInt64(n) && Spells(s, n, sign, zeros)
    ensures ParseInt64(s) == Some(n)
  {
    hide Digits, Value, ParseInt64;
    var size: nat := if n < 0 then -n else n;
    var digits := zeros + Digits(size);
    LeadingZeros(zeros, Digits(size));
    ValueOfDigits(size);
    ParseSigned(digits);
    assert Value(digits) == size && digits != "";
    if sign == "" {
      assert s == digits;
    } else {
      assert s == sign + digits;
    }
  }

  /** What the parser accepts, exactly: the texts of the 64-bit numbers, with a sign and zeros in
      front if need be. */
  lemma ParsesExactly(s: string, n: int)
    ensures ParseInt64(s) == Some(n) <==> IsInt64(n) && exists sign, zeros :: Spells(s, n, sign, zeros)
  {
    hide ParseInt64, Spells;
    if ParseInt64(s) == Some(n) {
      ParsedIsSpelled(s);
    }
    if sign, zeros :| IsInt64(n) && Spells(s, n, sign, zeros) {
      SpelledIsParsed(s, n, sign, zeros);
    }
  }

  lemma TenTimes(v: nat, p: nat)
    ensures v * (10 * p) == 10 * (v * p)
  {
  }

  lemma Int64Width()
    ensures MAX_INT64 == 9_223_372_036_854_775_807 == -MIN_INT64 - 1
    ensures Pow10(18) <= MAX_INT64 < -MIN_INT64 < Pow10(19)
  {
    assert Pow10(9) == 1_000_000_000;
    assert Pow10(18) == 1_000_000_000 * Pow10(9);
  }

  /** The text of an int64 has at most 20 characters, and the smallest one has 20. */
  lemma Int64Text(n: int)
    requires IsInt64(n)
    ensures |Itoa(n)| <= 20
    ensures n >= 0 ==> |Itoa(n)| <= 19
    ensures |Itoa(MIN_INT64)| == 20
  {
    Int64Width();
    DigitCount(if n < 0 then -n else n, 19);
    DigitCount(-MIN_INT64, 19);
    DigitCount(-MIN_INT64, 18);
  }
}
