/**
 Decimal printing and the two checked number readers of the string library.
 */
module Numbers {

  const LONG_LIMIT: int := 0x8000_0000_0000_0000
  const INT_LIMIT: int := 0x8000_0000
  const UINT_RANGE: int := 0x1_0000_0000
  const ULONG_RANGE: nat := 0x1_0000_0000_0000_0000

  predicate IsDigit(c: char) {
    '0' <= c <= '9'
  }

  predicate AllDigits(s: string) {
    forall i | 0 <= i < |s| :: IsDigit(s[i])
  }

  function DigitChar(d: nat): (c: char)
    requires d < 10
    ensures IsDigit(c) && DigitValue(c) == d && c == "0123456789"[d]
  {
    '0' + d as char
  }

  function DigitValue(c: char): (d: nat)
    requires IsDigit(c)
    ensures d < 10
  {
    (c - '0') as nat
  }

  /** printf("%zu") / printf("%ld") of a non-negative number. */
  function PrintNat(n: nat): (s: string)
    ensures s != "" && AllDigits(s)
  {
    if n < 10 then [DigitChar(n)] else PrintNat(n / 10) + [DigitChar(n % 10)]
  }

  /** The value of a run of digits. */
  function DecimalValue(s: string): nat
    requires AllDigits(s)
  {
    if s == "" then 0
    else 10 * DecimalValue(s[..|s| - 1]) + DigitValue(s[|s| - 1])
  }

  lemma {:induction false} PrintNatValue(n: nat)
    ensures DecimalValue(PrintNat(n)) == n
  {
    var s := PrintNat(n);
    if n < 10 {
      assert s[..|s| - 1] == "";
    } else {
      PrintNatValue(n / 10);
      assert s[..|s| - 1] == PrintNat(n / 10);
    }
  }

  /** A machine word prints in at most twenty digits. */
  lemma {:induction false} PrintNatLength(n: nat, k: nat)
    requires n < Pow10(k) && 1 <= k
    ensures |PrintNat(n)| <= k
  {
    if n >= 10 {
      assert k >= 2;
      PrintNatLength(n / 10, k - 1);
    }
  }

  function Pow10(k: nat): (p: nat)
    ensures p >= 1
  {
    if k == 0 then 1 else 10 * Pow10(k - 1)
  }

  lemma {:induction false} Pow10Grows(j: nat, k: nat)
    requires j <= k
    ensures Pow10(j) <= Pow10(k)
    decreases k
  {
    if j < k {
      Pow10Grows(j, k - 1);
    }
  }

  lemma {:induction false} PrintNatLonger(n: nat, k: nat)
    requires Pow10(k) <= n
    ensures k < |PrintNat(n)|
  {
    if k > 0 {
      assert n >= 10;
      PrintNatLonger(n / 10, k - 1);
    }
  }

  /** The first digit and the length of a printed number say between which bounds it lies. */
  lemma {:induction false} PrintNatBounds(n: nat)
    ensures var d, p := DigitValue(PrintNat(n)[0]), Pow10(|PrintNat(n)| - 1); d * p <= n < d * p + p
    ensures n > 0 ==> PrintNat(n)[0] != '0'
  {
    if n >= 10 {
      PrintNatBounds(n / 10);
      var s := PrintNat(n / 10);
      var d, p := DigitValue(s[0]), Pow10(|s| - 1);
      assert PrintNat(n)[0] == s[0] && Pow10(|s|) == 10 * p;
      TenTimes(n, d, p);
    }
  }

  lemma TenTimes(n: nat, d: nat, p: nat)
    requires d * p <= n / 10 < d * p + p
    ensures d * (10 * p) <= n < d * (10 * p) + 10 * p
  {
    assert d * (10 * p) == 10 * (d * p);
    assert n == 10 * (n / 10) + n % 10;
  }

  predicate IsSpace(c: char) {
    c == ' ' || c == '\t' || c == '\n' || c == '\r' || c == '\U{0B}' || c == '\U{0C}'
  }

  function SkipSpace(s: string): (t: string)
    ensures t == "" || !IsSpace(t[0])
    ensures s != "" && !IsSpace(s[0]) ==> t == s
  {
    if s == "" || !IsSpace(s[0]) then s else SkipSpace(s[1..])
  }

  /** The longest run of digits at the start of `s`. */
  function DigitRun(s: string): (t: string)
    ensures AllDigits(t) && t <= s
    ensures |t| < |s| ==> !IsDigit(s[|t|])
  {
    if s == "" || !IsDigit(s[0]) then "" else [s[0]] + DigitRun(s[1..])
  }

  lemma {:induction false} DigitRunOfDigits(s: string)
    requires AllDigits(s)
    ensures DigitRun(s) == s
  {
    assert |DigitRun(s)| == |s|;
  }

  /** xatol: strtol in base ten, with 0 for a missing or out-of-range number. */
  function Atol(s: string): (v: int)
    ensures -LONG_LIMIT <= v < LONG_LIMIT
  {
    var t := SkipSpace(s);
    var negative := t != "" && t[0] == '-';
    var u := if t != "" && (t[0] == '-' || t[0] == '+') then t[1..] else t;
    var magnitude: int := DecimalValue(DigitRun(u));
    var v := if negative then -magnitude else magnitude;
    if -LONG_LIMIT <= v < LONG_LIMIT then v else 0
  }

  /** Reduction of a long to a 32-bit int. */
  function ToInt32(v: int): (r: int)
    ensures -INT_LIMIT <= r < INT_LIMIT
    ensures -INT_LIMIT <= v < INT_LIMIT ==> r == v
  {
    (v + INT_LIMIT) % UINT_RANGE - INT_LIMIT
  }

  /** xatoi: 0 unless every character is a digit, then strtol cut down to an int. */
  function Atoi(s: string): (r: int)
    ensures -INT_LIMIT <= r < INT_LIMIT
  {
    if AllDigits(s) then ToInt32(Atol(s)) else 0
  }

  /** Reading back a printed number. */
  lemma AtolOfPrintNat(n: nat)
    requires n < LONG_LIMIT
    ensures Atol(PrintNat(n)) == n
  {
    var s := PrintNat(n);
    assert IsDigit(s[0]) && !IsSpace(s[0]);
    assert SkipSpace(s) == s;
    DigitRunOfDigits(s);
    PrintNatValue(n);
  }

  /** strtol skips white space before the number ... */
  lemma AtolSkipsSpace(c: char, s: string)
    requires c in {' ', '\t', '\n', '\r', '\U{0B}', '\U{0C}'}
    ensures Atol([c] + s) == Atol(s)
  {
    assert ([c] + s)[1..] == s;
    assert SkipSpace([c] + s) == SkipSpace(s);
  }

  /** ... and stops behind its last digit. */
  lemma AtolStops(n: nat, rest: string)
    requires n < LONG_LIMIT && (rest == "" || !('0' <= rest[0] <= '9'))
    ensures Atol(PrintNat(n) + rest) == n
  {
    PrintNatValue(n);
    AtolOfRun(PrintNat(n), rest);
  }

  lemma AtolOfRun(digits: string, rest: string)
    requires digits != "" && AllDigits(digits) && DecimalValue(digits) < LONG_LIMIT
    requires rest == "" || !('0' <= rest[0] <= '9')
    ensures Atol(digits + rest) == DecimalValue(digits)
  {
    var s := digits + rest;
    assert s[0] == digits[0] && IsDigit(s[0]);
    assert SkipSpace(s) == s;
    DigitRunStops(digits, rest);
  }

  lemma {:induction false} DigitRunStops(digits: string, rest: string)
    requires AllDigits(digits) && (rest == "" || !('0' <= rest[0] <= '9'))
    ensures DigitRun(digits + rest) == digits
  {
    if digits == "" {
      assert digits + rest == rest;
    } else {
      assert (digits + rest)[1..] == digits[1..] + rest;
      DigitRunStops(digits[1..], rest);
    }
  }

  /** Numbers out of the range of a long count as 0. */
  lemma AtolOverflows(n: nat)
    requires n >= 0x8000_0000_0000_0000
    ensures Atol(PrintNat(n)) == 0
  {
    PrintNatValue(n);
    RunOutOfRange(PrintNat(n));
  }

  lemma RunOutOfRange(digits: string)
    requires digits != "" && AllDigits(digits) && DecimalValue(digits) >= LONG_LIMIT
    ensures Atol(digits) == 0
  {
    assert IsDigit(digits[0]);
    assert SkipSpace(digits) == digits;
    DigitRunOfDigits(digits);
  }

  /** A sign in front, or any other character, makes atoi give 0. */
  lemma AtoiRefuses(s: string, i: nat)
    requires i < |s| && !('0' <= s[i] <= '9')
    ensures Atoi(s) == 0
  {
  }

  /** printf("%ld") */
  function PrintInt(v: int): (s: string)
    ensures s != "" && (IsDigit(s[0]) || s[0] == '-')
  {
    if v < 0 then "-" + PrintNat(-v) else PrintNat(v)
  }

  lemma AtolOfMinus(d: string)
    requires d != "" && AllDigits(d) && DecimalValue(d) <= LONG_LIMIT
    ensures Atol("-" + d) == 0 - DecimalValue(d)
  {
    var s := "-" + d;
    assert SkipSpace(s) == s && s[1..] == d;
    DigitRunOfDigits(d);
  }

  lemma AtolOfPrintInt(v: int)
    requires -LONG_LIMIT <= v < LONG_LIMIT
    ensures Atol(PrintInt(v)) == v
  {
    if v < 0 {
      PrintNatValue(-v);
      AtolOfMinus(PrintNat(-v));
    } else {
      AtolOfPrintNat(v);
    }
  }

  lemma AtoiOfPrintNat(n: nat)
    requires n < LONG_LIMIT
    ensures Atoi(PrintNat(n)) == ToInt32(n)
  {
    AtolOfPrintNat(n);
  }

  /** The reduction changes a number by a multiple of 2^32. */
  lemma ToInt32Wraps(v: int)
    ensures exists q :: v == ToInt32(v) + UINT_RANGE * q
  {
    var q := (v + INT_LIMIT) / UINT_RANGE;
    assert v == ToInt32(v) + UINT_RANGE * q;
  }

  lemma ToInt32MinusOne(v: nat)
    ensures ToInt32(v) == -1 <==> v % UINT_RANGE == UINT_RANGE - 1
  {
    var q, r := v / UINT_RANGE, v % UINT_RANGE;
    assert v + INT_LIMIT == UINT_RANGE * q + (r + INT_LIMIT);
    if r < INT_LIMIT {
      assert (v + INT_LIMIT) % UINT_RANGE == r + INT_LIMIT;
    } else {
      assert v + INT_LIMIT == UINT_RANGE * (q + 1) + (r - INT_LIMIT);
      assert (v + INT_LIMIT) % UINT_RANGE == r - INT_LIMIT;
    }
  }

  /** The four-digit command tag printed with "%04hu". */
  function FormatTag(n: nat): (s: string)
    requires n < 10000
    ensures |s| == 4 && AllDigits(s)
  {
    [DigitChar(n / 10 / 10 / 10), DigitChar(n / 10 / 10 % 10), DigitChar(n / 10 % 10), DigitChar(n % 10)]
  }

  lemma FormatTagInjective(m: nat, n: nat)
    requires m < 10000 && n < 10000
    requires FormatTag(m) == FormatTag(n)
    ensures m == n
  {
    FormatTagDigits(m);
    FormatTagDigits(n);
  }

  lemma FormatTagDigits(n: nat)
    requires n < 10000
    ensures n == 10 * (10 * (10 * DigitValue(FormatTag(n)[0]) + DigitValue(FormatTag(n)[1]))
                 + DigitValue(FormatTag(n)[2])) + DigitValue(FormatTag(n)[3])
  {
    var b := n / 10;
    var a := b / 10;
    assert n == 10 * b + n % 10 && b == 10 * a + b % 10 && a == 10 * (a / 10) + a % 10;
  }
}
