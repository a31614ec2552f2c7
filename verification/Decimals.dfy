/** Decimal numbers as text: Go's `strconv.Itoa` and `strconv.Atoi` for 64-bit integers. */
module Decimals {

  const MAX_INT := 0x7fff_ffff_ffff_ffff

  predicate IsDigit(c: char) {
    '0' <= c <= '9'
  }

  predicate AllDigits(s: string) {
    forall c :: c in s ==> IsDigit(c)
  }

  function Digit(c: char): (d: nat)
    requires IsDigit(c)
    ensures d < 10
  {
    c as int - '0' as int
  }

  function DigitChar(d: nat): (c: char)
    requires d < 10
    ensures IsDigit(c) && Digit(c) == d
  {
    ('0' as int + d) as char
  }

  /** The number a string of digits stands for. */
  function Decimal(s: string): nat
    requires AllDigits(s)
  {
    if s == "" then 0 else Decimal(s[..|s| - 1]) * 10 + Digit(s[|s| - 1])
  }

  /** `strconv.Itoa` of a number that is not negative. */
  function Print(n: nat): (s: string)
    ensures s != "" && AllDigits(s)
  {
    if n < 10 then [DigitChar(n)] else Print(n / 10) + [DigitChar(n % 10)]
  }

  function Itoa(n: int): (s: string)
    ensures s != ""
  {
    if n < 0 then "-" + Print(-n) else Print(n)
  }

  datatype Parsed = Parsed(value: int, ok: bool)

  predicate HasSign(s: string) {
    s != "" && (s[0] == '-' || s[0] == '+')
  }

  /** `strconv.Atoi`: zero for text that is no number, the nearest integer for a number out of range. */
  function Atoi(s: string): (p: Parsed)
    ensures p.ok ==> s != ""
  {
    var digits := if HasSign(s) then s[1..] else s;
    if digits == "" || !AllDigits(digits) then Parsed(0, false)
    else if s[0] == '-' then
      if Decimal(digits) > MAX_INT + 1 then Parsed(-MAX_INT - 1, false) else Parsed(0 - Decimal(digits), true)
    else
      if Decimal(digits) > MAX_INT then Parsed(MAX_INT, false) else Parsed(Decimal(digits), true)
  }

  lemma {:induction false} DecimalOfPrint(n: nat)
    ensures Decimal(Print(n)) == n
  {
    var s := Print(n);
    if n < 10 {
      assert s[..0] == "";
    } else {
      DecimalOfPrint(n / 10);
      assert s[..|s| - 1] == Print(n / 10);
    }
  }

  /** Printed numbers are read back. */
  lemma AtoiOfItoa(n: int)
    requires -MAX_INT - 1 <= n <= MAX_INT
    ensures Atoi(Itoa(n)) == Parsed(n, true)
  {
    if n < 0 {
      DecimalOfPrint(-n);
      assert Itoa(n)[1..] == Print(-n);
    } else {
      DecimalOfPrint(n);
      assert IsDigit(Print(n)[0]);
    }
  }

  /** Text of digits only: the number, or the largest integer when it is too big, or zero when it is empty. */
  lemma AtoiOfDigits(s: string)
    requires AllDigits(s)
    ensures Atoi(s).value == if Decimal(s) > MAX_INT then MAX_INT else Decimal(s)
  {
    if s != "" {
      assert IsDigit(s[0]);
    }
  }

  function TenTo(n: nat): nat {
    if n == 0 then 1 else 10 * TenTo(n - 1)
  }

  /** The places of a number: digits in front count ten times more for each digit behind them. */
  lemma {:induction false} Places(a: string, b: string)
    requires AllDigits(a + b)
    ensures AllDigits(a) && AllDigits(b) && Decimal(a + b) == Decimal(a) * TenTo(|b|) + Decimal(b)
    decreases |b|
  {
    Parts(a, b);
    if b == "" {
      assert a + b == a;
    } else {
      var n := |b| - 1;
      assert (a + b)[..|a + b| - 1] == a + b[..n] && (a + b)[|a + b| - 1] == b[n];
      Parts(a + b[..n], [b[n]]);
      assert a + b == a + b[..n] + [b[n]];
      Places(a, b[..n]);
      TenTimes(Decimal(a), TenTo(n));
    }
  }

  lemma TenTimes(x: nat, y: nat)
    ensures x * y * 10 == x * (10 * y)
  {
  }

  lemma {:induction false} Parts(a: string, b: string)
    requires AllDigits(a + b)
    ensures AllDigits(a) && AllDigits(b)
  {
    assert forall c :: c in a ==> c in a + b;
    assert forall c :: c in b ==> c in a + b;
  }

  lemma {:induction false} OnePlace(c: char)
    requires '0' <= c <= '9'
    ensures AllDigits([c]) && Decimal([c]) == c as int - '0' as int
  {
    assert [c][..0] == "";
  }

  /** Optional sign and digits: the number, if it fits sixty-four bits, or the bound it exceeds. */
  lemma {:induction false} AtoiIs(s: string, sign: string, digits: string)
    requires s == sign + digits && (sign == "" || sign == "+" || sign == "-")
    requires digits != "" && forall c :: c in digits ==> '0' <= c <= '9'
    ensures AllDigits(digits)
    ensures var n := if sign == "-" then 0 - Decimal(digits) else Decimal(digits);
            Atoi(s) == if n > 9_223_372_036_854_775_807 then Parsed(9_223_372_036_854_775_807, false)
                       else if n < -9_223_372_036_854_775_808 then Parsed(-9_223_372_036_854_775_808, false)
                       else Parsed(n, true)
  {
    assert IsDigit(digits[0]) by {
      assert digits[0] in digits;
    }
    if sign == "" {
      assert s == digits;
    } else {
      assert s[0] == sign[0] && s[1..] == digits;
    }
  }

  /** All other text is no number. */
  lemma {:induction false} AtoiFails(s: string, c: char)
    requires s == "" || s == "+" || s == "-"
             || (c in s[1..] && !('0' <= c <= '9'))
             || (s != "" && !('0' <= s[0] <= '9') && s[0] != '+' && s[0] != '-')
    ensures Atoi(s) == Parsed(0, false)
  {
    if s != "" && HasSign(s) {
      assert s == [s[0]] + s[1..];
      assert s[1..] == "" || c in s[1..];
    } else if s != "" {
      assert s[0] in s;
      assert c in s[1..] ==> c in s;
    }
  }
}
