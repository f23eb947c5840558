/**
 * Decimal text of Go's 64-bit `int`, as strconv.Itoa writes it and
 * strconv.Atoi reads it: an optional sign, then one or more ASCII digits,
 * and a range error outside [-2^63, 2^63 - 1].
 */
module Decimal {
  import opened Wrappers

  const MinInt64: int := -0x8000_0000_0000_0000
  const MaxInt64: int := 0x7FFF_FFFF_FFFF_FFFF

  predicate IsDigit(c: char) {
    '0' <= c <= '9'
  }

  predicate AllDigits(s: string) {
    forall i :: 0 <= i < |s| ==> IsDigit(s[i])
  }

  /** The ASCII digit of d. */
  function DigitChar(d: int): (c: char)
    requires 0 <= d <= 9
    ensures '0' <= c <= '9' && c as int - '0' as int == d
  {
    ('0' as int + d) as char
  }

  /** The digits of n without leading zeros ("0" for zero). */
  function DigitsOf(n: nat): (s: string)
    ensures |s| >= 1 && AllDigits(s)
    ensures s[0] == '0' ==> n == 0 && s == "0"
    decreases n
  {
    if n < 10 then [DigitChar(n)] else DigitsOf(n / 10) + [DigitChar(n % 10)]
  }

  /** strconv.Itoa */
  function Itoa(n: int): (s: string)
    ensures |s| >= 1
    ensures n < 0 <==> s[0] == '-'
    ensures AllDigits(if n < 0 then s[1..] else s)
  {
    if n < 0 then "-" + DigitsOf(-n) else DigitsOf(n)
  }

  /** The value of a string of digits, most significant first. */
  function DigitsValue(s: string): nat
    requires AllDigits(s)
  {
    if s == [] then 0 else 10 * DigitsValue(s[..|s| - 1]) + (s[|s| - 1] as int - '0' as int)
  }

  /** strconv.Atoi: None stands for both the syntax error and the range error. */
  function Atoi(s: string): (r: Option<int>)
    ensures r.Some? ==> MinInt64 <= r.value <= MaxInt64
    ensures r.Some? ==> |s| >= 1 && (IsDigit(s[0]) || s[0] == '-' || s[0] == '+') && AllDigits(s[1..])
    ensures r.Some? && s[0] == '-' ==> r.value <= 0
  {
    var signed := |s| > 0 && (s[0] == '-' || s[0] == '+');
    var body := if signed then s[1..] else s;
    if body == [] || !AllDigits(body) then None
    else
      var magnitude: int := DigitsValue(body);
      var v := if signed && s[0] == '-' then -magnitude else magnitude;
      if MinInt64 <= v <= MaxInt64 then Some(v) else None
  }

  lemma {:induction false} DigitsValueOf(n: nat)
    ensures DigitsValue(DigitsOf(n)) == n
    decreases n
  {
    var s := DigitsOf(n);
    if n >= 10 {
      DigitsValueOf(n / 10);
      assert s[..|s| - 1] == DigitsOf(n / 10);
    }
  }

  /** Reading back what Itoa wrote gives the number again. */
  lemma AtoiItoa(n: int)
    requires MinInt64 <= n <= MaxInt64
    ensures Atoi(Itoa(n)) == Some(n)
  {
    var s := Itoa(n);
    if n < 0 {
      var d := DigitsOf(-n);
      assert s == "-" + d && s[0] == '-' && s[1..] == d;
      DigitsValueOf(-n);
      assert DigitsValue(s[1..]) == -n;
    } else {
      var d := DigitsOf(n);
      assert s == d;
      assert s[0] != '-' && s[0] != '+';
      DigitsValueOf(n);
    }
  }

  /** Itoa never gives two numbers the same text. */
  lemma ItoaInjective(m: int, n: int)
    requires MinInt64 <= m <= MaxInt64 && MinInt64 <= n <= MaxInt64
    ensures Itoa(m) == Itoa(n) <==> m == n
  {
    AtoiItoa(m);
    AtoiItoa(n);
  }

  /**
   * Text with a zero leading a number, after an optional minus sign, other
   * than "0" itself: "007", "00", "-0", "-07".
   */
  predicate Padded(s: string) {
    var body := if |s| > 0 && s[0] == '-' then s[1..] else s;
    |body| >= 1 && body[0] == '0' && s != "0"
  }

  /** strconv.Itoa never pads: only zero is written with a leading zero, and as "0". */
  lemma ItoaCanonical(n: int)
    ensures !Padded(Itoa(n))
    ensures Itoa(n) == "0" <==> n == 0
  {
    if n < 0 {
      assert Itoa(n)[1..] == DigitsOf(-n);
    } else if n == 0 {
      assert DigitsOf(0) == [DigitChar(0)];
    }
  }

  /** A padded flag such as "007" parses to 7, whose canonical text is "7". */
  lemma LeadingZerosAreDropped()
    ensures Atoi("007") == Some(7) && Itoa(7) == "7" && Itoa(7) != "007"
  {
    assert "007"[..2] == "00" && "00"[..1] == "0";
    assert DigitsValue("007") == 7;
  }
}
