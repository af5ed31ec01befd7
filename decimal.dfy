/**
 * Decimal digit strings: what Python's `str.isdigit` accepts (restricted to the
 * ASCII digits '0'..'9') and the value `int` gives such a string.
 */
module Decimal {

  predicate IsDigit(c: char) {
    '0' <= c <= '9'
  }

  /** Every character is a digit (the empty string included). */
  predicate AllDigits(s: string) {
    forall i :: 0 <= i < |s| ==> IsDigit(s[i])
  }

  /** `s.isdigit()`: non-empty and made of digits only. */
  predicate IsDigitString(s: string) {
    |s| > 0 && AllDigits(s)
  }

  function DigitValue(c: char): (d: nat)
    requires IsDigit(c)
    ensures d < 10
  {
    c as int - '0' as int
  }

  function DigitChar(d: nat): (c: char)
    requires d < 10
    ensures IsDigit(c) && DigitValue(c) == d
  {
    ('0' as int + d) as char
  }

  function Pow10(n: nat): (p: nat)
    ensures p >= 1
  {
    if n == 0 then 1 else 10 * Pow10(n - 1)
  }

  /** `int(s)` for a string of digits, read most significant digit first. */
  function DecimalValue(s: string): (n: nat)
    requires AllDigits(s)
    ensures n < Pow10(|s|)
  {
    if |s| == 0 then 0 else 10 * DecimalValue(s[..|s| - 1]) + DigitValue(s[|s| - 1])
  }

  /** The canonical decimal rendering of `n`: no leading zero, "0" for zero. */
  function ShowNat(n: nat): (s: string)
    ensures IsDigitString(s)
    ensures s[0] == '0' <==> n == 0
    ensures n == 0 ==> s == "0"
  {
    if n < 10 then [DigitChar(n)] else ShowNat(n / 10) + [DigitChar(n % 10)]
  }

  /** `k` leading zeros. */
  function Zeros(k: nat): (s: string)
    ensures |s| == k && AllDigits(s)
  {
    if k == 0 then "" else "0" + Zeros(k - 1)
  }

  lemma AllDigitsAppend(a: string, b: string)
    requires AllDigits(a) && AllDigits(b)
    ensures AllDigits(a + b)
  {
    forall i | 0 <= i < |a + b| ensures IsDigit((a + b)[i]) {
      if i < |a| { assert (a + b)[i] == a[i]; } else { assert (a + b)[i] == b[i - |a|]; }
    }
  }

  /** Reading a concatenation: the left part is shifted by the length of the right. */
  lemma {:induction false} DecimalValueAppend(a: string, b: string)
    requires AllDigits(a) && AllDigits(b)
    ensures AllDigits(a + b)
    ensures DecimalValue(a + b) == DecimalValue(a) * Pow10(|b|) + DecimalValue(b)
  {
    AllDigitsAppend(a, b);
    if |b| == 0 {
      assert a + b == a;
    } else {
      var b' := b[..|b| - 1];
      var last := b[|b| - 1];
      assert (a + b)[..|a + b| - 1] == a + b';
      assert (a + b)[|a + b| - 1] == last;
      assert AllDigits(b');
      DecimalValueAppend(a, b');
      assert DecimalValue(a + b) == 10 * DecimalValue(a + b') + DigitValue(last);
      assert DecimalValue(b) == 10 * DecimalValue(b') + DigitValue(last);
      ShiftStep(DecimalValue(a), Pow10(|b'|), DecimalValue(b'), DigitValue(last));
    }
  }

  lemma ShiftStep(x: int, p: int, y: int, d: int)
    ensures 10 * (x * p + y) + d == x * (10 * p) + (10 * y + d)
  {
  }

  /** A run of zeros reads as zero. */
  lemma {:induction false} ZerosValue(k: nat)
    ensures DecimalValue(Zeros(k)) == 0
  {
    if k > 0 {
      ZerosValue(k - 1);
      DecimalValueAppend("0", Zeros(k - 1));
    }
  }

  /** Leading zeros do not change the value: `int("045") == int("45")`. */
  lemma LeadingZerosIgnored(k: nat, s: string)
    requires AllDigits(s)
    ensures IsDigitString(Zeros(k) + s) <==> k > 0 || |s| > 0
    ensures DecimalValue(Zeros(k) + s) == DecimalValue(s)
  {
    ZerosValue(k);
    DecimalValueAppend(Zeros(k), s);
    assert DecimalValue(Zeros(k)) * Pow10(|s|) == 0;
  }

  /** Parsing undoes rendering. */
  lemma {:induction false} ParseShow(n: nat)
    ensures DecimalValue(ShowNat(n)) == n
  {
    if n >= 10 {
      var s := ShowNat(n);
      assert s[..|s| - 1] == ShowNat(n / 10);
      ParseShow(n / 10);
    }
  }

  /** A digit string that does not start with '0' reads as a positive number. */
  lemma {:induction false} LeadingNonZeroPositive(s: string)
    requires IsDigitString(s) && s[0] != '0'
    ensures DecimalValue(s) > 0
  {
    if |s| > 1 {
      var p := s[..|s| - 1];
      assert p[0] == s[0];
      assert AllDigits(p);
      LeadingNonZeroPositive(p);
    }
  }

  /** Rendering undoes parsing on strings without a leading zero. */
  lemma {:induction false} ShowParse(s: string)
    requires IsDigitString(s) && s[0] != '0'
    ensures ShowNat(DecimalValue(s)) == s
  {
    if |s| > 1 {
      var p := s[..|s| - 1];
      assert p[0] == s[0];
      assert AllDigits(p);
      LeadingNonZeroPositive(p);
      ShowParse(p);
      var n := DecimalValue(s);
      var d := DigitValue(s[|s| - 1]);
      assert n == 10 * DecimalValue(p) + d;
      assert n / 10 == DecimalValue(p) && n % 10 == d;
      assert DigitChar(d) == s[|s| - 1];
      assert s == p + [s[|s| - 1]];
    }
  }

  /** Every digit string is the canonical rendering of its value behind some leading zeros. */
  lemma {:induction false} CanonicalForm(s: string) returns (k: nat)
    requires IsDigitString(s)
    ensures s == Zeros(k) + ShowNat(DecimalValue(s))
  {
    if s[0] != '0' {
      ShowParse(s);
      assert Zeros(0) + s == s;
      k := 0;
    } else if |s| == 1 {
      assert s == "0" && Zeros(0) + "0" == "0";
      k := 0;
    } else {
      assert AllDigits(s[1..]);
      var k' := CanonicalForm(s[1..]);
      ZeroPrefixStep(s, k');
      k := k' + 1;
    }
  }

  /** One more leading zero: a string starting with '0' has one more zero than its tail. */
  lemma ZeroPrefixStep(s: string, k: nat)
    requires IsDigitString(s) && |s| > 1 && s[0] == '0'
    requires AllDigits(s[1..]) && s[1..] == Zeros(k) + ShowNat(DecimalValue(s[1..]))
    ensures s == Zeros(k + 1) + ShowNat(DecimalValue(s))
  {
    var t := s[1..];
    var x := ShowNat(DecimalValue(t));
    assert s == "0" + t;
    LeadingZerosIgnored(1, t);
    assert Zeros(1) == "0";
    assert DecimalValue(s) == DecimalValue(t);
    assert Zeros(k + 1) == "0" + Zeros(k);
    assert "0" + (Zeros(k) + x) == ("0" + Zeros(k)) + x;
  }

  /**
   * The digit strings that read as `v` are exactly the canonical rendering of `v`
   * behind any number of leading zeros.
   */
  lemma ReadsAs(s: string, v: nat)
    ensures (IsDigitString(s) && DecimalValue(s) == v) <==> exists k :: s == Zeros(k) + ShowNat(v)
  {
    if IsDigitString(s) && DecimalValue(s) == v {
      var k := CanonicalForm(s);
      assert s == Zeros(k) + ShowNat(v);
    }
    if exists k :: s == Zeros(k) + ShowNat(v) {
      var k :| s == Zeros(k) + ShowNat(v);
      LeadingZerosIgnored(k, ShowNat(v));
      ParseShow(v);
    }
  }
}
