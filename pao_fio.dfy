/**
 * The oxygenation calculator of the SOFA score (app/sofa/handlers/calc_PaoFio.py):
 * the ratio `total = round(100 * pao2 / fio2)` and its severity code 0..4,
 * chosen by an if/elif chain that is checked from the highest threshold down.
 */
module PaoFio {
  import opened Wrappers

  /** An exact value `num / den`; the model reads the Python floats as exact rationals. */
  datatype Rational = Rational(num: int, den: int)

  predicate WellFormed(q: Rational) {
    q.den > 0
  }

  function Abs(x: int): nat {
    if x < 0 then -x else x
  }

  /** `r` is an integer nearest to `num / den`, the tie going to the even one. */
  ghost predicate RoundsTo(num: int, den: int, r: int)
    requires den > 0
  {
    && 2 * Abs(r * den - num) <= den
    && (2 * Abs(r * den - num) == den ==> r % 2 == 0)
  }

  /** Python's `round` on a rational `num / den`: half to even. */
  function RoundHalfEven(num: int, den: int): (r: int)
    requires den > 0
    ensures RoundsTo(num, den, r)
  {
    var q, rem := num / den, num % den;
    assert q * den - num == -rem && (q + 1) * den - num == den - rem by {
      assert num == q * den + rem;
      assert (q + 1) * den == q * den + den;
    }
    if 2 * rem < den then q
    else if 2 * rem > den then q + 1
    else if q % 2 == 0 then q
    else q + 1
  }

  /** The rounding is determined by its specification. */
  lemma RoundsToUnique(num: int, den: int, r1: int, r2: int)
    requires den > 0 && RoundsTo(num, den, r1) && RoundsTo(num, den, r2)
    ensures r1 == r2
  {
    if r1 > r2 {
      TiesApart(num, den, r2, r1 - r2);
    } else if r2 > r1 {
      TiesApart(num, den, r1, r2 - r1);
    }
  }

  /** Two integers `d >= 1` apart cannot both round `num / den`. */
  lemma TiesApart(num: int, den: int, lo: int, d: int)
    requires den > 0 && d >= 1
    ensures !(RoundsTo(num, den, lo) && RoundsTo(num, den, lo + d))
  {
    var e1, e2 := lo * den - num, (lo + d) * den - num;
    assert e2 - e1 == d * den by { assert (lo + d) * den == lo * den + d * den; }
    NonNegProduct(d - 1, den);
    assert d * den == (d - 1) * den + den;
    if d >= 2 {
      NonNegProduct(d - 2, den);
      assert d * den == (d - 2) * den + 2 * den;
    } else {
      assert e2 == e1 + den;
      assert lo % 2 == 0 ==> (lo + d) % 2 == 1;
    }
  }

  lemma NonNegProduct(a: nat, b: nat)
    ensures a * b >= 0
  {
  }

  /** Rounding never reverses the order of two values with the same denominator. */
  lemma RoundMonotone(n1: int, n2: int, den: int)
    requires den > 0 && n1 <= n2
    ensures RoundHalfEven(n1, den) <= RoundHalfEven(n2, den)
  {
    var r1, r2 := RoundHalfEven(n1, den), RoundHalfEven(n2, den);
    if n1 == n2 {
      RoundsToUnique(n1, den, r1, r2);
    } else if r1 > r2 {
      ApartByDen(r2, r1, den);
    }
  }

  lemma ApartByDen(lo: int, hi: int, den: int)
    requires den > 0 && lo < hi
    ensures hi * den >= lo * den + den
  {
    NonNegProduct(hi - lo - 1, den);
    assert (hi - lo) * den == (hi - lo - 1) * den + den;
    assert hi * den == lo * den + (hi - lo) * den;
  }

  /** `total = round((100 * float(pao2)) / float(fio2))`. */
  function Total(pao2: Rational, fio2: Rational): (total: int)
    requires WellFormed(pao2) && WellFormed(fio2) && fio2.num != 0
    ensures var num, den := 100 * pao2.num * fio2.den, pao2.den * fio2.num;
            if den > 0 then RoundsTo(num, den, total) else RoundsTo(-num, -den, total)
  {
    var num, den := 100 * pao2.num * fio2.den, pao2.den * fio2.num;
    if den > 0 then RoundHalfEven(num, den) else RoundHalfEven(-num, -den)
  }

  /** The threshold chain as written: `None` where no branch fires. */
  function Severity(total: int): (r: Option<nat>)
    ensures r.None? <==> total == 301 || total == 401
    ensures r.Some? ==> r.value <= 4
  {
    if total > 401 then Some(0)
    else if 301 < total <= 400 then Some(1)
    else if 200 < total <= 300 then Some(2)
    else if 100 < total <= 200 then Some(3)
    else if total <= 100 then Some(4)
    else None
  }

  /** `calculation_PaoFio(pao2, fio2)` on exact values. */
  function CalculationPaoFio(pao2: Rational, fio2: Rational): (r: Option<nat>)
    requires WellFormed(pao2) && WellFormed(fio2) && fio2.num != 0
    ensures r.None? <==> Total(pao2, fio2) in {301, 401}
    ensures r.Some? ==> r.value <= 4
  {
    Severity(Total(pao2, fio2))
  }

  /** Each band of the chain, the two gaps, and the boundaries 200 -> 3 and 100 -> 4. */
  lemma SeverityBands(total: int)
    ensures total > 401 ==> Severity(total) == Some(0)
    ensures 301 < total <= 400 ==> Severity(total) == Some(1)
    ensures 200 < total <= 300 ==> Severity(total) == Some(2)
    ensures 100 < total <= 200 ==> Severity(total) == Some(3)
    ensures total <= 100 ==> Severity(total) == Some(4)
    ensures total == 301 || total == 401 ==> Severity(total) == None
  {
  }

  /** A higher ratio never gives a worse code, wherever both codes are defined. */
  lemma SeverityMonotone(a: int, b: int)
    requires a <= b && Severity(a).Some? && Severity(b).Some?
    ensures Severity(a).value >= Severity(b).value
  {
  }

  /** Scaling numerator and denominator by the same positive factor keeps the rounding. */
  lemma RoundsToScaled(num: int, den: int, r: int, k: int)
    requires den > 0 && k > 0 && RoundsTo(num, den, r)
    ensures k * den > 0 && RoundsTo(k * num, k * den, r)
  {
    var e := r * den - num;
    var a := 2 * Abs(e);
    PositiveProduct(k, den);
    ScaledError(r, num, den, k);
    AbsScaled(k, e);
    ScaledBound(a, den, k);
  }

  lemma ScaledError(r: int, num: int, den: int, k: int)
    ensures r * (k * den) - k * num == k * (r * den - num)
  {
    assert r * (k * den) == k * (r * den);
  }

  lemma PositiveProduct(a: int, b: int)
    requires a > 0 && b > 0
    ensures a * b > 0
  {
    NonNegProduct(a - 1, b);
    assert a * b == (a - 1) * b + b;
  }

  lemma AbsScaled(k: nat, e: int)
    ensures Abs(k * e) == k * Abs(e)
    ensures 2 * Abs(k * e) == k * (2 * Abs(e))
  {
    if e < 0 {
      NonNegProduct(k, -e);
      assert k * e == -(k * (-e));
    } else {
      NonNegProduct(k, e);
    }
  }

  /** `a <= den` scales to `k * a <= k * den`, and equality holds only if it held before. */
  lemma ScaledBound(a: int, den: int, k: int)
    requires a <= den && k > 0
    ensures k * a <= k * den
    ensures k * a == k * den ==> a == den
  {
    MulLeq(a, den, k);
    assert a * k == k * a && den * k == k * den;
    if a < den {
      MulLeq(a + 1, den, k);
      assert (a + 1) * k == k * a + k;
    }
  }

  /** `round` depends only on the value of the quotient, not on how it is written. */
  lemma RoundScaled(num: int, den: int, k: int)
    requires den > 0 && k > 0
    ensures k * den > 0 && RoundHalfEven(k * num, k * den) == RoundHalfEven(num, den)
  {
    RoundsToScaled(num, den, RoundHalfEven(num, den), k);
    RoundsToUnique(k * num, k * den, RoundHalfEven(k * num, k * den), RoundHalfEven(num, den));
  }

  /** Rounding never reverses the order of two quotients: `n1 / d1 <= n2 / d2` gives ordered results. */
  lemma RoundCrossMonotone(n1: int, d1: int, n2: int, d2: int)
    requires d1 > 0 && d2 > 0 && n1 * d2 <= n2 * d1
    ensures RoundHalfEven(n1, d1) <= RoundHalfEven(n2, d2)
  {
    RoundScaled(n1, d1, d2);
    RoundScaled(n2, d2, d1);
    assert d2 * d1 == d1 * d2 && d2 * n1 == n1 * d2 && d1 * n2 == n2 * d1;
    RoundMonotone(d2 * n1, d1 * n2, d1 * d2);
  }

  /** With a positive fio2 fixed, a higher pao2 gives a ratio at least as high, hence a code no worse. */
  lemma HigherPaoNeverWorse(pao1: Rational, pao2: Rational, fio2: Rational)
    requires WellFormed(pao1) && WellFormed(pao2) && WellFormed(fio2) && fio2.num > 0
    requires pao1.num * pao2.den <= pao2.num * pao1.den
    ensures Total(pao1, fio2) <= Total(pao2, fio2)
    ensures CalculationPaoFio(pao1, fio2).Some? && CalculationPaoFio(pao2, fio2).Some? ==>
            CalculationPaoFio(pao1, fio2).value >= CalculationPaoFio(pao2, fio2).value
  {
    var n1, d1 := 100 * pao1.num * fio2.den, pao1.den * fio2.num;
    var n2, d2 := 100 * pao2.num * fio2.den, pao2.den * fio2.num;
    PositiveProduct(pao1.den, fio2.num);
    PositiveProduct(pao2.den, fio2.num);
    var c := 100 * fio2.den * fio2.num;
    PositiveProduct(100 * fio2.den, fio2.num);
    MulLeq(pao1.num * pao2.den, pao2.num * pao1.den, c);
    Regroup(pao1.num, pao2.den, fio2.den, fio2.num);
    Regroup(pao2.num, pao1.den, fio2.den, fio2.num);
    RoundCrossMonotone(n1, d1, n2, d2);
    if CalculationPaoFio(pao1, fio2).Some? && CalculationPaoFio(pao2, fio2).Some? {
      SeverityMonotone(Total(pao1, fio2), Total(pao2, fio2));
    }
  }

  /** Two ways of writing the same pao2 give the same total, for a positive fio2. */
  lemma TotalDependsOnValue(pao1: Rational, pao2: Rational, fio2: Rational)
    requires WellFormed(pao1) && WellFormed(pao2) && WellFormed(fio2) && fio2.num > 0
    requires pao1.num * pao2.den == pao2.num * pao1.den
    ensures Total(pao1, fio2) == Total(pao2, fio2)
  {
    HigherPaoNeverWorse(pao1, pao2, fio2);
    HigherPaoNeverWorse(pao2, pao1, fio2);
  }

  lemma Regroup(x: int, y: int, z: int, w: int)
    ensures (100 * x * z) * (y * w) == (x * y) * (100 * z * w)
  {
    assert (100 * x * z) * (y * w) == 100 * (x * y) * (z * w);
    assert (x * y) * (100 * z * w) == 100 * (x * y) * (z * w);
  }

  lemma MulLeq(x: int, y: int, c: nat)
    requires x <= y
    ensures x * c <= y * c
  {
    NonNegProduct(y - x, c);
    assert y * c - x * c == (y - x) * c;
  }

  /** The worked example after the function: pao2 = 40, fio2 = 30 gives total 133 and code 3. */
  lemma WorkedExample()
    ensures Total(Rational(40, 1), Rational(30, 1)) == 133
    ensures CalculationPaoFio(Rational(40, 1), Rational(30, 1)) == Some(3)
  {
  }

  // The corrected chain: the evidently intended bands are 300 < total <= 400 for
  // code 1 and total > 400 for code 0, so that no integer is left without a code.

  /** The standard bands' lower edges, a code dropping by one for each edge passed. */
  const Edges: seq<int> := [100, 200, 300, 400]

  /** How many of `edges` the ratio lies strictly above. */
  function Exceeded(total: int, edges: seq<int>): (n: nat)
    ensures n <= |edges|
  {
    if |edges| == 0 then 0
    else (if total > edges[0] then 1 else 0) + Exceeded(total, edges[1..])
  }

  lemma {:induction false} ExceededMonotone(a: int, b: int, edges: seq<int>)
    requires a <= b
    ensures Exceeded(a, edges) <= Exceeded(b, edges)
  {
    if |edges| > 0 {
      ExceededMonotone(a, b, edges[1..]);
    }
  }

  /** The corrected oxygenation code: total, in 0..4. */
  function CorrectedSeverity(total: int): (r: nat)
    ensures r <= 4
  {
    4 - Exceeded(total, Edges)
  }

  /** The corrected code never increases with the ratio. */
  lemma CorrectedMonotone(a: int, b: int)
    requires a <= b
    ensures CorrectedSeverity(a) >= CorrectedSeverity(b)
  {
    ExceededMonotone(a, b, Edges);
  }

  /** As written and corrected agree on every ratio but the two gaps, which the correction fills. */
  lemma CorrectedAgreesOutsideGaps(total: int)
    ensures total != 301 && total != 401 ==> Severity(total) == Some(CorrectedSeverity(total))
    ensures CorrectedSeverity(301) == 1 && CorrectedSeverity(401) == 0
  {
    ExceededEdges(total);
    ExceededEdges(301);
    ExceededEdges(401);
  }

  /** `Exceeded` unrolled over the four edges. */
  lemma ExceededEdges(total: int)
    ensures Exceeded(total, Edges) == (if total > 100 then 1 else 0) + (if total > 200 then 1 else 0)
                                     + (if total > 300 then 1 else 0) + (if total > 400 then 1 else 0)
  {
    var t := total;
    assert [400][1..] == [];
    assert Exceeded(t, [400]) == (if t > 400 then 1 else 0);
    assert [300, 400][1..] == [400];
    assert Exceeded(t, [300, 400]) == (if t > 300 then 1 else 0) + Exceeded(t, [400]);
    assert [200, 300, 400][1..] == [300, 400];
    assert Exceeded(t, [200, 300, 400]) == (if t > 200 then 1 else 0) + Exceeded(t, [300, 400]);
    assert Edges[1..] == [200, 300, 400];
  }

  /** `calculation_PaoFio` with the corrected chain: a code for every admissible input. */
  function CorrectedCalculationPaoFio(pao2: Rational, fio2: Rational): (r: nat)
    requires WellFormed(pao2) && WellFormed(fio2) && fio2.num != 0
    ensures r <= 4
    ensures CalculationPaoFio(pao2, fio2).Some? ==> CalculationPaoFio(pao2, fio2) == Some(r)
  {
    CorrectedAgreesOutsideGaps(Total(pao2, fio2));
    CorrectedSeverity(Total(pao2, fio2))
  }

  /** The as-written gaps are reachable from real inputs: pao2 = 301, fio2 = 100 gives `None`. */
  lemma GapReachable()
    ensures Total(Rational(301, 1), Rational(100, 1)) == 301
    ensures CalculationPaoFio(Rational(301, 1), Rational(100, 1)) == None
    ensures CalculationPaoFio(Rational(401, 1), Rational(100, 1)) == None
    ensures CorrectedCalculationPaoFio(Rational(301, 1), Rational(100, 1)) == 1
    ensures CorrectedCalculationPaoFio(Rational(401, 1), Rational(100, 1)) == 0
  {
    CorrectedAgreesOutsideGaps(301);
  }
}
