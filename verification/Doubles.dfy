/** The finite numbers of the C++ type double, as a set of reals, and the rounding of a number to
    the nearest of them. */
module Doubles {
  import opened Common

  const TWO_53: int := 0x20_0000_0000_0000
  const MIN_EXPONENT: int := -1074
  const MAX_EXPONENT: int := 971

  function Abs(x: real): real { if x < 0.0 then -x else x }

  function Signed(x: real, negative: bool): real { if negative then -x else x }

  /** Products and quotients, named so that proofs can keep them folded. */
  function Times(a: real, t: real): real { a * t }

  function Over(a: real, t: real): real
    requires t > 0.0
  {
    a / t
  }

  function Pow2(k: nat): (n: nat)
    ensures n >= 1
  {
    if k == 0 then 1 else 2 * Pow2(k - 1)
  }

  function TwoTo(k: int): (r: real)
    ensures r > 0.0
    decreases if k < 0 then -k else k
  {
    if k == 0 then 1.0 else if k > 0 then 2.0 * TwoTo(k - 1) else TwoTo(k + 1) / 2.0
  }

  /** A significand of 53 bits and an exponent. */
  datatype Float = Float(m: int, e: int) {
    predicate Valid() { -TWO_53 < m < TWO_53 && MIN_EXPONENT <= e <= MAX_EXPONENT }

    function Value(): real { Times(m as real, TwoTo(e)) }
  }

  ghost predicate IsDouble(x: real) { exists f: Float :: f.Valid() && f.Value() == x }

  function Zero(): (z: real)
    ensures z == 0.0 && IsDouble(z)
  {
    assert Float(0, 0).Value() == 0.0;
    0.0
  }

  lemma NegatedDouble(x: real)
    requires IsDouble(x)
    ensures IsDouble(-x)
  {
    var f: Float :| f.Valid() && f.Value() == x;
    assert Float(-f.m, f.e).Valid() && Float(-f.m, f.e).Value() == -x;
  }

  type Double = x: real | IsDouble(x) witness Zero()

  /** r is a double, and no other is closer to v. */
  ghost predicate IsNearest(r: real, v: real) {
    IsDouble(r) && forall d :: IsDouble(d) ==> Abs(r - v) <= Abs(d - v)
  }

  /** Round a nonnegative number to the nearest integer, halves to even. */
  function RoundHalfEven(y: real): (n: nat)
    requires y >= 0.0
    ensures y - 0.5 <= n as real <= y + 0.5
    ensures y.Floor as real == y ==> n == y.Floor
    ensures y - y.Floor as real == 0.5 ==> n % 2 == 0
  {
    var f := y.Floor;
    var rest := y - f as real;
    if rest < 0.5 || (rest == 0.5 && f % 2 == 0) then f else f + 1
  }

  /** The least exponent from e on whose significands reach v. */
  function ExponentFrom(v: real, e: int): (r: int)
    requires MIN_EXPONENT <= e <= MAX_EXPONENT
    ensures e <= r <= MAX_EXPONENT
    ensures v < Times(TWO_53 as real, TwoTo(r)) || r == MAX_EXPONENT
    ensures r > e ==> v >= Times(TWO_53 as real, TwoTo(r - 1))
    decreases MAX_EXPONENT - e
  {
    if v < Times(TWO_53 as real, TwoTo(e)) || e == MAX_EXPONENT then e else ExponentFrom(v, e + 1)
  }

  /** The double nearest to a nonnegative number, halves to the even significand; None on overflow. */
  function ToDouble(v: real): Option<real>
    requires v >= 0.0
  {
    var e := ExponentFrom(v, MIN_EXPONENT);
    Divided(v, TwoTo(e), 0.0);
    var m := RoundHalfEven(Over(v, TwoTo(e)));
    if m >= TWO_53 && e == MAX_EXPONENT then None else Some(Times(m as real, TwoTo(e)))
  }

  // ---- products ----------------------------------------------------------------------------

  lemma TimesMonotone(a: real, b: real, t: real)
    requires a <= b && t >= 0.0
    ensures Times(a, t) <= Times(b, t)
  {}

  lemma TimesGrouped(a: int, b: int, t: real)
    ensures Times(a as real, Times(b as real, t)) == Times((a * b) as real, t)
  {
    assert a as real * (b as real * t) == (a as real * b as real) * t;
  }

  lemma TimesDistance(a: real, b: real, t: real)
    requires t > 0.0
    ensures Abs(Times(a, t) - Times(b, t)) == Times(Abs(a - b), t)
  {
    assert a * t - b * t == (a - b) * t;
  }

  lemma Divided(v: real, t: real, b: real)
    requires t > 0.0
    ensures v == Times(Over(v, t), t) && (v < Times(b, t) ==> Over(v, t) < b)
    ensures v >= 0.0 ==> Over(v, t) >= 0.0
  {
    var y := Over(v, t);
    assert v == Times(y, t);
    if y >= b { TimesMonotone(b, y, t); }
  }

  lemma {:induction false} TwoToSplits(k: int, j: nat)
    ensures TwoTo(k + j) == Times(Pow2(j) as real, TwoTo(k))
  {
    if j > 0 {
      TwoToSplits(k, j - 1);
      TimesGrouped(2, Pow2(j - 1), TwoTo(k));
      assert TwoTo(k + j) == Times(2.0, TwoTo(k + j - 1));
      hide Times;
    }
  }

  /** A double of exponent e or more is a whole multiple of 2^e. */
  lemma AsMultiple(f: Float, e: int) returns (k: int)
    requires f.e >= e
    ensures f.Value() == Times(k as real, TwoTo(e))
  {
    hide Times, TwoTo, Pow2;
    TwoToSplits(e, f.e - e);
    k := f.m * Pow2(f.e - e);
    TimesGrouped(f.m, Pow2(f.e - e), TwoTo(e));
  }

  /** Half the significand goes with twice the power. */
  lemma HalfSignificand(e: int)
    ensures Times(TWO_53 as real, TwoTo(e - 1)) == Times((TWO_53 / 2) as real, TwoTo(e))
  {
    assert TwoTo(e) == Times(2.0, TwoTo(e - 1));
    TimesGrouped(TWO_53 / 2, 2, TwoTo(e - 1));
    hide Times;
  }

  lemma SmallerFloat(f: Float, e: int, c: nat)
    requires f.e <= e && f.m <= c
    ensures f.Value() <= Times(c as real, TwoTo(e))
  {
    hide Times, TwoTo, Pow2;
    var j := e - f.e;
    TwoToSplits(f.e, j);
    TimesGrouped(c, Pow2(j), TwoTo(f.e));
    PositiveFactor(f.m, c, Pow2(j));
    TimesMonotone(f.m as real, (c * Pow2(j)) as real, TwoTo(f.e));
  }

  lemma PositiveFactor(a: int, b: int, c: int)
    requires a <= b && b >= 0 && c >= 1
    ensures a <= b * c
  {}

  /** A double of a lesser exponent is at most 2^53 * 2^(e - 1). */
  lemma BelowBinade(f: Float, e: int)
    requires f.Valid() && f.e < e
    ensures f.Value() <= Times(TWO_53 as real, TwoTo(e - 1))
  {
    SmallerFloat(f, e - 1, TWO_53);
  }

  // ---- the rounding is to the nearest ------------------------------------------------------

  /** The exponent e and significand m that v is rounded to, y being v in units of 2^e. */
  lemma RoundingParts(v: real) returns (e: int, y: real, m: nat)
    requires v >= 0.0
    ensures MIN_EXPONENT <= e <= MAX_EXPONENT && v == Times(y, TwoTo(e))
    ensures y - 0.5 <= m as real <= y + 0.5
    ensures y < TWO_53 as real || e == MAX_EXPONENT
    ensures e > MIN_EXPONENT ==> v >= Times(TWO_53 as real, TwoTo(e - 1))
    ensures ToDouble(v) == if m >= TWO_53 && e == MAX_EXPONENT then None else Some(Times(m as real, TwoTo(e)))
  {
    e := ExponentFrom(v, MIN_EXPONENT);
    y := Over(v, TwoTo(e));
    Divided(v, TwoTo(e), TWO_53 as real);
    hide RoundHalfEven, ExponentFrom, Times, Over, TwoTo;
    m := RoundHalfEven(y);
  }

  lemma NearestInteger(y: real, m: int, k: int)
    requires y - 0.5 <= m as real <= y + 0.5
    ensures Abs(m as real - y) <= Abs(k as real - y)
  {
    if k > m {
      assert k as real >= m as real + 1.0;
    } else if k < m {
      assert k as real <= m as real - 1.0;
    }
  }

  /** Among the whole multiples of t the rounded one is nearest. */
  lemma NearestMultiple(y: real, t: real, m: int, k: int)
    requires t > 0.0 && y - 0.5 <= m as real <= y + 0.5
    ensures Abs(Times(m as real, t) - Times(y, t)) <= Abs(Times(k as real, t) - Times(y, t))
  {
    hide Times, Abs;
    NearestInteger(y, m, k);
    TimesDistance(m as real, y, t);
    TimesDistance(k as real, y, t);
    TimesMonotone(Abs(m as real - y), Abs(k as real - y), t);
  }

  lemma ToDoubleIsDouble(v: real)
    requires v >= 0.0 && ToDouble(v).Some?
    ensures IsDouble(ToDouble(v).value) && ToDouble(v).value >= 0.0
  {
    var e, y, m := RoundingParts(v);
    TimesMonotone(0.0, m as real, TwoTo(e));
    assert Times(0.0, TwoTo(e)) == 0.0;
    HalfSignificand(e + 1);
    hide ToDouble, Times, TwoTo;
    var f := if m < TWO_53 then Float(m, e) else Float(TWO_53 / 2, e + 1);
    assert m >= TWO_53 ==> m == TWO_53;
    assert f.Valid() && f.Value() == ToDouble(v).value;
  }

  lemma StillFurther(d: real, b: real, v: real)
    requires d <= b <= v
    ensures Abs(b - v) <= Abs(d - v)
  {}

  lemma NoCoarserIsCloser(f: Float, e: int, y: real, m: int)
    requires f.e >= e && y - 0.5 <= m as real <= y + 0.5
    ensures Abs(Times(m as real, TwoTo(e)) - Times(y, TwoTo(e))) <= Abs(f.Value() - Times(y, TwoTo(e)))
  {
    hide Times, TwoTo, Abs;
    var k := AsMultiple(f, e);
    NearestMultiple(y, TwoTo(e), m, k);
  }

  lemma NoFinerIsCloser(f: Float, e: int, y: real, m: int)
    requires f.Valid() && f.e < e && y - 0.5 <= m as real <= y + 0.5
    requires Times(y, TwoTo(e)) >= Times(TWO_53 as real, TwoTo(e - 1))
    ensures Abs(Times(m as real, TwoTo(e)) - Times(y, TwoTo(e))) <= Abs(f.Value() - Times(y, TwoTo(e)))
  {
    hide Times, TwoTo, Abs;
    BelowBinade(f, e);
    HalfSignificand(e);
    NearestMultiple(y, TwoTo(e), m, TWO_53 / 2);
    StillFurther(f.Value(), Times((TWO_53 / 2) as real, TwoTo(e)), Times(y, TwoTo(e)));
  }

  lemma NoDoubleIsCloser(v: real, f: Float)
    requires v >= 0.0 && ToDouble(v).Some? && f.Valid()
    ensures Abs(ToDouble(v).value - v) <= Abs(f.Value() - v)
  {
    var e, y, m := RoundingParts(v);
    hide ToDouble, Times, TwoTo, Abs;
    assert ToDouble(v).value == Times(m as real, TwoTo(e));
    if f.e >= e {
      NoCoarserIsCloser(f, e, y, m);
    } else {
      NoFinerIsCloser(f, e, y, m);
    }
  }

  /** The rounding is to the nearest double. */
  lemma ToDoubleIsNearest(v: real)
    requires v >= 0.0 && ToDouble(v).Some?
    ensures IsNearest(ToDouble(v).value, v)
  {
    ToDoubleIsDouble(v);
    forall d | IsDouble(d) ensures Abs(ToDouble(v).value - v) <= Abs(d - v) {
      var f: Float :| f.Valid() && f.Value() == d;
      NoDoubleIsCloser(v, f);
    }
  }

  /** No number up to a double overflows. */
  lemma NoOverflow(v: real, d: real)
    requires 0.0 <= v <= d && IsDouble(d)
    ensures ToDouble(v).Some?
  {
    var f: Float :| f.Valid() && f.Value() == d;
    var e, y, m := RoundingParts(v);
    if e == MAX_EXPONENT {
      SmallerFloat(f, e, TWO_53 - 1);
      BoundedQuotient(y, (TWO_53 - 1) as real, TwoTo(e));
      hide ToDouble, Times, TwoTo;
      assert m as real <= (TWO_53 - 1) as real + 0.5;
    }
  }

  lemma BoundedQuotient(y: real, b: real, t: real)
    requires t > 0.0 && Times(y, t) <= Times(b, t)
    ensures y <= b
  {
    hide Times;
    if y > b { TimesStrict(b, y, t); }
  }

  lemma TimesStrict(a: real, b: real, t: real)
    requires a < b && t > 0.0
    ensures Times(a, t) < Times(b, t)
  {}

  /** A double is left alone. */
  lemma ToDoubleKeepsDoubles(x: real)
    requires x >= 0.0 && IsDouble(x)
    ensures ToDouble(x) == Some(x)
  {
    hide ToDouble;
    NoOverflow(x, x);
    ToDoubleIsNearest(x);
  }

  // ---- where doubles are dense and where they are sparse -----------------------------------

  /** From here on neighbouring doubles are more than a millionth apart. */
  const SPARSE: real := 8589934592.0

  lemma Ladder()
    ensures TwoTo(-21) == 1.0 / 2097152.0 && TwoTo(-20) == 1.0 / 1048576.0 && TwoTo(-19) == 1.0 / 524288.0
    ensures TwoTo(33) == SPARSE && TwoTo(1) == 2.0 && TwoTo(0) == 1.0 && TwoTo(54) == 2.0 * TWO_53 as real
  {
    assert TwoTo(-5) == 1.0 / 32.0;
    assert TwoTo(-10) == 1.0 / 1024.0;
    assert TwoTo(-15) == 1.0 / 32768.0;
    assert TwoTo(10) == 1024.0;
    assert TwoTo(20) == 1048576.0;
    assert TwoTo(30) == 1073741824.0;
    assert TwoTo(40) == 1099511627776.0;
    assert TwoTo(50) == 1125899906842624.0;
  }

  /** Below 2^33 every number has a double within 2^-21. */
  lemma DenseBelow(v: real) returns (d: real)
    requires 0.0 <= v <= SPARSE
    ensures IsDouble(d) && Abs(d - v) <= 1.0 / 2097152.0
  {
    Ladder();
    var n := RoundHalfEven(v * 1048576.0);
    hide RoundHalfEven, TwoTo;
    var f := if n < TWO_53 then Float(n, -20) else Float(1, 33);
    d := f.Value();
    assert f.Valid();
  }

  /** From 2^53 * 2^(e - 1) on every double is a whole multiple of 2^e. */
  lemma MultipleAbove(d: real, e: int) returns (k: int)
    requires IsDouble(d) && d >= Times(TWO_53 as real, TwoTo(e - 1))
    ensures d == Times(k as real, TwoTo(e))
  {
    hide Times, TwoTo;
    var f: Float :| f.Valid() && f.Value() == d;
    if f.e < e {
      BelowBinade(f, e);
      HalfSignificand(e);
      k := TWO_53 / 2;
    } else {
      k := AsMultiple(f, e);
    }
  }

  // ---- six decimals ------------------------------------------------------------------------

  const MICRO: nat := 1_000_000

  /** The whole number of millionths nearest to a nonnegative number. */
  function Millionths(a: real): nat
    requires a >= 0.0
  {
    RoundHalfEven(a * 1000000.0)
  }

  /** The double that k millionths are read as; None on overflow. */
  function FromMillionths(k: nat): Option<real> { ToDouble(k as real / 1000000.0) }

  lemma MillionthsAreDoubles(k: nat)
    ensures FromMillionths(k).Some? ==>
              var r := FromMillionths(k).value; IsDouble(r) && IsDouble(-r) && r >= 0.0
  {
    hide ToDouble;
    if FromMillionths(k).Some? {
      ToDoubleIsDouble(k as real / 1000000.0);
      NegatedDouble(FromMillionths(k).value);
    }
  }

  lemma MillionthsAreClose(a: real)
    requires a >= 0.0
    ensures Abs(Millionths(a) as real / 1000000.0 - a) <= 0.0000005
  {
    hide RoundHalfEven;
  }

  lemma IntegerMillionths(k: nat)
    ensures Millionths(k as real) == k * MICRO
  {
    hide RoundHalfEven;
    assert k as real * 1000000.0 == (k * MICRO) as real;
  }

  /** The millionths nearest to a double can be read back: as the double nearest to them, which is
      within a millionth of the first. */
  lemma MillionthsReadBack(a: real)
    requires a >= 0.0 && IsDouble(a)
    ensures FromMillionths(Millionths(a)).Some?
    ensures IsNearest(FromMillionths(Millionths(a)).value, Millionths(a) as real / 1000000.0)
    ensures Abs(FromMillionths(Millionths(a)).value - a) <= 0.000001
  {
    hide ToDouble, Millionths;
    MillionthsAreClose(a);
    Ladder();
    var v := Millionths(a) as real / 1000000.0;
    if a >= TWO_53 as real {
      var k := MultipleAbove(a, 1);
      IntegerMillionths(2 * k);
      NoOverflow(v, a);
    } else {
      assert Float(1, 54).Valid() && Float(1, 54).Value() == 2.0 * TWO_53 as real;
      NoOverflow(v, 2.0 * TWO_53 as real);
    }
    ToDoubleIsNearest(v);
  }

  /** Above 2^33 the double nearest to the millionths is the one they came from. */
  lemma SparseDoublesReadBack(a: real)
    requires a >= SPARSE && IsDouble(a)
    ensures FromMillionths(Millionths(a)) == Some(a)
  {
    hide ToDouble, Millionths;
    MillionthsReadBack(a);
    MillionthsAreClose(a);
    var r := FromMillionths(Millionths(a)).value;
    Ladder();
    var k := MultipleAbove(a, -19);
    IntegerMillionths(8589934592);
    if r >= SPARSE {
      var j := MultipleAbove(r, -19);
      assert j == k;
    }
  }

  /** Below 2^33 a double that k millionths are read as has k as its nearest millionths. */
  lemma DenseDoublesReadBack(a: real, k: nat)
    requires 0.0 <= a < SPARSE && FromMillionths(k) == Some(a)
    ensures Millionths(a) == k
  {
    hide ToDouble, RoundHalfEven;
    var u := k as real / 1000000.0;
    ToDoubleIsNearest(u);
    Ladder();
    assert Float(1, 33).Valid() && Float(1, 33).Value() == SPARSE;
    assert IsDouble(SPARSE);
    assert u <= SPARSE;
    var d := DenseBelow(u);
  }

  /** A double is read back from its nearest millionths exactly when some number of millionths is
      read as that double. */
  lemma ReadBackExactly(a: real)
    requires a >= 0.0 && IsDouble(a)
    ensures FromMillionths(Millionths(a)) == Some(a) <==> exists k: nat :: FromMillionths(k) == Some(a)
    ensures a >= SPARSE ==> FromMillionths(Millionths(a)) == Some(a)
  {
    hide ToDouble, FromMillionths, Millionths;
    if a >= SPARSE {
      SparseDoublesReadBack(a);
    } else if k: nat :| FromMillionths(k) == Some(a) {
      DenseDoublesReadBack(a, k);
    }
  }
}
