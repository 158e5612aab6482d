/**
 Finite double numbers as reals, and the comparison up to a tolerance of json_value_equals, in which
 the difference and the constant are rounded.
 */
module Doubles {

  const PRECISION: int := 0x20_0000_0000_0000
  const EPSILON: real := 0.000001

  /** Powers of two. */
  function TwoTo(e: int): (r: real)
    ensures r > 0.0
    decreases if e < 0 then -e else e
  {
    if e == 0 then 1.0 else if e > 0 then 2.0 * TwoTo(e - 1) else TwoTo(e + 1) / 2.0
  }

  function Scaled(m: int, e: int): real {
    m as real * TwoTo(e)
  }

  /** The finite values of binary64: section 3.3 of IEEE 754, the format with 53 bits of precision. */
  ghost predicate IsDouble(x: real) {
    exists m: int, e: int :: -PRECISION < m < PRECISION && -1074 <= e <= 971 && x == Scaled(m, e)
  }

  function Abs(x: real): (r: real)
    ensures r >= 0.0
  {
    if x < 0.0 then -x else x
  }

  /** What is used of rounding to the nearest double. */
  ghost predicate IsRounding(round: real -> real) {
    && (forall x, y :: x <= y ==> round(x) <= round(y))
    && (forall x :: round(-x) == -round(x))
    && (forall x :: IsDouble(x) ==> round(x) == x)
  }

  /** `fabs(x - y) < 0.000001` */
  function Near(round: real -> real, x: real, y: real): bool {
    Abs(round(x - y)) < round(EPSILON)
  }

  lemma NearSymmetric(round: real -> real, x: real, y: real)
    requires IsRounding(round)
    ensures Near(round, x, y) <==> Near(round, y, x)
  {
    assert x - y == -(y - x);
  }

  // ----- powers of two -----

  lemma TwoToNext(e: int)
    ensures TwoTo(e + 1) == 2.0 * TwoTo(e)
  {
  }

  lemma {:induction false} TwoToMonotone(e: int, f: int)
    requires e <= f
    ensures TwoTo(e) <= TwoTo(f)
    decreases f - e
  {
    if e < f {
      TwoToNext(f - 1);
      TwoToMonotone(e, f - 1);
    }
  }

  lemma FinePowers()
    ensures TwoTo(-19) == 1.0 / 524288.0 && TwoTo(-20) == 1.0 / 1048576.0 && TwoTo(-21) == 1.0 / 2097152.0
  {
    assert TwoTo(-10) == 1.0 / 1024.0;
    assert TwoTo(-15) == 1.0 / 32768.0;
    TwoToNext(-20);
    TwoToNext(-21);
  }

  lemma {:induction false} OnFinerGrid(m: int, e: int, f: int) returns (k: int)
    requires f <= e
    ensures Scaled(m, e) == Scaled(k, f)
    decreases e - f
  {
    if f == e {
      k := m;
    } else {
      TwoToNext(e - 1);
      DoubledMantissa(m, TwoTo(e - 1));
      k := OnFinerGrid(2 * m, e - 1, f);
    }
  }

  lemma DoubledMantissa(m: int, t: real)
    ensures m as real * (2.0 * t) == (2 * m) as real * t
  {
  }

  lemma TimesMonotone(a: real, b: real, t: real)
    requires a <= b && t >= 0.0
    ensures a * t <= b * t
  {
  }

  // ----- how far doubles lie apart -----

  /** A double too large for a finer grid lies on the grid of spacing 2^g. */
  lemma OnGrid(x: real, g: int) returns (k: int)
    requires IsDouble(x) && Abs(x) >= Scaled(PRECISION, g - 1)
    ensures x == Scaled(k, g)
  {
    hide Scaled, TwoTo, Abs;
    var m: int, e: int :| -PRECISION < m < PRECISION && -1074 <= e <= 971 && x == Scaled(m, e);
    if e < g {
      TooSmall(m, e, g);
      assert false;
    }
    k := OnFinerGrid(m, e, g);
  }

  lemma TooSmall(m: int, e: int, g: int)
    requires -PRECISION < m < PRECISION && e < g
    ensures Abs(Scaled(m, e)) < Scaled(PRECISION, g - 1)
  {
    hide TwoTo;
    TwoToMonotone(e, g - 1);
    AbsScaled(m as real, TwoTo(e));
    ProductBelow(Abs(m as real), PRECISION as real, TwoTo(e), TwoTo(g - 1));
  }

  lemma ProductBelow(a: real, b: real, t: real, u: real)
    requires 0.0 <= a < b && 0.0 < t <= u
    ensures a * t < b * u
  {
    assert a * t < b * t;
    assert b * t <= b * u;
  }

  lemma AbsScaled(x: real, t: real)
    requires t > 0.0
    ensures Abs(x * t) == Abs(x) * t
  {
  }

  /** Points of one grid closer than its spacing are the same. */
  lemma GridApart(j: int, k: int, g: int)
    requires Abs(Scaled(j, g) - Scaled(k, g)) < TwoTo(g)
    ensures j == k
  {
    hide Scaled, TwoTo;
    if j < k {
      Spacing(j, k, g);
    } else if k < j {
      Spacing(k, j, g);
    }
  }

  lemma Spacing(j: int, k: int, g: int)
    requires j < k
    ensures Scaled(j, g) + TwoTo(g) <= Scaled(k, g)
  {
    var x, y, t := j as real, k as real, TwoTo(g);
    assert Scaled(j, g) == x * t && Scaled(k, g) == y * t;
    Distribute(x, t);
    TimesMonotone(x + 1.0, y, t);
  }

  lemma Distribute(x: real, t: real)
    ensures (x + 1.0) * t == x * t + t
  {
  }

  // ----- near and far -----

  lemma RoundedDifference(round: real -> real, d: real)
    requires IsRounding(round)
    ensures Abs(round(d)) == round(Abs(d))
  {
    assert round(-0.0) == -round(0.0);
  }

  /** Differences up to 2^-20 are below the tolerance, for a double lies between the two. */
  lemma NearWithin(round: real -> real, x: real, y: real)
    requires IsRounding(round) && Abs(x - y) <= TwoTo(-20)
    ensures Near(round, x, y)
  {
    RoundedDifference(round, x - y);
    BetweenGridAndTolerance();
    assert round(TwoTo(-20)) == TwoTo(-20);
    assert round(Scaled(1025, -30)) == Scaled(1025, -30);
  }

  lemma BetweenGridAndTolerance()
    ensures IsDouble(TwoTo(-20)) && IsDouble(Scaled(1025, -30))
    ensures TwoTo(-20) < Scaled(1025, -30) < EPSILON
  {
    FinePowers();
    TwoToStep10(-30);
    assert TwoTo(-20) == Scaled(1, -20);
  }

  lemma TwoToStep10(e: int)
    ensures TwoTo(e + 10) == 1024.0 * TwoTo(e)
  {
    TwoToNext(e);
    TwoToNext(e + 1);
    TwoToNext(e + 2);
    TwoToNext(e + 3);
    TwoToNext(e + 4);
    TwoToNext(e + 5);
    TwoToNext(e + 6);
    TwoToNext(e + 7);
    TwoToNext(e + 8);
    TwoToNext(e + 9);
  }

  lemma FarBeyond(round: real -> real, x: real, y: real)
    requires IsRounding(round) && Abs(x - y) >= EPSILON
    ensures !Near(round, x, y)
  {
    RoundedDifference(round, x - y);
  }

  // ----- where nearness is transitive -----

  /** 2^33: beyond it neighbouring doubles are farther apart than the tolerance. */
  const SPARSE: real := 8589934592.0

  ghost predicate BeyondSparse(x: real) {
    Abs(x) > SPARSE
  }

  /** What is near a number near x is near x. */
  ghost predicate TransitiveAt(round: real -> real, x: real) {
    forall y, z :: IsDouble(y) && IsDouble(z) && Near(round, x, y) && Near(round, y, z) ==> Near(round, x, z)
  }

  /** Beyond 2^33 only the number itself is near. */
  lemma Isolated(round: real -> real, x: real, y: real)
    requires IsRounding(round) && IsDouble(x) && IsDouble(y) && BeyondSparse(x) && Near(round, x, y)
    ensures x == y
  {
    if Abs(x - y) >= EPSILON {
      FarBeyond(round, x, y);
      assert false;
    }
    FinePowers();
    var j := OnGrid(x, -19);
    MoreThanSparse(j);
    var k := OnGrid(y, -19);
    GridApart(j, k, -19);
  }

  /** The next point of the grid is a whole step farther out. */
  lemma MoreThanSparse(j: int)
    requires Abs(Scaled(j, -19)) > SPARSE
    ensures Abs(Scaled(j, -19)) >= SPARSE + TwoTo(-19)
  {
    FinePowers();
    var n, t := 4503599627370496.0, TwoTo(-19);
    AbsScaled(j as real, t);
    if Abs(j as real) <= n {
      TimesMonotone(Abs(j as real), n, t);
      assert false;
    }
    TimesMonotone(n + 1.0, Abs(j as real), t);
  }

  /** Below 2^32 there are two steps that together are too long. */
  lemma SmallSteps(x: real) returns (y: real, z: real)
    requires 0.0 <= x < SPARSE / 2.0
    ensures IsDouble(y) && IsDouble(z)
    ensures Abs(x - y) <= TwoTo(-20) && Abs(y - z) <= TwoTo(-20) && Abs(x - z) >= EPSILON
  {
    hide IsDouble;
    FinePowers();
    var q := (x * 2097152.0).Floor;
    y, z := Scaled(q - 1, -21), Scaled(q - 3, -21);
    IsScaledDouble(q - 1, -21);
    IsScaledDouble(q - 3, -21);
  }

  /** From there up to 2^33 the next two doubles are. */
  lemma LargeSteps(x: real) returns (y: real, z: real)
    requires IsDouble(x) && SPARSE / 2.0 <= x <= SPARSE
    ensures IsDouble(y) && IsDouble(z)
    ensures Abs(x - y) <= TwoTo(-20) && Abs(y - z) <= TwoTo(-20) && Abs(x - z) >= EPSILON
  {
    hide IsDouble;
    FinePowers();
    var q := OnGrid(x, -20);
    y, z := Scaled(q - 1, -20), Scaled(q - 2, -20);
    IsScaledDouble(q - 1, -20);
    IsScaledDouble(q - 2, -20);
  }

  lemma IsScaledDouble(m: int, e: int)
    requires -PRECISION < m < PRECISION && -1074 <= e <= 971
    ensures IsDouble(Scaled(m, e))
  {
  }

  lemma IsMirrored(x: real)
    requires IsDouble(x)
    ensures IsDouble(-x)
  {
    hide TwoTo;
    var m: int, e: int :| -PRECISION < m < PRECISION && -1074 <= e <= 971 && x == Scaled(m, e);
    assert Scaled(-m, e) == -x;
  }

  /** Up to 2^33 there are two steps that together are too long: toward zero and, if need be, past it. */
  lemma Steps(x: real) returns (y: real, z: real)
    requires IsDouble(x) && !BeyondSparse(x)
    ensures IsDouble(y) && IsDouble(z)
    ensures Abs(x - y) <= TwoTo(-20) && Abs(y - z) <= TwoTo(-20) && Abs(x - z) >= EPSILON
  {
    hide TwoTo, IsDouble;
    var u, v;
    IsMirrored(x);
    if Abs(x) < SPARSE / 2.0 {
      u, v := SmallSteps(Abs(x));
    } else {
      u, v := LargeSteps(Abs(x));
    }
    IsMirrored(u);
    IsMirrored(v);
    y, z := if x >= 0.0 then u else -u, if x >= 0.0 then v else -v;
  }

  lemma TransitiveAtExactlyWhen(round: real -> real, x: real)
    requires IsRounding(round) && IsDouble(x)
    ensures TransitiveAt(round, x) <==> BeyondSparse(x)
  {
    hide IsDouble, IsRounding, Near, BeyondSparse, Abs;
    if BeyondSparse(x) {
      forall y, z | IsDouble(y) && IsDouble(z) && Near(round, x, y) && Near(round, y, z)
        ensures Near(round, x, z)
      {
        Isolated(round, x, y);
      }
    } else {
      var y, z := Steps(x);
      NearWithin(round, x, y);
      NearWithin(round, y, z);
      FarBeyond(round, x, z);
    }
  }
}
