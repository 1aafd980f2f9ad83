/** Machine-integer facts the window geometry relies on: the range of a signed
    32-bit integer, division that truncates toward zero (as a floating-point
    quotient converted with `as i32` does) and the saturating conversion of an
    out-of-range value back into that range. */
module Arith {

  const I32_MIN: int := -0x8000_0000
  const I32_MAX: int := 0x7fff_ffff

  predicate IsI32(x: int) {
    I32_MIN <= x <= I32_MAX
  }

  /** A signed 32-bit integer. Arithmetic on it is unbounded; a result that is
      stored back into an `i32` must be shown to fit. Where swap.rs or
      win_main.rs would overflow, and so panic, the operations return an
      error value instead. */
  type i32 = x: int | -0x8000_0000 <= x <= 0x7fff_ffff

  function Abs(x: int): nat {
    if x < 0 then -x else x
  }

  /** `d` is the exact quotient `num / den` rounded toward zero: it never
      overshoots the quotient, has the quotient's sign, and misses it by less
      than one. */
  predicate IsTruncatedQuotient(d: int, num: int, den: int)
    requires den != 0
  {
    && Abs(d * den) <= Abs(num)
    && (d * den == 0 || (d * den < 0) == (num < 0))
    && Abs(num) < Abs(d * den) + Abs(den)
  }

  /** `d` is the quotient `num / den` converted to `i32` the way a
      floating-point value is: rounded toward zero, and clamped to the nearest
      bound when that does not fit. */
  predicate IsSaturatedQuotient(d: int, num: int, den: int)
    requires den != 0
  {
    && IsI32(d)
    && Abs(d * den) <= Abs(num)
    && (d * den == 0 || (d * den < 0) == (num < 0))
    && (Abs(num) < Abs(d * den) + Abs(den) || d == I32_MIN || d == I32_MAX)
  }

  lemma AbsMul(a: int, b: int)
    ensures Abs(a * b) == Abs(a) * Abs(b)
  {
    if a < 0 && b < 0 {
      assert a * b == (-a) * (-b);
    } else if a < 0 {
      assert a * b == -((-a) * b);
    } else if b < 0 {
      assert a * b == -(a * (-b));
    }
  }

  lemma MulNonNeg(a: int, b: int)
    requires a >= 0 && b >= 0
    ensures a * b >= 0
  {
  }

  /** The bounds Euclidean division gives for a positive divisor. */
  lemma DivBounds(n: nat, m: nat)
    requires m > 0
    ensures (n / m) * m <= n < (n / m) * m + m
  {
  }

  /** Division rounding toward zero, as opposed to Dafny's Euclidean `/`. */
  function TruncDiv(p: int, q: int): int
    requires q != 0
  {
    var k := Abs(p) / Abs(q);
    if (p < 0) == (q < 0) then k else -k
  }

  /** `TruncDiv` meets the definition of a quotient rounded toward zero. */
  lemma TruncDivRoundsTowardZero(p: int, q: int)
    requires q != 0
    ensures IsTruncatedQuotient(TruncDiv(p, q), p, q)
  {
    var t := TruncDiv(p, q);
    TruncDivMagnitude(p, q);
    DivBounds(Abs(p), Abs(q));
    AbsMul(t, q);
    assert Abs(t * q) == (Abs(p) / Abs(q)) * Abs(q);
    if t != 0 {
      SignOfProduct(t, q);
    } else {
      ZeroProduct(t, q);
    }
  }

  /** The magnitude of `TruncDiv` is the quotient of the magnitudes, and a
      non-zero result has the sign of the exact quotient. */
  lemma TruncDivMagnitude(p: int, q: int)
    requires q != 0
    ensures Abs(TruncDiv(p, q)) == Abs(p) / Abs(q)
    ensures TruncDiv(p, q) != 0 ==> ((TruncDiv(p, q) < 0) <==> ((p < 0) != (q < 0)))
  {
    var k: int := Abs(p) / Abs(q);
    if (p < 0) == (q < 0) {
      assert TruncDiv(p, q) == k;
    } else {
      assert TruncDiv(p, q) == -k;
    }
  }

  lemma ZeroProduct(a: int, b: int)
    requires a == 0
    ensures a * b == 0
  {
  }

  lemma SignOfProduct(a: int, b: int)
    requires a != 0 && b != 0
    ensures (a * b < 0) == ((a < 0) != (b < 0))
  {
    AbsMul(a, b);
    MulNonNeg(Abs(a), Abs(b));
    if a < 0 && b < 0 {
      assert a * b == (-a) * (-b);
      MulNonNeg(-a, -b);
      assert (-a) * (-b) != 0;
    } else if a < 0 {
      assert a * b == -((-a) * b);
      assert (-a) * b > 0;
    } else if b < 0 {
      assert a * b == -(a * (-b));
      assert a * (-b) > 0;
    } else {
      assert a * b > 0;
    }
  }

  /** The conversion of a finite value to `i32`: kept when it fits, otherwise
      clamped to the nearest bound. */
  function Saturate(x: int): i32 {
    if x < I32_MIN then I32_MIN else if x > I32_MAX then I32_MAX else x
  }

  lemma MulMonotone(x: int, y: int, m: int)
    requires x <= y && m >= 0
    ensures x * m <= y * m
  {
    MulNonNeg(y - x, m);
    assert y * m - x * m == (y - x) * m;
  }

  /** A quotient rounded toward zero is determined by the two properties that
      define it, so `TruncDiv` is the only function meeting its contract. */
  lemma {:induction false} TruncDivUnique(d: int, p: int, q: int)
    requires q != 0
    requires IsTruncatedQuotient(d, p, q)
    ensures d == TruncDiv(p, q)
  {
    var t := TruncDiv(p, q);
    TruncDivRoundsTowardZero(p, q);
    AbsMul(d, q);
    AbsMul(t, q);
    FloorUnique(Abs(d), Abs(p), Abs(q));
    FloorUnique(Abs(t), Abs(p), Abs(q));
    assert Abs(d) == Abs(t);
    if d != 0 {
      SignOfProduct(d, q);
      SignOfProduct(t, q);
    }
  }

  lemma FloorUnique(a: nat, n: nat, m: nat)
    requires m > 0
    requires a * m <= n < a * m + m
    ensures a == n / m
  {
    DivBounds(n, m);
    var b := n / m;
    if a < b {
      MulMonotone(a + 1, b, m);
    } else if b < a {
      MulMonotone(b + 1, a, m);
    }
  }

  /** Dividing an exact multiple of `q` by `q` loses nothing. */
  lemma TruncDivOfMultiple(k: int, q: int)
    requires q != 0
    ensures TruncDiv(k * q, q) == k
  {
    TruncDivUnique(k, k * q, q);
  }

  /** Rounding toward zero is symmetric about zero, which Euclidean division
      is not. */
  lemma TruncDivNegate(p: int, q: int)
    requires q != 0
    ensures TruncDiv(-p, q) == -TruncDiv(p, q)
  {
    if p == 0 {
      ZeroDividend(Abs(q));
      assert TruncDiv(p, q) == 0;
    } else {
      var k := Abs(p) / Abs(q);
      assert Abs(-p) == Abs(p);
      assert TruncDiv(-p, q) == (if (-p < 0) == (q < 0) then k else -k);
      assert TruncDiv(p, q) == (if (p < 0) == (q < 0) then k else -k);
    }
  }

  lemma ZeroDividend(m: nat)
    requires m > 0
    ensures 0 / m == 0
  {
  }

  /** On non-negative numerators with a positive divisor the two divisions
      agree; on a negative numerator that the divisor does not divide they
      differ by one. */
  lemma TruncDivVersusEuclidean(p: int, q: int)
    requires q > 0
    ensures p >= 0 ==> TruncDiv(p, q) == p / q
    ensures p < 0 && p % q != 0 ==> TruncDiv(p, q) == p / q + 1
  {
    if p >= 0 {
      NonNegativeQuotient(p, q);
    } else if p % q != 0 {
      NegativeInexactQuotient(p, q);
    }
  }

  lemma NonNegativeQuotient(p: nat, q: nat)
    requires q > 0
    ensures TruncDiv(p, q) == p / q
  {
    var f := p / q;
    DivBounds(p, q);
    MulNonNeg(f, q);
    assert Abs(f * q) == f * q;
    assert IsTruncatedQuotient(f, p, q);
    TruncDivUnique(f, p, q);
  }

  lemma NegativeInexactQuotient(p: int, q: int)
    requires q > 0 && p < 0 && p % q != 0
    ensures TruncDiv(p, q) == p / q + 1
  {
    var f := p / q;
    var r := p % q;
    assert p == f * q + r && 0 < r < q;
    if f >= 0 {
      MulNonNeg(f, q);
      assert false;
    }
    var d := f + 1;
    MulMonotone(d, 0, q);
    assert d * q == f * q + q;
    assert p < d * q <= 0;
    AbsMul(d, q);
    assert IsTruncatedQuotient(d, p, q);
    TruncDivUnique(d, p, q);
  }

  lemma DivMonotone(a: nat, b: nat, q: nat)
    requires q > 0 && a <= b
    ensures a / q <= b / q
  {
    DivBounds(a, q);
    DivBounds(b, q);
    if a / q > b / q {
      MulMonotone(b / q + 1, a / q, q);
    }
  }

  /** For a positive divisor, rounding toward zero keeps the order of the
      numerators. */
  lemma TruncDivMonotone(p1: int, p2: int, q: int)
    requires q > 0 && p1 <= p2
    ensures TruncDiv(p1, q) <= TruncDiv(p2, q)
  {
    if 0 <= p1 {
      NonNegativeQuotient(p1, q);
      NonNegativeQuotient(p2, q);
      DivMonotone(p1, p2, q);
    } else if p2 < 0 {
      NegativeQuotient(p1, q);
      NegativeQuotient(p2, q);
      DivMonotone(-p2, -p1, q);
    } else {
      NegativeQuotient(p1, q);
      NonNegativeQuotient(p2, q);
      DivNonNeg(-p1, q);
      DivNonNeg(p2, q);
    }
  }

  lemma NegativeQuotient(p: int, q: int)
    requires p < 0 && q > 0
    ensures TruncDiv(p, q) == -((-p) / q)
  {
    TruncDivNegate(-p, q);
    NonNegativeQuotient(-p, q);
  }

  lemma DivNonNeg(n: nat, q: nat)
    requires q > 0
    ensures n / q >= 0
  {
    DivBounds(n, q);
    if n / q < 0 {
      MulMonotone(n / q, -1, q);
    }
  }

  /** Clamping a quotient rounded toward zero gives the floating-point
      conversion's result. */
  lemma SaturateTruncDiv(p: int, q: int)
    requires q != 0
    ensures IsSaturatedQuotient(Saturate(TruncDiv(p, q)), p, q)
  {
    var t := TruncDiv(p, q);
    TruncDivRoundsTowardZero(p, q);
    var s := Saturate(t);
    if s != t {
      assert s != 0 && t != 0;
      AbsMul(s, q);
      AbsMul(t, q);
      assert Abs(s) <= Abs(t);
      MulMonotone(Abs(s), Abs(t), Abs(q));
      SignOfProduct(s, q);
      SignOfProduct(t, q);
    }
  }
}
