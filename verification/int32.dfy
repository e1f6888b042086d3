/**
 * The 32-bit integer semantics the drawing code relies on: the range of
 * `int`, the `(uint32_t)` reinterpretation used for bounds checks, C++'s
 * truncating division, and the 16-bit shifts of the 16.16 fixed-point
 * accumulator.  Dafny's integers are unbounded, so each of these is
 * written out explicitly.
 */
module Int32 {

  const MIN: int := -0x8000_0000
  const MAX: int := 0x7FFF_FFFF
  const MODULUS: int := 0x1_0000_0000

  /** 1.0 in 16.16 fixed point, i.e. `1 << 16`. */
  const ONE: int := 0x1_0000
  /** 0.5 in 16.16 fixed point, the rounding offset `0x8000`. */
  const HALF: int := 0x8000

  predicate InRange(v: int) {
    MIN <= v <= MAX
  }

  function Abs(v: int): nat {
    if v < 0 then -v else v
  }

  /** `(uint32_t)v` for a 32-bit signed `v`: its two's-complement bit pattern read as unsigned. */
  function ToUnsigned(v: int): (u: int)
    requires InRange(v)
    ensures 0 <= u < MODULUS
    ensures u == if v < 0 then v + MODULUS else v
  {
    v % MODULUS
  }

  /**
   * The idiom `(uint32_t)v >= bound` with a non-negative 32-bit `bound`
   * rejects exactly the values outside `[0, bound)`: a negative `v`
   * becomes a value of at least 2^31, above any such bound.
   */
  lemma UnsignedBelow(v: int, bound: int)
    requires InRange(v) && 0 <= bound <= MAX
    ensures ToUnsigned(v) < bound <==> 0 <= v < bound
  {
    if v < 0 {
      assert ToUnsigned(v) == v + MODULUS;
    } else {
      assert ToUnsigned(v) == v;
    }
  }

  /**
   * C++'s `a / b` on `int`: the quotient truncated toward zero.  Its
   * magnitude is the quotient of the magnitudes, and it is negative only
   * when the operands' signs differ.
   */
  function Div(a: int, b: int): (q: int)
    requires b != 0
    ensures Abs(q) == Abs(a) / Abs(b)
    ensures q != 0 ==> (q < 0 <==> (a < 0) != (b < 0))
  {
    var n := Abs(b);
    var q := Abs(a) / n;
    assert (-1) * n < q * n by {
      assert Abs(a) == q * n + Abs(a) % n;
    }
    MulCancel(-1, q, n);
    if (a < 0) == (b < 0) then q else -q
  }

  /**
   * The remainder `a - (a / b) * b` left by truncating division is smaller
   * than the divisor in magnitude and is zero or has the sign of the
   * dividend (C++'s rule for `/` and `%`).
   */
  lemma DivRemainder(a: int, b: int)
    requires b != 0
    ensures Abs(a - Div(a, b) * b) < Abs(b)
    ensures a - Div(a, b) * b == 0 || (a - Div(a, b) * b < 0 <==> a < 0)
  {
    var n := Abs(b);
    var q := Abs(a) / n;
    var d := Div(a, b);
    assert d * b == if a < 0 then -(q * n) else q * n by {
      assert d == if (a < 0) == (b < 0) then q else -q;
      SignedProduct(a < 0, b, q);
    }
    assert Abs(a) == q * n + Abs(a) % n && 0 <= Abs(a) % n < n;
  }

  /** Multiplying `b` by a quotient carrying the combined sign of `a` and `b` gives `|q * b|` with the sign of `a`. */
  lemma SignedProduct(aNeg: bool, b: int, q: int)
    requires b != 0
    ensures (if aNeg == (b < 0) then q else -q) * b == if aNeg then -(q * Abs(b)) else q * Abs(b)
  {
    if b < 0 {
      assert q * b == -(q * Abs(b));
    }
  }

  /** Euclidean division of a non-negative multiple of `p` by `p` is exact. */
  lemma NatDivMultiple(m: nat, p: int)
    requires p > 0
    ensures (m * p) / p == m
  {
    var q, r := (m * p) / p, (m * p) % p;
    assert m * p == q * p + r && 0 <= r < p;
    assert (m - q) * p == r by {
      assert (m - q) * p == m * p - q * p;
    }
    MulCancel(m - q, 1, p);
    MulCancel(-1, m - q, p);
  }

  /** Dividing a multiple of `b` by `b` is exact. */
  lemma DivMultiple(k: int, b: int)
    requires b != 0
    ensures Div(k * b, b) == k
  {
    assert Abs(k * b) == Abs(k) * Abs(b) by {
      if k < 0 && b < 0 {
        assert k * b == (-k) * (-b);
      } else if k < 0 {
        assert k * b == -((-k) * b);
      } else if b < 0 {
        assert k * b == -(k * (-b));
      }
    }
    NatDivMultiple(Abs(k), Abs(b));
    if k != 0 {
      assert (k * b < 0) == ((k < 0) != (b < 0)) by {
        if k < 0 && b < 0 {
          assert k * b == (-k) * (-b);
        } else if k < 0 {
          assert k * b == -((-k) * b);
        } else if b < 0 {
          assert k * b == -(k * (-b));
        }
      }
    }
  }

  /** Multiplication by a non-negative factor preserves `<=`. */
  lemma MulMonotone(x: int, x': int, c: int)
    requires x <= x' && c >= 0
    ensures x * c <= x' * c
  {
    assert x' * c - x * c == (x' - x) * c;
  }

  predicate Between(v: int, a: int, b: int) {
    (a <= v <= b) || (b <= v <= a)
  }

  /** For `0 <= k <= n`, `k * d` lies between `0` and `n * d`. */
  lemma MulBetween(k: int, n: int, d: int)
    requires 0 <= k <= n
    ensures Between(k * d, 0, n * d)
  {
    if d >= 0 {
      MulMonotone(0, k, d);
      MulMonotone(k, n, d);
    } else {
      MulMonotone(0, k, -d);
      MulMonotone(k, n, -d);
      assert k * (-d) == -(k * d) && n * (-d) == -(n * d);
    }
  }

  /** A positive factor can be cancelled from a strict inequality. */
  lemma MulCancel(x: int, y: int, c: int)
    requires c > 0 && x * c < y * c
    ensures x < y
  {
    if y <= x {
      MulMonotone(y, x, c);
    }
  }

  /** Truncating division is odd in the dividend. */
  lemma DivNegate(a: int, b: int)
    requires b != 0
    ensures Div(-a, b) == -Div(a, b)
  {
    assert Abs(-a) == Abs(a);
    if a == 0 {
      assert Abs(a) / Abs(b) == 0;
    }
  }

  /** Truncating division by a positive divisor keeps the sign of the dividend (or yields 0). */
  lemma DivSign(a: int, b: int)
    requires b > 0
    ensures a >= 0 ==> Div(a, b) >= 0
    ensures a < 0 ==> Div(a, b) <= 0
  {
    var q := Abs(a) / b;
    assert 0 * b < (q + 1) * b by {
      assert Abs(a) == q * b + Abs(a) % b;
      assert (q + 1) * b == q * b + b;
    }
    MulCancel(0, q + 1, b);
  }

  /** For a non-negative dividend and a positive divisor, truncating division is monotone. */
  lemma DivMonotone(a: int, a': int, b: int)
    requires 0 <= a <= a' && b > 0
    ensures Div(a, b) <= Div(a', b)
  {
    var q, q' := a / b, a' / b;
    assert Div(a, b) == q && Div(a', b) == q';
    assert q * b <= a by { assert a == q * b + a % b; }
    assert a' < (q' + 1) * b by { assert a' == q' * b + a' % b; }
    MulCancel(q, q' + 1, b);
  }

  /** `>> 16` on a signed value: an arithmetic shift, i.e. floor division by 2^16. */
  function Sar16(v: int): (r: int)
    ensures r * ONE <= v < r * ONE + ONE
  {
    v / ONE
  }

  /** `<< 16`: multiplication by 2^16 (the callers keep the result within 32 bits). */
  function Shl16(v: int): (r: int)
    ensures r / ONE == v && r % ONE == 0
  {
    v * ONE
  }

  /** Shifting a fixed-point value with integer part `c` and fraction `r` right by 16 yields `c`. */
  lemma Sar16Of(c: int, r: int)
    requires 0 <= r < ONE
    ensures Sar16(Shl16(c) + r) == c
  {
    var v := Shl16(c) + r;
    var q := v / ONE;
    assert v == q * ONE + v % ONE;
    assert (c - q) * ONE == v % ONE - r;
    assert (c - q) * ONE < 1 * ONE && (-1) * ONE < (c - q) * ONE;
    MulCancel(c - q, 1, ONE);
    MulCancel(-1, c - q, ONE);
  }

  lemma Sar16Monotone(a: int, b: int)
    requires a <= b
    ensures Sar16(a) <= Sar16(b)
  {
    var q, q' := a / ONE, b / ONE;
    assert q * ONE <= a by { assert a == q * ONE + a % ONE; }
    assert b < (q' + 1) * ONE by { assert b == q' * ONE + b % ONE; }
    MulCancel(q, q' + 1, ONE);
  }

  /** Two accumulator values at most 1.0 apart shift to integers at most 1 apart. */
  lemma Sar16Close(a: int, b: int)
    requires Abs(a - b) <= ONE
    ensures Abs(Sar16(a) - Sar16(b)) <= 1
  {
    var lo := if a <= b then a else b;
    var hi := if a <= b then b else a;
    Sar16Monotone(lo, hi);
    Sar16Monotone(hi, lo + ONE);
    assert lo == Shl16(Sar16(lo)) + lo % ONE;
    assert lo + ONE == Shl16(Sar16(lo) + 1) + lo % ONE;
    Sar16Of(Sar16(lo) + 1, lo % ONE);
  }
}
