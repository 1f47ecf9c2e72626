/**
 * The C integer semantics the sketch relies on: the widths of `int`/`long`
 * (32 bits on the ESP32 target) and of the battery reading (16 bits), and
 * the `/` operator, which truncates toward zero (section 6.5.5 of the C
 * standard, C99) where Dafny's `/` on `int` is Euclidean.
 */
module CArith {

  const INT32_MIN: int := -0x8000_0000
  const INT32_MAX: int := 0x7FFF_FFFF
  const INT16_MIN: int := -0x8000
  const INT16_MAX: int := 0x7FFF

  predicate IsInt32(x: int) { INT32_MIN <= x <= INT32_MAX }

  predicate IsInt16(x: int) { INT16_MIN <= x <= INT16_MAX }

  function Abs(x: int): nat { if x < 0 then -x else x }

  /** q is the quotient of a by b rounded toward zero: the remainder a - b * q
      is smaller than b in magnitude and never has the opposite sign of a. */
  ghost predicate IsTruncQuotient(a: int, b: int, q: int) {
    var rem := a - b * q;
    Abs(rem) < Abs(b) && (a >= 0 ==> rem >= 0) && (a <= 0 ==> rem <= 0)
  }

  /** C's `a / b`: the algebraic quotient with any fractional part discarded. */
  function TruncDiv(a: int, b: int): (q: int)
    requires b != 0
    ensures IsTruncQuotient(a, b, q)
  {
    var m := Abs(a) / Abs(b);
    var q := if (a < 0) == (b < 0) then m else -m;
    SignedQuotient(a, b, m, q);
    q
  }

  /** The quotient of the magnitudes, given the sign of the true quotient, is
      the truncated quotient. */
  lemma SignedQuotient(a: int, b: int, m: int, q: int)
    requires b != 0
    requires m == Abs(a) / Abs(b)
    requires q == if (a < 0) == (b < 0) then m else -m
    ensures IsTruncQuotient(a, b, q)
  {
    var r := Abs(a) % Abs(b);
    EuclidDivMod(Abs(a), Abs(b));
    if b > 0 {
      RemainderOfSigned(if a >= 0 then a else -a, b, m, r);
    } else {
      RemainderOfSigned(if a >= 0 then a else -a, -b, m, r);
    }
  }

  lemma EuclidDivMod(x: int, y: int)
    requires x >= 0 && y > 0
    ensures x == y * (x / y) + x % y && 0 <= x % y < y
  {
  }

  /** The four sign cases of SignedQuotient, stated on magnitudes x and y. */
  lemma RemainderOfSigned(x: int, y: int, m: int, r: int)
    requires x >= 0 && y > 0 && x == y * m + r && 0 <= r < y
    ensures IsTruncQuotient(x, y, m) && IsTruncQuotient(x, -y, -m)
    ensures IsTruncQuotient(-x, y, -m) && IsTruncQuotient(-x, -y, m)
  {
    MulNegate(y, m);
    assert x - y * m == r;
    assert x - (-y) * (-m) == r;
    assert -x - y * (-m) == -r;
    assert -x - (-y) * m == -r;
  }

  lemma MulNegate(x: int, y: int)
    ensures x * -y == -(x * y) && -x * y == -(x * y) && -x * -y == x * y
  {
  }

  /** A nonzero multiple of b is at least b in magnitude. */
  lemma MultipleMagnitude(b: int, k: int)
    requires k != 0
    ensures Abs(b * k) >= Abs(b)
  {
    MulNegate(b, k);
    if b < 0 && k > 0 {
      MulMonotone(-b, 1, k);
    } else if b < 0 {
      MulMonotone(-b, 1, -k);
    } else if k > 0 {
      MulMonotone(b, 1, k);
    } else {
      MulNegate(b, k);
      MulMonotone(b, 1, -k);
    }
  }

  /** The truncated quotient is unique, so IsTruncQuotient specifies C's `/`
      completely. */
  lemma TruncQuotientUnique(a: int, b: int, q: int)
    requires b != 0
    requires IsTruncQuotient(a, b, q)
    ensures q == TruncDiv(a, b)
  {
    var q' := TruncDiv(a, b);
    if q != q' {
      MultipleMagnitude(b, q' - q);
    }
  }

  /** An exact division truncates to the exact quotient. */
  lemma TruncDivExact(b: int, k: int)
    requires b != 0
    ensures TruncDiv(b * k, b) == k
  {
    assert b * k - b * k == 0;
    TruncQuotientUnique(b * k, b, k);
  }

  /** Multiplying by a non-negative factor keeps the order. */
  lemma MulMonotone(c: int, x: int, y: int)
    requires c >= 0 && x <= y
    ensures c * x <= c * y
  {
    assert c * y - c * x == c * (y - x);
  }

  /** Euclidean division by a positive divisor is monotone in the dividend. */
  lemma EuclidDivMonotone(x: int, y: int, b: int)
    requires x <= y && b > 0
    ensures x / b <= y / b
  {
    if x / b > y / b {
      MulMonotone(b, y / b + 1, x / b);
    }
  }

  /** C's `/` by a positive divisor is monotone in the dividend. */
  lemma TruncDivMonotone(x: int, y: int, b: int)
    requires x <= y && b > 0
    ensures TruncDiv(x, b) <= TruncDiv(y, b)
  {
    TruncDivByPositive(x, b);
    TruncDivByPositive(y, b);
    if x >= 0 {
      EuclidDivMonotone(x, y, b);
    } else if y < 0 {
      EuclidDivMonotone(-y, -x, b);
    } else {
      EuclidDivMonotone(0, -x, b);
      EuclidDivMonotone(0, y, b);
    }
  }

  /** By a positive divisor C's `/` is Dafny's `/` mirrored about zero. */
  lemma TruncDivByPositive(a: int, b: int)
    requires b > 0
    ensures TruncDiv(a, b) == if a >= 0 then a / b else -((-a) / b)
  {
  }

  /** For a non-negative dividend and a positive divisor C's `/` and Dafny's
      `/` agree. */
  lemma TruncDivNonNegative(a: int, b: int)
    requires a >= 0 && b > 0
    ensures TruncDiv(a, b) == a / b
  {
  }

  /** The quotient is never larger in magnitude than the dividend. */
  lemma TruncDivShrinks(a: int, b: int)
    requires b != 0
    ensures Abs(TruncDiv(a, b)) <= Abs(a)
  {
    var m := Abs(a) / Abs(b);
    assert Abs(TruncDiv(a, b)) == m;
    EuclidDivMod(Abs(a), Abs(b));
    MulMonotone(m, 1, Abs(b));
    assert m * Abs(b) == Abs(b) * m;
  }
}
