/**
 * Integer arithmetic as C++ performs it on `int`, and the two-coordinate
 * screen point that the editor passes around.
 *
 * C++ `/` truncates toward zero and `%` takes the sign of the dividend,
 * whereas Dafny's `/` and `%` are Euclidean. Every division or remainder
 * of the editor code goes through TDiv and TRem below. The 32-bit width
 * of `int` is not modelled: all values are unbounded.
 */
module Primitives {

  /** A screen position in pixels, as a QPoint holds it. */
  datatype Point = Point(x: int, y: int)

  datatype Option<T> = None | Some(value: T)

  function Abs(a: int): (r: nat)
    ensures r == a || r == -a
  {
    if a < 0 then -a else a
  }

  lemma MulAtLeast(n: int, a: int, b: int)
    requires n > 0 && a >= b
    ensures n * a >= n * b
  {
  }

  lemma MulSucc(b: int, q: int)
    ensures b * (q + 1) == b * q + b
  {
  }

  /** Euclidean division of a natural number by a positive one stays between 0 and the dividend. */
  lemma {:induction false} DivBounds(a: nat, b: int)
    requires b > 0
    ensures 0 <= a / b <= a
  {
    var q, r := a / b, a % b;
    assert a == b * q + r && 0 <= r < b;
    if q < 0 {
      MulAtLeast(b, -1, q);
    } else if q > a {
      MulAtLeast(b, q, a + 1);
      MulAtLeast(a + 1, b, 1);
    }
  }

  /** C++ `a / b`: the quotient truncated toward zero. */
  function TDiv(a: int, b: int): (q: int)
    requires b != 0
    ensures 0 <= a && 0 < b ==> q == a / b
    ensures 0 < b ==> (0 <= a ==> 0 <= q) && (a <= 0 ==> q <= 0)
  {
    DivBounds(Abs(a), Abs(b));
    var m := Abs(a) / Abs(b);
    if (a < 0) == (b < 0) then m else -m
  }

  /** C++ `a % b`: what is left after TDiv, with the sign of `a`. */
  function TRem(a: int, b: int): (r: int)
    requires b != 0
    ensures a == b * TDiv(a, b) + r
    ensures Abs(r) < Abs(b)
    ensures a >= 0 ==> 0 <= r
    ensures a <= 0 ==> r <= 0
    ensures 0 <= a && 0 < b ==> r == a % b
  {
    TRemBounds(a, b);
    a - b * TDiv(a, b)
  }

  lemma {:induction false} TRemBounds(a: int, b: int)
    requires b != 0
    ensures var r := a - b * TDiv(a, b);
      Abs(r) < Abs(b) && (a >= 0 ==> 0 <= r) && (a <= 0 ==> r <= 0)
  {
    var n: int, m: int := Abs(b), Abs(a);
    var q: int := m / n;
    var t := TDiv(a, b);
    assert t == (if (a < 0) == (b < 0) then q else -q);
    SignedProduct(b, t, n, q);
    SignedRemainder(a, b, b * t, n * q, m % n);
  }

  /** The product of two numbers known up to sign is their magnitudes' product, signed. */
  lemma SignedProduct(b: int, t: int, n: int, q: int)
    requires b == n || b == -n
    requires t == q || t == -q
    ensures b == n && t == q ==> b * t == n * q
    ensures b == -n && t == -q ==> b * t == n * q
    ensures b == n && t == -q ==> b * t == -(n * q)
    ensures b == -n && t == q ==> b * t == -(n * q)
  {
  }

  /**
   * With |a| = p + s and 0 <= s < |b|, taking away a product `bt` of size p
   * and the sign of a leaves a remainder of size s with the sign of a.
   */
  lemma SignedRemainder(a: int, b: int, bt: int, p: int, s: int)
    requires b != 0 && p >= 0 && Abs(a) == p + s && 0 <= s < Abs(b)
    requires a < 0 ==> bt == -p
    requires a >= 0 ==> bt == p
    ensures var r := a - bt;
      Abs(r) < Abs(b) && (a >= 0 ==> 0 <= r) && (a <= 0 ==> r <= 0)
  {
  }

  /** For a positive divisor, a quotient and remainder with the C++ signs are the TDiv and TRem. */
  lemma TDivUnique(a: int, b: int, q: int, r: int)
    requires b > 0 && a == b * q + r
    requires a >= 0 ==> 0 <= r < b
    requires a < 0 ==> -b < r <= 0
    ensures TDiv(a, b) == q && TRem(a, b) == r
  {
    var q', r' := TDiv(a, b), TRem(a, b);
    assert b * q + r == b * q' + r';
    if q > q' {
      MulAtLeast(b, q - q', 1);
    } else if q < q' {
      MulAtLeast(b, q' - q, 1);
    }
  }

  /** Dividing an exact multiple gives back the factor, whatever its sign. */
  lemma TDivOfMultiple(k: int, b: int)
    requires b > 0
    ensures TDiv(k * b, b) == k && TRem(k * b, b) == 0
  {
    assert k * b == b * k + 0;
    TDivUnique(k * b, b, k, 0);
  }

  /** Truncating division by a positive divisor never reverses an order. */
  lemma {:induction false} TDivMonotone(a1: int, a2: int, b: int)
    requires b > 0 && a1 <= a2
    ensures TDiv(a1, b) <= TDiv(a2, b)
  {
    var q1, q2 := TDiv(a1, b), TDiv(a2, b);
    var r1, r2 := TRem(a1, b), TRem(a2, b);
    if a1 < 0 <= a2 {
      assert q1 <= 0 <= q2;
    } else if q1 > q2 {
      MulAtLeast(b, q1, q2 + 1);
      MulSucc(b, q2);
    }
  }

  /** Adding whole multiples of `b` keeps a non-negative value a multiple of `b`. */
  lemma MultipleStep(a: int, b: int, k: int)
    requires b > 0 && a >= 0 && a % b == 0 && a + k * b >= 0
    ensures (a + k * b) % b == 0
  {
    var q := TDiv(a, b);
    assert a == b * q;
    assert a + k * b == (q + k) * b;
    TDivOfMultiple(q + k, b);
  }
}
