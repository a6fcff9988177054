/** Java's integer operators and the `(int)` cast of a `double`, written out
    over Dafny's unbounded integers and exact reals. */
module JavaArith {

  const IntMax: int := 0x7fff_ffff
  const IntMin: int := -0x8000_0000

  function Abs(x: int): nat {
    if x < 0 then -x else x
  }

  /** Java's `a / b` on `int`: the quotient rounds toward zero. */
  function Div(a: int, b: int): (q: int)
    requires b != 0
    ensures a >= 0 && b > 0 ==> q == a / b
  {
    var q := Abs(a) / Abs(b);
    if (a < 0) != (b < 0) then -q else q
  }

  /** Java's `a % b` on `int`: the remainder takes the sign of `a`. */
  function Rem(a: int, b: int): (r: int)
    requires b != 0
    ensures a >= 0 && b > 0 ==> r == a % b
  {
    a - b * Div(a, b)
  }

  /** Java's `(int)` cast of a `double` in range: drops the fraction, toward zero. */
  function Trunc(x: real): (r: int)
    ensures x >= 0.0 ==> r as real <= x < r as real + 1.0
    ensures x < 0.0 ==> r as real - 1.0 < x <= r as real
  {
    if x >= 0.0 then x.Floor else -((-x).Floor)
  }

  /** Truncating a real that lies between two integers stays between them. */
  lemma TruncBetween(x: real, lo: int, hi: int)
    requires lo as real <= x <= hi as real
    ensures lo <= Trunc(x) <= hi
  {
  }

  /** Truncating a non-negative quotient is Dafny's integer division. */
  lemma TruncQuotient(a: int, b: int)
    requires a >= 0 && b > 0
    ensures Trunc(a as real / b as real) == a / b
  {
    var q, rem := a / b, a % b;
    assert a == q * b + rem && 0 <= rem < b;
    var f := rem as real / b as real;
    assert 0.0 <= f < 1.0;
    assert a as real == q as real * b as real + rem as real;
    RealSplit(a as real, q as real, rem as real, b as real);
  }

  lemma RealSplit(x: real, q: real, r: real, b: real)
    requires b > 0.0 && x == q * b + r
    ensures x / b == q + r / b
  {
  }

  /** Negating both operands leaves Java's quotient unchanged. */
  lemma DivNegateBoth(a: int, b: int)
    requires b != 0
    ensures Div(-a, -b) == Div(a, b)
  {
    var x, y := Abs(a), Abs(b);
    assert Abs(-a) == x && Abs(-b) == y;
    if a == 0 {
      ZeroQuotient(y);
      assert Div(a, b) == 0 == Div(-a, -b);
    } else {
      assert (-a < 0) != (-b < 0) <==> (a < 0) != (b < 0);
    }
  }

  lemma ZeroQuotient(y: int)
    requires y > 0
    ensures 0 / y == 0
  {
  }

  // Facts about multiplication and division that the proofs lean on.

  lemma Euclid(a: int, n: int)
    requires n > 0
    ensures a == n * (a / n) + a % n && 0 <= a % n < n
  {
  }

  /** Euclidean quotient and remainder are unique. */
  lemma DivModUnique(x: int, s: int, q: int, r: int)
    requires s > 0 && x == q * s + r && 0 <= r < s
    ensures x / s == q && x % s == r
  {
    var k := x / s - q;
    assert s * k == r - x % s;
  }

  lemma MulNonNegative(a: int, b: int)
    requires a >= 0 && b >= 0
    ensures a * b >= 0
  {
  }

  /** `n * q` with `q` non-negative and the next multiple is `n` more. */
  lemma MulSuccessor(n: int, q: int)
    ensures n * (q + 1) == n * q + n
  {
  }

  lemma MulAdd(a: int, b: int, n: int)
    ensures (a + b) * n == a * n + b * n
  {
  }

  lemma MulBothPositive(a: int, b: int)
    requires a > 0 && b > 0
    ensures a * b > 0
  {
  }

  lemma MulPositive(n: int, d: int)
    requires n > 0 && n * d > 0
    ensures d > 0
  {
  }

  lemma MulStrict(n: int, x: int, y: int)
    requires n > 0 && n * x < n * y
    ensures x < y
  {
    assert n * (y - x) == n * y - n * x;
    MulPositive(n, y - x);
  }

  /** A quotient of a value between `n * lo` and `n * hi` by `n` lies between
      `lo` and `hi`. */
  lemma DivBetween(a: int, n: int, lo: int, hi: int)
    requires n > 0 && n * lo <= a <= n * hi
    ensures lo <= a / n <= hi
  {
    var q := a / n;
    assert a == n * q + a % n;
    assert n * (q + 1) == n * q + n;
    MulStrict(n, lo, q + 1);
    MulStrict(n, q, hi + 1);
  }

  /** Division by a positive divisor is monotone. */
  lemma DivMonotone(a: int, b: int, n: int)
    requires n > 0 && a <= b
    ensures a / n <= b / n
  {
    Euclid(a, n);
    Euclid(b, n);
    assert n * (b / n + 1) == n * (b / n) + n;
    MulStrict(n, a / n, b / n + 1);
  }
}
