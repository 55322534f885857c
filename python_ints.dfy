/** The integer semantics of the few Python numeric operators that the
    size estimates rely on: powers of two, `int(a / d)` (true division
    truncated toward zero) and floor division `//`. */
module PythonInts {

  /** 2**53: every integer of magnitude at most this is an exact double, so
      `a / 2**i` is computed without rounding for such `a`. */
  const MAX_EXACT_INT: int := 9007199254740992

  /** `2**i` for a non-negative exponent. */
  function Pow2(i: nat): (r: nat)
    ensures r >= 1
  {
    if i == 0 then 1 else 2 * Pow2(i - 1)
  }

  lemma {:induction false} Pow2Add(i: nat, j: nat)
    ensures Pow2(i + j) == Pow2(i) * Pow2(j)
  {
    if j > 0 {
      Pow2Add(i, j - 1);
    }
  }

  lemma MaxExactIntIsPow2()
    ensures MAX_EXACT_INT == Pow2(53)
  {
    assert Pow2(3) == 8 && Pow2(5) == 32;
    Pow2Add(5, 5);
    assert Pow2(10) == 1024;
    Pow2Add(10, 10);
    assert Pow2(20) == 1048576;
    Pow2Add(20, 20);
    assert Pow2(40) == 1099511627776;
    Pow2Add(40, 10);
    assert Pow2(50) == 1125899906842624;
    Pow2Add(50, 3);
  }

  lemma {:induction false} Pow2Monotone(i: nat, j: nat)
    requires i <= j
    ensures Pow2(i) <= Pow2(j)
  {
    if i < j {
      Pow2Monotone(i, j - 1);
    }
  }

  /** Dafny's `/` on a non-negative dividend brackets it between two
      consecutive multiples of the divisor. */
  lemma DivBounds(a: int, d: int)
    requires 0 <= a && 0 < d
    ensures 0 <= a / d && (a / d) * d <= a < (a / d + 1) * d
  {
    var q := a / d;
    assert a == q * d + a % d;
    assert (q + 1) * d == q * d + d;
  }

  /** Python `int(a / d)` for a quotient that is exact: the quotient rounded
      toward zero. */
  function TruncDiv(a: int, d: int): (q: int)
    requires d > 0
    ensures 0 <= a ==> 0 <= q && q * d <= a < (q + 1) * d
    ensures a < 0 ==> q <= 0 && (q - 1) * d < a <= q * d
  {
    if a >= 0 then
      DivBounds(a, d);
      a / d
    else
      DivBounds(-a, d);
      var m := (-a) / d;
      assert (-m) * d == -(m * d);
      assert (-m - 1) * d == -((m + 1) * d);
      -m
  }

  /** The truncated quotient reaches a positive bound `c` exactly when the
      dividend reaches `c` times the divisor. */
  lemma TruncDivAtLeast(a: int, d: int, c: int)
    requires 0 < d && 0 < c
    ensures c <= TruncDiv(a, d) <==> c * d <= a
  {
    var q := TruncDiv(a, d);
    if c <= q {
      MulMonotone(c, q, d);
    } else if 0 <= a {
      MulMonotone(q + 1, c, d);
    }
  }

  /** `q` is `a / b` rounded toward negative infinity. */
  predicate IsFloorQuotient(q: int, a: int, b: int) {
    (0 < b ==> q * b <= a < (q + 1) * b) && (b < 0 ==> (q + 1) * b < a <= q * b)
  }

  /** Python `a // b`: the quotient rounded toward negative infinity. Dafny's
      `/` rounds so that the remainder is non-negative, which agrees only for
      a positive divisor. */
  function FloorDiv(a: int, b: int): (q: int)
    requires b != 0
    ensures IsFloorQuotient(q, a, b)
  {
    if b > 0 then a / b else (-a) / (-b)
  }

  /** A multiple of a positive `d` strictly between `-d` and `d` is zero. */
  lemma SmallMultipleIsZero(x: int, d: int)
    requires 0 < d && -d < x * d < d
    ensures x == 0
  {
  }

  /** A multiple of a positive `d` below `d` has a non-positive factor. */
  lemma MultipleBelowDivisor(x: int, d: int)
    requires 0 < d && x * d < d
    ensures x <= 0
  {
  }

  lemma MulMonotone(a: int, b: int, c: int)
    requires a <= b && 0 <= c
    ensures a * c <= b * c
  {
  }

  /** Division is determined by its quotient-remainder decomposition. */
  lemma DivUnique(n: int, d: int, q: int, r: int)
    requires 0 < d && 0 <= r < d && n == q * d + r
    ensures n / d == q && n % d == r
  {
    var q', r' := n / d, n % d;
    assert (q - q') * d == r' - r;
    SmallMultipleIsZero(q - q', d);
  }

  lemma DivMonotone(a: int, b: int, d: int)
    requires 0 < d && a <= b
    ensures a / d <= b / d
  {
    var qa, qb := a / d, b / d;
    assert (qa - qb) * d == (a - b) - (a % d - b % d);
    MultipleBelowDivisor(qa - qb, d);
  }

  /** Dividing by `a` and then by `b` is dividing by `a * b`. */
  lemma DivDiv(n: int, a: int, b: int)
    requires 0 < a && 0 < b
    ensures n / (a * b) == (n / a) / b
  {
    var q, r := n / a, n % a;
    var q2, r2 := q / b, q % b;
    assert n == q * a + r;
    assert q * a == (q2 * b + r2) * a;
    assert (q2 * b + r2) * a == q2 * (a * b) + r2 * a;
    MulMonotone(r2, b - 1, a);
    assert (b - 1) * a == a * b - a;
    DivUnique(n, a * b, q2, r2 * a + r);
  }

  /** `n // 2**(i+1)` is `(n // 2) // 2**i`. */
  lemma HalveThenDivide(n: int, i: nat)
    ensures n / Pow2(i + 1) == (n / 2) / Pow2(i)
  {
    DivDiv(n, 2, Pow2(i));
  }

  /** `int(a / d)` never decreases as `a` grows. */
  lemma TruncDivMonotone(a: int, b: int, d: int)
    requires 0 < d && a <= b
    ensures TruncDiv(a, d) <= TruncDiv(b, d)
  {
    if 0 <= a {
      DivMonotone(a, b, d);
    } else if b < 0 {
      DivMonotone(-b, -a, d);
    }
  }

  /** A larger divisor never gives a larger quotient of a non-negative number. */
  lemma DivisorAntitone(n: int, d1: int, d2: int)
    requires 0 <= n && 0 < d1 <= d2
    ensures n / d2 <= n / d1
  {
    var q1, q2 := n / d1, n / d2;
    DivBounds(n, d1);
    DivBounds(n, d2);
    MulMonotone(d1, d2, q2);
    assert (q2 - q1) * d1 == q2 * d1 - q1 * d1;
    MultipleBelowDivisor(q2 - q1, d1);
  }

  /** Only one integer is the floor of a quotient. */
  lemma FloorQuotientUnique(q: int, a: int, b: int)
    requires b != 0 && IsFloorQuotient(q, a, b)
    ensures q == FloorDiv(a, b)
  {
    var p := FloorDiv(a, b);
    if 0 < b {
      assert (q - p + 1) * b == (q * b + b) - p * b;
      assert (p - q + 1) * b == (p * b + b) - q * b;
      MultipleBelowDivisor(q - p, b);
      MultipleBelowDivisor(p - q, b);
    } else {
      assert (q - p) * -b == p * b - q * b;
      assert (p - q) * -b == q * b - p * b;
      MultipleBelowDivisor(q - p, -b);
      MultipleBelowDivisor(p - q, -b);
    }
  }

  /** A quotient below `c` whenever the dividend is below `c` divisors. */
  lemma DivBelow(a: int, c: int, d: int)
    requires 0 < d && a < c * d
    ensures a / d < c
  {
    assert (a / d - c + 1) * d == (a / d) * d - c * d + d;
    MultipleBelowDivisor(a / d - c + 1, d);
  }
}
