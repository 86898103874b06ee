/** The modular arithmetic the proofs are written in: `big.Int.Exp`, the
    `common.ModInt` helpers (exponentiation with signed exponents, `MulExp`,
    `ExpMulExp`), `big.Int.Sqrt`, `big.Int.GCD` and `big.Int.ModInverse`,
    with the algebraic laws the completeness proofs need. */
module ModArith {
  import opened Common

  /** Integer power `b^e`. */
  function Pow(b: int, e: nat): int
    decreases e
  {
    if e == 0 then 1 else b * Pow(b, e - 1)
  }

  lemma {:induction false} PowAdd(b: int, i: nat, j: nat)
    ensures Pow(b, i + j) == Pow(b, i) * Pow(b, j)
    decreases j
  {
    if j > 0 {
      PowAdd(b, i, j - 1);
      calc {
        Pow(b, i + j);
        b * Pow(b, i + (j - 1));
        b * (Pow(b, i) * Pow(b, j - 1));
        Pow(b, i) * (b * Pow(b, j - 1));
      }
    }
  }

  lemma {:induction false} PowMul(b: int, i: nat, j: nat)
    ensures Pow(Pow(b, i), j) == Pow(b, i * j)
    decreases j
  {
    if j > 0 {
      PowMul(b, i, j - 1);
      PowAdd(b, i, i * (j - 1));
      assert i + i * (j - 1) == i * j;
    }
  }

  lemma Swap4(a: int, b: int, c: int, d: int)
    ensures (a * b) * (c * d) == (a * c) * (b * d)
  {
    calc {
      (a * b) * (c * d);
      a * (b * (c * d));
      a * ((b * c) * d);
      a * ((c * b) * d);
      a * (c * (b * d));
      (a * c) * (b * d);
    }
  }
  lemma {:induction false} PowProduct(x: int, y: int, n: nat)
    ensures Pow(x, n) * Pow(y, n) == Pow(x * y, n)
    decreases n
  {
    if n > 0 {
      PowProduct(x, y, n - 1);
      Swap4(x, Pow(x, n - 1), y, Pow(y, n - 1));
    }
  }
  lemma {:induction false} PowOne(n: nat)
    ensures Pow(1, n) == 1
  {
    if n > 0 { PowOne(n - 1); }
  }

  lemma MulAtLeast(d: int, m: int)
    requires m > 0 && d >= 1
    ensures d * m >= m
  {
    assert d * m == (d - 1) * m + m;
    assert (d - 1) * m >= 0;
  }

  /** Euclidean division is determined by quotient and remainder. */
  lemma ModUnique(x: int, m: int, q: int, r: int)
    requires m > 0 && 0 <= r < m && x == q * m + r
    ensures x / m == q && x % m == r
  {
    var q', r' := x / m, x % m;
    assert x == q' * m + r';
    var d := q - q';
    assert d * m == r' - r by {
      assert d * m == q * m - q' * m;
    }
    if d >= 1 {
      MulAtLeast(d, m);
    } else if d <= -1 {
      MulAtLeast(-d, m);
    }
  }

  lemma ModAddMultiple(x: int, k: int, m: int)
    requires m > 0
    ensures (x + k * m) % m == x % m
  {
    var q := x / m;
    assert x + k * m == (q + k) * m + x % m by {
      assert (q + k) * m == q * m + k * m;
    }
    ModUnique(x + k * m, m, q + k, x % m);
  }

  lemma MulModLeft(a: int, b: int, m: int)
    requires m > 0
    ensures (a * b) % m == ((a % m) * b) % m
  {
    var qa, ra := a / m, a % m;
    assert a * b == ra * b + (qa * b) * m by {
      assert a == qa * m + ra;
      assert (qa * m + ra) * b == qa * m * b + ra * b;
    }
    ModAddMultiple(ra * b, qa * b, m);
  }

  lemma MulMod(a: int, b: int, m: int)
    requires m > 0
    ensures (a * b) % m == ((a % m) * (b % m)) % m
  {
    MulModLeft(a, b, m);
    MulModLeft(b, a % m, m);
    assert b * (a % m) == (a % m) * b;
    assert (b % m) * (a % m) == (a % m) * (b % m);
  }

  lemma ModMod(a: int, m: int)
    requires m > 0
    ensures (a % m) % m == a % m
  {
    ModUnique(a % m, m, 0, a % m);
  }
  lemma {:induction false} PowMod(b: int, e: nat, m: int)
    requires m > 0
    ensures Pow(b % m, e) % m == Pow(b, e) % m
    decreases e
  {
    if e > 0 {
      PowMod(b, e - 1, m);
      var pr, p := Pow(b % m, e - 1), Pow(b, e - 1);
      assert Pow(b % m, e) == (b % m) * pr;
      assert Pow(b, e) == b * p;
      MulMod(b % m, pr, m);
      MulMod(b, p, m);
      ModMod(b, m);
    }
  }

  /** A power of a number congruent to 1 is congruent to 1. */
  lemma PowOfOne(x: int, n: nat, m: int)
    requires m > 0 && x % m == 1 % m
    ensures Pow(x, n) % m == 1 % m
  {
    PowMod(x, n, m);
    PowMod(1, n, m);
    PowOne(n);
  }

  /** `new(big.Int).Exp(b, e, m)` for a non-negative exponent and a positive
      modulus: the least non-negative residue of `b^e`. */
  function ModPow(b: int, e: nat, m: int): (r: int)
    requires m > 0
    ensures 0 <= r < m
  {
    Pow(b, e) % m
  }

  /** Doubling the floor root of `n / 4` brackets the root of `n`. */
  lemma SqrtQuarter(n: nat, h: nat, r: nat)
    requires h * h <= n / 4 < (h + 1) * (h + 1) && r == 2 * h
    ensures r * r <= n < (r + 2) * (r + 2)
  {
    var k, hh, hp := n / 4, h * h, (h + 1) * (h + 1);
    assert n == 4 * k + n % 4;
    assert r * r == 4 * hh by {
      assert r * r == (2 * h) * (2 * h);
    }
    assert (r + 2) * (r + 2) == 4 * hp by {
      assert r + 2 == 2 * (h + 1);
    }
  }

  /** `big.Int.Sqrt`: the floor of the square root. */
  function FloorSqrt(n: nat): (r: nat)
    ensures r * r <= n < (r + 1) * (r + 1)
    decreases n
  {
    if n < 2 then n
    else
      var h := FloorSqrt(n / 4);
      var r := 2 * h;
      SqrtQuarter(n, h, r);
      if (r + 1) * (r + 1) <= n then r + 1 else r
  }

  /** Result of the extended Euclidean algorithm: `g` and Bezout coefficients. */
  datatype Bezout = Bezout(g: nat, x: int, y: int)

  lemma DivisorOfSum(a: int, b: nat, g: nat)
    requires b > 0 && g > 0 && b % g == 0 && (a % b) % g == 0
    ensures a % g == 0
  {
    var k1, k2 := b / g, (a % b) / g;
    assert b == g * k1 && a % b == g * k2;
    assert a == (a / b) * b + a % b;
    assert a == ((a / b) * k1 + k2) * g;
    ModUnique(a, g, (a / b) * k1 + k2, 0);
  }

  /** One step of extended Euclid: coefficients for `(b, a - k*b)` give
      coefficients for `(a, b)`. */
  lemma BezoutStep(a: int, b: int, k: int, c: int, x: int, y: int)
    requires c == a - k * b
    ensures a * y + b * (x - k * y) == b * x + c * y
  {
    assert b * (x - k * y) == b * x - (b * k) * y;
    assert (a - k * b) * y == a * y - (k * b) * y;
  }

  /** Extended Euclid, as `big.Int.GCD(x, y, a, b)`: `a*x + b*y == g` where
      `g` divides both inputs (and is positive unless both are zero). */
  function ExtGcd(a: nat, b: nat): (r: Bezout)
    ensures a * r.x + b * r.y == r.g
    ensures (a > 0 || b > 0) ==> r.g > 0 && a % r.g == 0 && b % r.g == 0
    decreases b
  {
    if b == 0 then Bezout(a, 1, 0)
    else
      var k, c := a / b, a % b;
      var inner := ExtGcd(b, c);
      BezoutStep(a, b, k, c, inner.x, inner.y);
      DivisorOfSum(a, b, inner.g);
      Bezout(inner.g, inner.y, inner.x - k * inner.y)
  }

  lemma InverseFromBezout(v: int, x: int, y: int, m: int)
    requires m > 0 && (v % m) * x + m * y == 1
    ensures (v * (x % m)) % m == 1 % m
  {
    MulMod(v, x % m, m);
    ModMod(x, m);
    MulMod(v % m, x, m);
    ModMod(v, m);
    assert m * y == y * m;
    ModAddMultiple((v % m) * x, y, m);
  }

  /** `new(big.Int).ModInverse(v, m)`: the inverse of `v` modulo `m` in
      `[0, m)`, or nil when `v` is not invertible. */
  function ModInverse(v: int, m: int): (r: Option<int>)
    requires m > 0
    ensures r.Some? ==> 0 <= r.value < m && (v * r.value) % m == 1 % m
  {
    var bz := ExtGcd(v % m, m);
    if bz.g == 1 then
      InverseFromBezout(v, bz.x, bz.y, m);
      Some(bz.x % m)
    else None
  }

  lemma UnitDivisor(g: nat, c: int)
    requires g > 0 && g * c == 1
    ensures g == 1
  {
    if c >= 1 {
      MulAtLeast(c, g);
    }
  }

  /** A common divisor of `m > 1` and of a residue invertible modulo `m` is 1. */
  lemma CommonDivisorOfUnit(a: int, y: int, m: int, g: int)
    requires m > 1 && g > 0 && a % g == 0 && m % g == 0 && (a * y) % m == 1
    ensures g == 1
  {
    var c1, c2 := a / g, m / g;
    assert a == g * c1 && m == g * c2;
    var k := (a * y) / m;
    assert a * y == k * m + 1;
    assert a * y == g * (c1 * y) by {
      assert a * y == (g * c1) * y;
    }
    assert k * m == g * (k * c2) by {
      assert k * m == k * (g * c2);
    }
    assert g * (c1 * y - k * c2) == 1 by {
      assert g * (c1 * y - k * c2) == g * (c1 * y) - g * (k * c2);
    }
    UnitDivisor(g, c1 * y - k * c2);
  }

  /** Every invertible residue has its inverse found. */
  lemma ModInverseComplete(v: int, y: int, m: int)
    requires m > 0 && (v * y) % m == 1 % m
    ensures ModInverse(v, m).Some?
  {
    var g := ExtGcd(v % m, m).g;
    if m == 1 {
      assert m == g * (m / g);
      UnitDivisor(g, m / g);
    } else {
      MulModLeft(v, y, m);
      ModUnique(1, m, 0, 1);
      CommonDivisorOfUnit(v % m, y, m, g);
    }
  }

  /** Two inverses of the same residue are equal. */
  lemma InverseUnique(v: int, y1: int, y2: int, m: int)
    requires m > 0 && 0 <= y1 < m && 0 <= y2 < m
    requires (v * y1) % m == 1 % m && (v * y2) % m == 1 % m
    ensures y1 == y2
  {
    if m > 1 {
      ModUnique(1, m, 0, 1);
      ModUnique(y1, m, 0, y1);
      ModUnique(y2, m, 0, y2);
      MulModLeft(v * y1, y2, m);
      MulModLeft(v * y2, y1, m);
      assert (v * y1) * y2 == (v * y2) * y1;
    }
  }
  /** `ModInt(m).Exp(b, e)` for a signed exponent: a negative exponent
      raises the modular inverse; nil when the base is not invertible. */
  function ExpInt(b: int, e: int, m: int): (r: Option<int>)
    requires m > 0
    ensures e >= 0 ==> r == Some(ModPow(b, e, m))
    ensures r.Some? ==> 0 <= r.value < m
  {
    if e >= 0 then Some(ModPow(b, e, m))
    else
      match ModInverse(b, m)
      case None => None
      case Some(bi) => Some(ModPow(bi, -e, m))
  }

  /** `ModInt(m).MulExp(a, b, e)`: `a * b^e mod m`. */
  function MulExp(a: int, b: int, e: int, m: int): (r: Option<int>)
    requires m > 0
    ensures r.Some? <==> ExpInt(b, e, m).Some?
    ensures r.Some? ==> r.value == (a * ExpInt(b, e, m).value) % m
  {
    match ExpInt(b, e, m)
    case None => None
    case Some(be) => Some((a * be) % m)
  }

  /** `ModInt(m).ExpMulExp(a, x, b, y)`: `a^x * b^y mod m`. */
  function ExpMulExp(a: int, x: int, b: int, y: int, m: int): (r: Option<int>)
    requires m > 0
    ensures r.Some? <==> ExpInt(a, x, m).Some? && ExpInt(b, y, m).Some?
    ensures r.Some? ==> r.value == (ExpInt(a, x, m).value * ExpInt(b, y, m).value) % m
  {
    match (ExpInt(a, x, m), ExpInt(b, y, m))
    case (Some(ax), Some(bY)) => Some((ax * bY) % m)
    case _ => None
  }
}
