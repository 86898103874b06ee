/** Signed exponentiation modulo `m` of an invertible base, as
    `ModInt(m).Exp` computes it (a negative exponent raises the inverse), and
    the group laws it obeys. They let the no-small-factor proof be argued at
    the level of exponent pairs: `s^i * t^j` behaves like the pair `(i, j)`. */
module SignedPower {
  import opened Common
  import opened ModArith

  /** `b` has an inverse modulo `m`. */
  predicate Unit(b: int, m: int)
    requires m > 0
  {
    ModInverse(b, m).Some?
  }

  function Inv(b: int, m: int): (c: int)
    requires m > 0 && Unit(b, m)
    ensures 0 <= c < m && (b * c) % m == 1 % m
  {
    ModInverse(b, m).value
  }

  /** `b^k mod m` for any integer `k`; the value `ExpInt` yields. */
  function SPow(b: int, k: int, m: int): (r: int)
    requires m > 0 && Unit(b, m)
    ensures 0 <= r < m
    ensures ExpInt(b, k, m) == Some(r)
  {
    if k >= 0 then ModPow(b, k, m) else ModPow(Inv(b, m), -k, m)
  }

  // ---------------------------------------------------------------------
  // Congruence helpers
  // ---------------------------------------------------------------------

  lemma MulModRight(a: int, b: int, m: int)
    requires m > 0
    ensures (a * b) % m == (a * (b % m)) % m
  {
    MulModLeft(b, a, m);
    assert a * b == b * a && a * (b % m) == (b % m) * a;
  }

  lemma MulUnitLeft(x: int, y: int, m: int)
    requires m > 0 && x % m == 1 % m
    ensures (x * y) % m == y % m
  {
    MulModLeft(x, y, m);
    MulModLeft(1, y, m);
  }

  /** `b^k * c^k == 1` when `b * c == 1`, all modulo `m`. */
  lemma Cancel(b: int, c: int, k: nat, m: int)
    requires m > 0 && (b * c) % m == 1 % m
    ensures (Pow(b, k) * Pow(c, k)) % m == 1 % m
  {
    PowProduct(b, c, k);
    PowOfOne(b * c, k, m);
  }

  lemma Rearrange(a1: int, b1: int, a2: int, b2: int, m: int)
    requires m > 0
    ensures (((a1 * b1) % m) * ((a2 * b2) % m)) % m == (((a1 * a2) % m) * ((b1 * b2) % m)) % m
  {
    MulMod(a1 * b1, a2 * b2, m);
    MulMod(a1 * a2, b1 * b2, m);
    Swap4(a1, b1, a2, b2);
  }

  // ---------------------------------------------------------------------
  // Group laws
  // ---------------------------------------------------------------------

  /** The inverse of the inverse is the residue itself. */
  lemma InvInv(b: int, m: int)
    requires m > 0 && Unit(b, m)
    ensures Unit(Inv(b, m), m) && Inv(Inv(b, m), m) == b % m
  {
    var c := Inv(b, m);
    assert (c * b) % m == 1 % m by { assert c * b == b * c; }
    ModInverseComplete(c, b, m);
    MulModRight(c, b, m);
    InverseUnique(c, Inv(c, m), b % m, m);
  }

  /** A positive power of the inverse is the inverse power. */
  lemma Mirror(b: int, k: int, m: int)
    requires m > 0 && Unit(b, m)
    ensures Unit(Inv(b, m), m) && SPow(b, k, m) == SPow(Inv(b, m), -k, m)
  {
    InvInv(b, m);
    if k > 0 {
      PowMod(b, k, m);
    }
  }

  lemma ShiftUpCross(b: int, c: int, j: nat, d: nat, m: int)
    requires m > 0 && (b * c) % m == 1 % m
    ensures ((Pow(c, j) % m) * Pow(b, j + d)) % m == Pow(b, d) % m
  {
    PowAdd(b, j, d);
    MulModLeft(Pow(c, j), Pow(b, j + d), m);
    Cancel(b, c, j, m);
    assert Pow(c, j) * Pow(b, j + d) == (Pow(b, j) * Pow(c, j)) * Pow(b, d);
    MulUnitLeft(Pow(b, j) * Pow(c, j), Pow(b, d), m);
  }

  lemma ShiftUpBelow(b: int, c: int, d: nat, n: nat, m: int)
    requires m > 0 && (b * c) % m == 1 % m
    ensures ((Pow(c, d + n) % m) * Pow(b, n)) % m == Pow(c, d) % m
  {
    PowAdd(c, d, n);
    MulModLeft(Pow(c, d + n), Pow(b, n), m);
    Cancel(b, c, n, m);
    assert Pow(c, d + n) * Pow(b, n) == (Pow(b, n) * Pow(c, n)) * Pow(c, d);
    MulUnitLeft(Pow(b, n) * Pow(c, n), Pow(c, d), m);
  }

  /** Multiplying by `b^n` moves a signed exponent up by `n`. */
  lemma ShiftUp(b: int, k: int, n: nat, m: int)
    requires m > 0 && Unit(b, m)
    ensures SPow(b, k + n, m) == (SPow(b, k, m) * Pow(b, n)) % m
  {
    var c := Inv(b, m);
    if k >= 0 {
      PowAdd(b, k, n);
      MulModLeft(Pow(b, k), Pow(b, n), m);
    } else if k + n >= 0 {
      ShiftUpCross(b, c, -k, k + n, m);
      assert -k + (k + n) == n;
    } else {
      ShiftUpBelow(b, c, -(k + n), n, m);
      assert -(k + n) + n == -k;
    }
  }

  /** `b^(x+y) == b^x * b^y` for signed exponents. */
  lemma SPowAdd(b: int, x: int, y: int, m: int)
    requires m > 0 && Unit(b, m)
    ensures SPow(b, x + y, m) == (SPow(b, x, m) * SPow(b, y, m)) % m
  {
    if y >= 0 {
      ShiftUp(b, x, y, m);
      MulModRight(SPow(b, x, m), Pow(b, y), m);
    } else {
      var c := Inv(b, m);
      Mirror(b, x + y, m);
      Mirror(b, x, m);
      ShiftUp(c, -x, -y, m);
      assert -x + -y == -(x + y);
      MulModRight(SPow(b, x, m), Pow(c, -y), m);
    }
  }

  /** `b^k` is invertible with inverse `b^-k`. */
  lemma SPowUnit(b: int, k: int, m: int)
    requires m > 0 && Unit(b, m)
    ensures Unit(SPow(b, k, m), m) && Inv(SPow(b, k, m), m) == SPow(b, -k, m)
  {
    SPowAdd(b, k, -k, m);
    ModInverseComplete(SPow(b, k, m), SPow(b, -k, m), m);
    InverseUnique(SPow(b, k, m), Inv(SPow(b, k, m), m), SPow(b, -k, m), m);
  }

  lemma {:induction false} SPowScaleNat(b: int, x: int, e: nat, m: int)
    requires m > 0 && Unit(b, m)
    ensures Unit(SPow(b, x, m), m) && SPow(SPow(b, x, m), e, m) == SPow(b, x * e, m)
    decreases e
  {
    SPowUnit(b, x, m);
    var c := SPow(b, x, m);
    if e > 0 {
      SPowScaleNat(b, x, e - 1, m);
      SPowAdd(c, e - 1, 1, m);
      assert SPow(c, 1, m) == c by {
        assert Pow(c, 1) == c * Pow(c, 0);
        ModUnique(c, m, 0, c);
      }
      SPowAdd(b, x * (e - 1), x, m);
      assert x * (e - 1) + x == x * e;
    }
  }

  /** `(b^x)^e == b^(x*e)` for signed exponents. */
  lemma SPowScale(b: int, x: int, e: int, m: int)
    requires m > 0 && Unit(b, m)
    ensures Unit(SPow(b, x, m), m) && SPow(SPow(b, x, m), e, m) == SPow(b, x * e, m)
  {
    SPowUnit(b, x, m);
    if e >= 0 {
      SPowScaleNat(b, x, e, m);
    } else {
      SPowUnit(b, -x, m);
      SPowScaleNat(b, -x, -e, m);
      assert (-x) * (-e) == x * e;
    }
  }

  lemma PowProductMod(u: int, v: int, n: nat, m: int)
    requires m > 0
    ensures Pow((u * v) % m, n) % m == ((Pow(u, n) % m) * (Pow(v, n) % m)) % m
  {
    PowMod(u * v, n, m);
    PowProduct(u, v, n);
    MulMod(Pow(u, n), Pow(v, n), m);
  }

  /** `(u*v)^e == u^e * v^e` for invertible `u`, `v` and a signed `e`. */
  lemma SPowProduct(u: int, v: int, e: int, m: int)
    requires m > 0 && Unit(u, m) && Unit(v, m)
    ensures Unit((u * v) % m, m)
    ensures SPow((u * v) % m, e, m) == (SPow(u, e, m) * SPow(v, e, m)) % m
  {
    var w := (u * v) % m;
    var iu, iv := Inv(u, m), Inv(v, m);
    var iw := (iu * iv) % m;
    assert (w * iw) % m == 1 % m by {
      Rearrange(u, v, iu, iv, m);
      MulMod(u * iu, v * iv, m);
      MulMod(1, 1, m);
      assert ((u * v) * (iu * iv)) == (u * iu) * (v * iv) by { Swap4(u, v, iu, iv); }
      MulMod(u * v, iu * iv, m);
      ModMod(u * v, m);
      ModMod(iu * iv, m);
    }
    ModInverseComplete(w, iw, m);
    InverseUnique(w, Inv(w, m), iw, m);
    if e >= 0 {
      PowProductMod(u, v, e, m);
    } else {
      PowProductMod(iu, iv, -e, m);
    }
  }

  // ---------------------------------------------------------------------
  // Exponent pairs
  // ---------------------------------------------------------------------

  /** The element `s^i * t^j mod m`: `ModInt(m).ExpMulExp(s, i, t, j)`. */
  function Rep(s: int, t: int, i: int, j: int, m: int): (r: int)
    requires m > 0 && Unit(s, m) && Unit(t, m)
    ensures 0 <= r < m && ExpMulExp(s, i, t, j, m) == Some(r)
  {
    (SPow(s, i, m) * SPow(t, j, m)) % m
  }

  /** Multiplying elements adds their exponent pairs. */
  lemma RepMul(s: int, t: int, i1: int, j1: int, i2: int, j2: int, m: int)
    requires m > 0 && Unit(s, m) && Unit(t, m)
    ensures (Rep(s, t, i1, j1, m) * Rep(s, t, i2, j2, m)) % m == Rep(s, t, i1 + i2, j1 + j2, m)
  {
    SPowAdd(s, i1, i2, m);
    SPowAdd(t, j1, j2, m);
    Rearrange(SPow(s, i1, m), SPow(t, j1, m), SPow(s, i2, m), SPow(t, j2, m), m);
  }

  /** Raising an element to a signed power scales its exponent pair. */
  lemma RepPow(s: int, t: int, i: int, j: int, e: int, m: int)
    requires m > 0 && Unit(s, m) && Unit(t, m)
    ensures Unit(Rep(s, t, i, j, m), m)
    ensures SPow(Rep(s, t, i, j, m), e, m) == Rep(s, t, i * e, j * e, m)
  {
    SPowUnit(s, i, m);
    SPowUnit(t, j, m);
    SPowProduct(SPow(s, i, m), SPow(t, j, m), e, m);
    SPowScale(s, i, e, m);
    SPowScale(t, j, e, m);
  }

  /** A power of `t` alone is the pair `(0, j)`. */
  lemma RepOfT(s: int, t: int, j: int, m: int)
    requires m > 0 && Unit(s, m) && Unit(t, m)
    ensures SPow(t, j, m) == Rep(s, t, 0, j, m)
  {
    assert SPow(s, 0, m) == 1 % m by {
      assert Pow(s, 0) == 1;
      ModMod(1, m);
    }
    ModMod(1, m);
    MulUnitLeft(SPow(s, 0, m), SPow(t, j, m), m);
    ModUnique(SPow(t, j, m), m, 0, SPow(t, j, m));
  }
}
