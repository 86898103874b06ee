/** Square and fourth roots modulo `n = p*q` (`PrimeModSqrt`, `CompModSqrt`,
    `CompMod4thRt` of the Paillier-Blum modulus proof): roots modulo each
    prime, combined by the Chinese remainder theorem with the Bezout
    coefficients `ga*p + gb*q == 1` that `big.Int.GCD` supplies. */
module RootFinder {
  import opened Common
  import opened ModArith
  import opened Oracles

  // ---------------------------------------------------------------------
  // Congruence helpers
  // ---------------------------------------------------------------------

  lemma AddMod(a: int, b: int, m: int)
    requires m > 0
    ensures (a + b) % m == ((a % m) + (b % m)) % m
  {
    var qa, qb := a / m, b / m;
    assert a + b == (a % m + b % m) + (qa + qb) * m by {
      assert (qa + qb) * m == qa * m + qb * m;
    }
    ModAddMultiple(a % m + b % m, qa + qb, m);
  }

  /** Reducing modulo `p*q` and then modulo `p` is reducing modulo `p`. */
  lemma ModOfProduct(x: int, p: int, q: int)
    requires p > 0 && q > 0
    ensures (x % (p * q)) % p == x % p
  {
    var k := x / (p * q);
    assert x % (p * q) + (k * q) * p == x by {
      assert k * (p * q) == (k * q) * p;
    }
    ModAddMultiple(x % (p * q), k * q, p);
  }

  /** One CRT term of the Go code, `modN.Mul(modN.Mul(u, f), r)`, reduced
      modulo the prime `p` dividing `n`. */
  lemma TermModPrime(u: int, r: int, p: int, q: int)
    requires p > 0 && q > 0
    ensures (((u % (p * q)) * r) % (p * q)) % p == (u * r) % p
  {
    ModOfProduct((u % (p * q)) * r, p, q);
    MulModLeft(u % (p * q), r, p);
    ModOfProduct(u, p, q);
    MulModLeft(u, r, p);
  }

  /** A number divisible by two coprime factors is divisible by their product. */
  lemma CoprimeDivides(d: int, p: int, q: int, ga: int, gb: int)
    requires p > 0 && q > 0 && ga * p + gb * q == 1
    requires d % p == 0 && d % q == 0
    ensures d % (p * q) == 0
  {
    var u, v := d / p, d / q;
    assert d == p * u && d == q * v;
    assert d == d * (ga * p + gb * q);
    assert d * (ga * p) == (p * q) * (ga * v) by {
      assert d * (ga * p) == (q * v) * (ga * p);
    }
    assert d * (gb * q) == (p * q) * (gb * u) by {
      assert d * (gb * q) == (p * u) * (gb * q);
    }
    assert d == (p * q) * (ga * v + gb * u);
    ModUnique(d, p * q, ga * v + gb * u, 0);
  }

  lemma DiffDivisible(a: int, b: int, p: int)
    requires p > 0 && a % p == b % p
    ensures (a - b) % p == 0
  {
    var k := a / p - b / p;
    assert a - b == 0 + k * p by {
      assert a == (a / p) * p + a % p && b == (b / p) * p + b % p;
      assert k * p == (a / p) * p - (b / p) * p;
    }
    ModAddMultiple(0, k, p);
  }

  /** Congruence modulo both coprime factors gives congruence modulo `p*q`. */
  lemma CrtUnique(a: int, b: int, p: int, q: int, ga: int, gb: int)
    requires p > 0 && q > 0 && ga * p + gb * q == 1
    requires a % p == b % p && a % q == b % q
    ensures a % (p * q) == b % (p * q)
  {
    var n := p * q;
    DiffDivisible(a, b, p);
    DiffDivisible(a, b, q);
    CoprimeDivides(a - b, p, q, ga, gb);
    var k := (a - b) / n;
    assert a == b + k * n;
    ModAddMultiple(b, k, n);
  }

  /** Squaring respects congruence. */
  lemma SquareCongruent(c: int, r: int, m: int)
    requires m > 0 && c % m == r % m
    ensures (c * c) % m == (r * r) % m
  {
    MulMod(c, c, m);
    MulMod(r, r, m);
  }

  // ---------------------------------------------------------------------
  // PrimeModSqrt
  // ---------------------------------------------------------------------

  /** `PrimeModSqrt(x, p)`: no roots when `ModSqrt` finds none, otherwise the
      root it found and its negation modulo `p`; both square to `x`. */
  function PrimeModSqrt(sqrt: SqrtFn, x: int, p: int): (rs: seq<int>)
    requires p > 0
    ensures rs == [] <==> sqrt(x, p).None?
    ensures rs != [] ==> |rs| == 2 && rs[0] == sqrt(x, p).value && (rs[0] + rs[1]) % p == 0
    ensures forall k | 0 <= k < |rs| :: 0 <= rs[k] < p && (rs[k] * rs[k]) % p == x % p
  {
    match sqrt(x, p)
    case None => []
    case Some(r) =>
      NegatedRoot(r, x, p);
      [r, (-r) % p]
  }

  /** The negation of a square root modulo `p` is one as well. */
  lemma NegatedRoot(r: int, x: int, p: int)
    requires p > 0 && (r * r) % p == x % p
    ensures 0 <= (-r) % p < p
    ensures ((-r) % p * ((-r) % p)) % p == x % p
    ensures (r + (-r) % p) % p == 0
  {
    var neg := (-r) % p;
    assert (neg * neg) % p == x % p by {
      ModMod(-r, p);
      SquareCongruent(neg, -r, p);
      assert (-r) * (-r) == r * r;
    }
    assert (r + neg) % p == 0 by {
      ModMod(-r, p);
      AddMod(r, -r, p);
      AddMod(r, neg, p);
      assert r + -r == 0;
    }
  }

  // ---------------------------------------------------------------------
  // CompModSqrt
  // ---------------------------------------------------------------------

  /** The CRT combination of the Go code: `(gb*q mod n)*rp + (ga*p mod n)*rq`,
      every product and the sum reduced modulo `n`. */
  function Combine(p: int, q: int, n: int, ga: int, gb: int, rp: int, rq: int): (c: int)
    requires n > 0
    ensures 0 <= c < n
  {
    ((((gb * q) % n) * rp) % n + (((ga * p) % n) * rq) % n) % n
  }

  /** With `ga*p + gb*q == 1` and `n == p*q`, the combination agrees with
      `rp` modulo `p`: the first term is `rp` there and the second vanishes. */
  lemma CombineFirst(p: int, q: int, ga: int, gb: int, rp: int, rq: int)
    requires p > 0 && q > 0 && ga * p + gb * q == 1
    ensures Combine(p, q, p * q, ga, gb, rp, rq) % p == rp % p
  {
    var n := p * q;
    var s1, s2 := (((gb * q) % n) * rp) % n, (((ga * p) % n) * rq) % n;
    FirstTerm(p, q, ga, gb, rp);
    SecondTerm(p, q, ga, rq);
    ModOfProduct(s1 + s2, p, q);
    AddMod(s1, s2, p);
    ModMod(rp, p);
  }

  /** A CRT term whose coefficient is 0 modulo `p` vanishes there. */
  lemma TermZero(c: int, r: int, p: int, q: int)
    requires p > 0 && q > 0 && c % p == 0
    ensures ((((c % (p * q)) * r) % (p * q)) % p) == 0
  {
    TermModPrime(c, r, p, q);
    MulModLeft(c, r, p);
    MulModLeft(0, r, p);
    ModUnique(0, p, 0, 0);
  }

  /** A CRT term whose coefficient is 1 modulo `p` is `r` there. */
  lemma TermOne(c: int, r: int, p: int, q: int)
    requires p > 0 && q > 0 && c % p == 1 % p
    ensures ((((c % (p * q)) * r) % (p * q)) % p) == r % p
  {
    TermModPrime(c, r, p, q);
    MulModLeft(c, r, p);
    MulModLeft(1, r, p);
  }

  /** The term for `rp` is `rp` modulo `p`, since `gb*q == 1 - ga*p`. */
  lemma FirstTerm(p: int, q: int, ga: int, gb: int, rp: int)
    requires p > 0 && q > 0 && ga * p + gb * q == 1
    ensures ((((gb * q) % (p * q)) * rp) % (p * q)) % p == rp % p
  {
    assert gb * q == 1 + (-ga) * p;
    ModAddMultiple(1, -ga, p);
    TermOne(gb * q, rp, p, q);
  }

  /** The term for `rq` vanishes modulo `p`. */
  lemma SecondTerm(p: int, q: int, ga: int, rq: int)
    requires p > 0 && q > 0
    ensures ((((ga * p) % (p * q)) * rq) % (p * q)) % p == 0
  {
    ModAddMultiple(0, ga, p);
    assert 0 + ga * p == ga * p;
    TermZero(ga * p, rq, p, q);
  }

  /** ... and with `rq` modulo `q`, by the symmetry of the combination. */
  lemma CombineCongruent(p: int, q: int, ga: int, gb: int, rp: int, rq: int)
    requires p > 0 && q > 0 && ga * p + gb * q == 1
    ensures Combine(p, q, p * q, ga, gb, rp, rq) % p == rp % p
    ensures Combine(p, q, p * q, ga, gb, rp, rq) % q == rq % q
  {
    CombineFirst(p, q, ga, gb, rp, rq);
    assert p * q == q * p;
    assert Combine(p, q, p * q, ga, gb, rp, rq) == Combine(q, p, q * p, gb, ga, rq, rp);
    CombineFirst(q, p, gb, ga, rq, rp);
  }

  /** The entries the inner loop appends for one root `rp`. */
  function Row(p: int, q: int, n: int, ga: int, gb: int, rp: int, rqs: seq<int>): (row: seq<int>)
    requires n > 0
  {
    if rqs == [] then []
    else Row(p, q, n, ga, gb, rp, rqs[..|rqs| - 1]) + [Combine(p, q, n, ga, gb, rp, rqs[|rqs| - 1])]
  }

  /** The entries of the nested loop over `rps` and `rqs`, in loop order. */
  function Pairs(p: int, q: int, n: int, ga: int, gb: int, rps: seq<int>, rqs: seq<int>): (res: seq<int>)
    requires n > 0
  {
    if rps == [] then []
    else Pairs(p, q, n, ga, gb, rps[..|rps| - 1], rqs) + Row(p, q, n, ga, gb, rps[|rps| - 1], rqs)
  }

  lemma {:induction false} RowShape(p: int, q: int, n: int, ga: int, gb: int, rp: int, rqs: seq<int>)
    requires n > 0
    ensures |Row(p, q, n, ga, gb, rp, rqs)| == |rqs|
    ensures forall k | 0 <= k < |rqs| :: Row(p, q, n, ga, gb, rp, rqs)[k] == Combine(p, q, n, ga, gb, rp, rqs[k])
  {
    if rqs != [] {
      var init := rqs[..|rqs| - 1];
      RowShape(p, q, n, ga, gb, rp, init);
      forall k | 0 <= k < |rqs| - 1
        ensures Row(p, q, n, ga, gb, rp, rqs)[k] == Combine(p, q, n, ga, gb, rp, rqs[k])
      {
        assert init[k] == rqs[k];
      }
    }
  }

  /** Every entry of the nested loop combines some `rp` in `rps` with some
      `rq` in `rqs`, and there are `|rps| * |rqs|` of them. */
  lemma {:induction false} PairsShape(p: int, q: int, n: int, ga: int, gb: int, rps: seq<int>, rqs: seq<int>)
    requires n > 0
    ensures |Pairs(p, q, n, ga, gb, rps, rqs)| == |rps| * |rqs|
    ensures forall k | 0 <= k < |Pairs(p, q, n, ga, gb, rps, rqs)| ::
      exists i, j | 0 <= i < |rps| && 0 <= j < |rqs| ::
        Pairs(p, q, n, ga, gb, rps, rqs)[k] == Combine(p, q, n, ga, gb, rps[i], rqs[j])
  {
    if rps != [] {
      var init, last := rps[..|rps| - 1], rps[|rps| - 1];
      PairsShape(p, q, n, ga, gb, init, rqs);
      RowShape(p, q, n, ga, gb, last, rqs);
      var front := Pairs(p, q, n, ga, gb, init, rqs);
      var row := Row(p, q, n, ga, gb, last, rqs);
      var all := Pairs(p, q, n, ga, gb, rps, rqs);
      assert all == front + row;
      assert |all| == |rps| * |rqs| by {
        assert |rps| * |rqs| == (|rps| - 1) * |rqs| + |rqs|;
      }
      forall k | 0 <= k < |all|
        ensures exists i, j | 0 <= i < |rps| && 0 <= j < |rqs| ::
          all[k] == Combine(p, q, n, ga, gb, rps[i], rqs[j])
      {
        if k < |front| {
          assert all[k] == front[k];
          var i, j :| 0 <= i < |init| && 0 <= j < |rqs| && front[k] == Combine(p, q, n, ga, gb, init[i], rqs[j]);
          assert init[i] == rps[i];
        } else {
          var j := k - |front|;
          assert all[k] == row[j];
          assert rps[|rps| - 1] == last;
        }
      }
    }
  }

  /** What `CompModSqrt(x, p, q, n)` returns, with `ga`, `gb` the Bezout
      coefficients `GCD` produced for `p` and `q`. */
  function CompModSqrtSpec(sqrt: SqrtFn, x: int, p: int, q: int, n: int, ga: int, gb: int): seq<int>
    requires p > 0 && q > 0 && n > 0
  {
    Pairs(p, q, n, ga, gb, PrimeModSqrt(sqrt, x, p), PrimeModSqrt(sqrt, x, q))
  }

  /** A square root modulo `n`. */
  predicate IsSqrt(c: int, x: int, n: int)
    requires n > 0
  {
    0 <= c < n && (c * c) % n == x % n
  }

  /** The contract of `CompModSqrt`: no roots when either prime has none,
      otherwise four; every entry lies in `[0, n)`, and, for `n == p*q` with
      Bezout coefficients, every entry is a square root of `x` modulo `n`. */
  lemma CompModSqrtSound(sqrt: SqrtFn, x: int, p: int, q: int, n: int, ga: int, gb: int)
    requires p > 0 && q > 0 && n > 0
    ensures var res := CompModSqrtSpec(sqrt, x, p, q, n, ga, gb);
      && (|res| == 0 <==> sqrt(x, p).None? || sqrt(x, q).None?)
      && (|res| == 0 || |res| == 4)
      && (forall k | 0 <= k < |res| :: 0 <= res[k] < n)
      && (n == p * q && ga * p + gb * q == 1 ==> forall k | 0 <= k < |res| :: IsSqrt(res[k], x, n))
  {
    var rps, rqs := PrimeModSqrt(sqrt, x, p), PrimeModSqrt(sqrt, x, q);
    var res := CompModSqrtSpec(sqrt, x, p, q, n, ga, gb);
    PairsShape(p, q, n, ga, gb, rps, rqs);
    assert |res| == |rps| * |rqs|;
    if n == p * q && ga * p + gb * q == 1 {
      forall k | 0 <= k < |res| ensures IsSqrt(res[k], x, n) {
        var i, j :| 0 <= i < |rps| && 0 <= j < |rqs| && res[k] == Combine(p, q, n, ga, gb, rps[i], rqs[j]);
        var c := res[k];
        CombineCongruent(p, q, ga, gb, rps[i], rqs[j]);
        SquareCongruent(c, rps[i], p);
        SquareCongruent(c, rqs[j], q);
        CrtUnique(c * c, x, p, q, ga, gb);
      }
    }
  }

  /** `CompModSqrt(x, p, q, n)`: the nested loop over the roots modulo `p`
      and modulo `q`, appending one CRT combination per pair. */
  method CompModSqrt(sqrt: SqrtFn, x: int, p: int, q: int, n: int, ga: int, gb: int) returns (res: seq<int>)
    requires p > 0 && q > 0 && n > 0
    ensures res == CompModSqrtSpec(sqrt, x, p, q, n, ga, gb)
    ensures |res| == 0 <==> sqrt(x, p).None? || sqrt(x, q).None?
    ensures n == p * q && ga * p + gb * q == 1 ==> forall k | 0 <= k < |res| :: IsSqrt(res[k], x, n)
  {
    var rps := PrimeModSqrt(sqrt, x, p);
    var rqs := PrimeModSqrt(sqrt, x, q);
    res := [];
    var i := 0;
    while i < |rps|
      invariant 0 <= i <= |rps|
      invariant res == Pairs(p, q, n, ga, gb, rps[..i], rqs)
    {
      var rp := rps[i];
      var j := 0;
      while j < |rqs|
        invariant 0 <= j <= |rqs|
        invariant res == Pairs(p, q, n, ga, gb, rps[..i], rqs) + Row(p, q, n, ga, gb, rp, rqs[..j])
      {
        res := res + [Combine(p, q, n, ga, gb, rp, rqs[j])];
        assert rqs[..j + 1][..j] == rqs[..j];
        j := j + 1;
      }
      assert rqs[..j] == rqs;
      assert rps[..i + 1][..i] == rps[..i];
      i := i + 1;
    }
    assert rps[..i] == rps;
    CompModSqrtSound(sqrt, x, p, q, n, ga, gb);
  }

  // ---------------------------------------------------------------------
  // CompMod4thRt
  // ---------------------------------------------------------------------

  /** The square roots of each of `ss`, concatenated in order. */
  function RootsOfEach(sqrt: SqrtFn, ss: seq<int>, p: int, q: int, n: int, ga: int, gb: int): seq<int>
    requires p > 0 && q > 0 && n > 0
  {
    if ss == [] then []
    else RootsOfEach(sqrt, ss[..|ss| - 1], p, q, n, ga, gb) + CompModSqrtSpec(sqrt, ss[|ss| - 1], p, q, n, ga, gb)
  }

  /** What `CompMod4thRt(x, p, q, n)` returns. */
  function CompMod4thRtSpec(sqrt: SqrtFn, x: int, p: int, q: int, n: int, ga: int, gb: int): seq<int>
    requires p > 0 && q > 0 && n > 0
  {
    RootsOfEach(sqrt, CompModSqrtSpec(sqrt, x, p, q, n, ga, gb), p, q, n, ga, gb)
  }

  /** A fourth root modulo `n`, as `Exp(t, 4, n)` checks it. */
  predicate IsFourthRoot(t: int, x: int, n: int)
    requires n > 0
  {
    0 <= t < n && ModPow(t, 4, n) == x % n
  }

  lemma FourthFromSquares(t: int, s: int, x: int, n: int)
    requires n > 0 && IsSqrt(t, s, n) && IsSqrt(s, x, n)
    ensures IsFourthRoot(t, x, n)
  {
    assert Pow(t, 4) == (t * t) * (t * t);
    MulMod(t * t, t * t, n);
    MulMod(s, s, n);
  }

  /** The concatenation's length is a multiple of four, at most four per
      value. */
  lemma {:induction false} RootsOfEachLength(sqrt: SqrtFn, ss: seq<int>, p: int, q: int, n: int, ga: int, gb: int)
    requires p > 0 && q > 0 && n > 0
    ensures |RootsOfEach(sqrt, ss, p, q, n, ga, gb)| % 4 == 0
    ensures |RootsOfEach(sqrt, ss, p, q, n, ga, gb)| <= 4 * |ss|
  {
    if ss != [] {
      var init, last := ss[..|ss| - 1], ss[|ss| - 1];
      RootsOfEachLength(sqrt, init, p, q, n, ga, gb);
      CompModSqrtSound(sqrt, last, p, q, n, ga, gb);
      assert RootsOfEach(sqrt, ss, p, q, n, ga, gb) ==
        RootsOfEach(sqrt, init, p, q, n, ga, gb) + CompModSqrtSpec(sqrt, last, p, q, n, ga, gb);
    }
  }

  /** Every entry of the concatenation is a square root of some `ss[i]`. */
  lemma {:induction false} RootsOfEachRoots(sqrt: SqrtFn, ss: seq<int>, p: int, q: int, n: int, ga: int, gb: int)
    requires p > 0 && q > 0 && n > 0 && n == p * q && ga * p + gb * q == 1
    ensures forall k | 0 <= k < |RootsOfEach(sqrt, ss, p, q, n, ga, gb)| ::
      exists i | 0 <= i < |ss| :: IsSqrt(RootsOfEach(sqrt, ss, p, q, n, ga, gb)[k], ss[i], n)
  {
    if ss != [] {
      var init, last := ss[..|ss| - 1], ss[|ss| - 1];
      RootsOfEachRoots(sqrt, init, p, q, n, ga, gb);
      CompModSqrtSound(sqrt, last, p, q, n, ga, gb);
      var front := RootsOfEach(sqrt, init, p, q, n, ga, gb);
      var tail := CompModSqrtSpec(sqrt, last, p, q, n, ga, gb);
      var all := RootsOfEach(sqrt, ss, p, q, n, ga, gb);
      assert all == front + tail;
      forall k | 0 <= k < |all|
        ensures exists i | 0 <= i < |ss| :: IsSqrt(all[k], ss[i], n)
      {
        if k < |front| {
          var i :| 0 <= i < |init| && IsSqrt(front[k], init[i], n);
          assert all[k] == front[k] && init[i] == ss[i];
        } else {
          assert all[k] == tail[k - |front|];
          assert IsSqrt(all[k], ss[|ss| - 1], n);
        }
      }
      assert forall k | 0 <= k < |all| :: exists i | 0 <= i < |ss| :: IsSqrt(all[k], ss[i], n);
    } else {
      assert RootsOfEach(sqrt, ss, p, q, n, ga, gb) == [];
    }
  }

  /** Every entry of the concatenation is a square root of some `ss[i]`; the
      length is a multiple of four. */
  lemma RootsOfEachShape(sqrt: SqrtFn, ss: seq<int>, p: int, q: int, n: int, ga: int, gb: int)
    requires p > 0 && q > 0 && n > 0
    ensures |RootsOfEach(sqrt, ss, p, q, n, ga, gb)| % 4 == 0
    ensures |RootsOfEach(sqrt, ss, p, q, n, ga, gb)| <= 4 * |ss|
    ensures n == p * q && ga * p + gb * q == 1 ==>
      forall k | 0 <= k < |RootsOfEach(sqrt, ss, p, q, n, ga, gb)| ::
        exists i | 0 <= i < |ss| :: IsSqrt(RootsOfEach(sqrt, ss, p, q, n, ga, gb)[k], ss[i], n)
  {
    RootsOfEachLength(sqrt, ss, p, q, n, ga, gb);
    if n == p * q && ga * p + gb * q == 1 {
      RootsOfEachRoots(sqrt, ss, p, q, n, ga, gb);
    }
  }

  /** The contract of `CompMod4thRt`: every entry is a fourth root of `x`
      modulo `n = p*q`, and there are 0, 4, 8, 12 or 16 of them. */
  lemma CompMod4thRtSound(sqrt: SqrtFn, x: int, p: int, q: int, n: int, ga: int, gb: int)
    requires p > 0 && q > 0 && n > 0
    ensures var res := CompMod4thRtSpec(sqrt, x, p, q, n, ga, gb);
      && |res| % 4 == 0 && |res| <= 16
      && (n == p * q && ga * p + gb * q == 1 ==> forall k | 0 <= k < |res| :: IsFourthRoot(res[k], x, n))
  {
    var ss := CompModSqrtSpec(sqrt, x, p, q, n, ga, gb);
    var res := CompMod4thRtSpec(sqrt, x, p, q, n, ga, gb);
    CompModSqrtSound(sqrt, x, p, q, n, ga, gb);
    RootsOfEachShape(sqrt, ss, p, q, n, ga, gb);
    if n == p * q && ga * p + gb * q == 1 {
      forall k | 0 <= k < |res| ensures IsFourthRoot(res[k], x, n) {
        var i :| 0 <= i < |ss| && IsSqrt(res[k], ss[i], n);
        FourthFromSquares(res[k], ss[i], x, n);
      }
    }
  }

  /** The inner loop of `CompMod4thRt`: every entry of `ys` appended in turn. */
  method AppendEach(xs: seq<int>, ys: seq<int>) returns (res: seq<int>)
    ensures res == xs + ys
  {
    res := xs;
    var j := 0;
    while j < |ys|
      invariant 0 <= j <= |ys|
      invariant res == xs + ys[..j]
    {
      res := res + [ys[j]];
      assert ys[..j + 1] == ys[..j] + [ys[j]];
      j := j + 1;
    }
    assert ys[..j] == ys;
  }

  /** `CompMod4thRt(x, p, q, n)`: the square roots of every square root of
      `x`, appended one by one. */
  method CompMod4thRt(sqrt: SqrtFn, x: int, p: int, q: int, n: int, ga: int, gb: int) returns (res: seq<int>)
    requires p > 0 && q > 0 && n > 0
    ensures res == CompMod4thRtSpec(sqrt, x, p, q, n, ga, gb)
    ensures |res| % 4 == 0 && |res| <= 16
    ensures n == p * q && ga * p + gb * q == 1 ==> forall k | 0 <= k < |res| :: IsFourthRoot(res[k], x, n)
  {
    var sqroots := CompModSqrt(sqrt, x, p, q, n, ga, gb);
    res := [];
    var i := 0;
    while i < |sqroots|
      invariant 0 <= i <= |sqroots|
      invariant res == RootsOfEach(sqrt, sqroots[..i], p, q, n, ga, gb)
    {
      var troots := CompModSqrt(sqrt, sqroots[i], p, q, n, ga, gb);
      res := AppendEach(res, troots);
      assert sqroots[..i + 1][..i] == sqroots[..i];
      i := i + 1;
    }
    assert sqroots[..i] == sqroots;
    CompMod4thRtSound(sqrt, x, p, q, n, ga, gb);
  }
}
