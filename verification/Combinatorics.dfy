/** Binomial and multiset coefficients, with the identities the cost formulas rest on. */
module Combinatorics {
  import opened Arithmetic

  function Power(n: nat, k: nat): nat { if k == 0 then 1 else n * Power(n, k - 1) }

  function Factorial(n: nat): nat { if n == 0 then 1 else n * Factorial(n - 1) }

  /** `math.comb(n, k)`. */
  function Comb(n: nat, k: nat): nat {
    if k == 0 then 1
    else if n == 0 then 0
    else Comb(n - 1, k - 1) + Comb(n - 1, k)
  }

  /** Multiset coefficient ((n, k)): multisets of size `k` over `n` values. */
  function Multiset(n: nat, k: nat): nat {
    if k == 0 then 1 else Comb(n + k - 1, k)
  }

  lemma {:induction false} CombAboveIsZero(n: nat, k: nat)
    requires k > n
    ensures Comb(n, k) == 0
  {
    if n > 0 {
      CombAboveIsZero(n - 1, k - 1);
      CombAboveIsZero(n - 1, k);
    }
  }

  /** Absorption: `k * C(n, k) == n * C(n-1, k-1)`. */
  lemma {:induction false} CombAbsorption(n: nat, k: nat)
    requires n > 0 && k > 0
    ensures k * Comb(n, k) == n * Comb(n - 1, k - 1)
  {
    if n == 1 {
      if k > 1 {
        CombAboveIsZero(1, k);
        CombAboveIsZero(0, k - 1);
      }
    } else if k == 1 {
      CombAbsorption(n - 1, 1);
    } else {
      CombAbsorption(n - 1, k);
      CombAbsorption(n - 1, k - 1);
      AbsorptionStep(n, k, Comb(n - 1, k), Comb(n - 1, k - 1), Comb(n - 2, k - 1), Comb(n - 2, k - 2));
    }
  }

  lemma AbsorptionStep(n: nat, k: nat, a: nat, b: nat, c: nat, d: nat)
    requires n > 1 && k > 1 && b == d + c
    requires k * a == (n - 1) * c && (k - 1) * b == (n - 1) * d
    ensures k * (b + a) == n * b
  {
    assert k * (b + a) == k * b + k * a == (k - 1) * b + b + k * a;
    assert (n - 1) * d + (n - 1) * c == (n - 1) * b;
    assert (n - 1) * b + b == n * b;
  }

  /** The Pascal recursion computes the factorial quotient. */
  lemma {:induction false} CombIsFactorialQuotient(n: nat, k: nat)
    requires k <= n
    ensures Comb(n, k) * Factorial(k) * Factorial(n - k) == Factorial(n)
    ensures Factorial(0) == Factorial(1) == 1
  {
    if k == 0 {
    } else {
      CombAbsorption(n, k);
      CombIsFactorialQuotient(n - 1, k - 1);
      QuotientStep(n, k, Comb(n, k), Comb(n - 1, k - 1), Factorial(k - 1), Factorial(n - k), Factorial(n - 1));
    }
  }

  lemma QuotientStep(n: nat, k: nat, c: nat, d: nat, f: nat, g: nat, h: nat)
    requires k * c == n * d && d * f * g == h
    ensures c * (k * f) * g == n * h
  {
    assert c * (k * f) * g == (k * c) * (f * g);
    assert (n * d) * (f * g) == n * (d * f * g);
  }

  /** Pascal's rule for multisets: use the first value once more, or never. */
  lemma MultisetPascal(n: nat, k: nat)
    requires n > 0 && k > 0
    ensures Multiset(n, k) == Multiset(n, k - 1) + Multiset(n - 1, k)
  {
  }

  lemma MultisetOfNothing(k: nat)
    requires k > 0
    ensures Multiset(0, k) == 0
  {
    CombAboveIsZero(k - 1, k);
  }

  /** `(k + 1) * ((n, k+1)) == (n + k) * ((n, k))`. */
  lemma MultisetRatio(n: nat, k: nat)
    requires n > 0
    ensures (k + 1) * Multiset(n, k + 1) == (n + k) * Multiset(n, k)
  {
    CombAbsorption(n + k, k + 1);
  }

  lemma {:induction false} MultisetPositive(n: nat, k: nat)
    requires n > 0
    ensures Multiset(n, k) >= 1
  {
    if k > 0 {
      MultisetPositive(n, k - 1);
      MultisetPascal(n, k);
    }
  }

  /** ((n, s+t)) <= ((n, s)) * ((n, t)): splitting a multiset into two parts loses none of them. */
  lemma {:induction false} MultisetSubmultiplicative(n: nat, s: nat, t: nat)
    ensures Multiset(n, s + t) <= Multiset(n, s) * Multiset(n, t)
  {
    if n == 0 {
      if s + t > 0 { MultisetOfNothing(s + t); }
    } else if s > 0 {
      MultisetSubmultiplicative(n, s - 1, t);
      MultisetRatio(n, s - 1);
      MultisetRatio(n, s - 1 + t);
      SubmultiplicativeStep(n, s, t, Multiset(n, s - 1), Multiset(n, s), Multiset(n, t),
                            Multiset(n, s - 1 + t), Multiset(n, s + t));
    }
  }

  lemma SubmultiplicativeStep(n: nat, s: nat, t: nat, a: nat, a': nat, b: nat, c: nat, c': nat)
    requires n > 0 && s > 0
    requires s * a' == (n + s - 1) * a
    requires (s + t) * c' == (n + s + t - 1) * c
    requires c <= a * b
    ensures c' <= a' * b
  {
    // s (s+t) c' = s (n+s+t-1) c <= s (n+s+t-1) a b <= (n+s-1) (s+t) a b = s (s+t) a' b
    var u, v, w := n + s - 1, n + s + t - 1, s + t;
    ScaleBoth(s, w, v, c, c');
    ScaleProduct(s, w, u, a, a', b);
    CrossFactors(n, s, t);
    ProductOrder(c, a * b, s * v);
    ProductOrder(s * v, u * w, a * b);
    PositiveProduct(s, w);
    CancelOrder(c', a' * b, s * w);
  }

  lemma ScaleBoth(s: nat, w: nat, v: nat, c: nat, c': nat)
    requires w * c' == v * c
    ensures (s * w) * c' == (s * v) * c
  {
    assert (s * w) * c' == s * (w * c');
    assert (s * v) * c == s * (v * c);
  }

  lemma ScaleProduct(s: nat, w: nat, u: nat, a: nat, a': nat, b: nat)
    requires s * a' == u * a
    ensures (s * w) * (a' * b) == (u * w) * (a * b)
  {
    Regroup(s, w, a', b);
    Regroup(u, w, a, b);
  }

  lemma Regroup(x: nat, y: nat, z: nat, b: nat)
    ensures (x * y) * (z * b) == (x * z) * (y * b)
  {
    assert (x * y) * (z * b) == x * (y * (z * b));
    assert y * (z * b) == z * (y * b);
    assert x * (z * (y * b)) == (x * z) * (y * b);
  }

  lemma CrossFactors(n: nat, s: nat, t: nat)
    requires n > 0 && s > 0
    ensures s * (n + s + t - 1) <= (n + s - 1) * (s + t)
  {
    assert (n + s - 1) * (s + t) == (n + s - 1) * s + (n + s - 1) * t;
    assert s * (n + s + t - 1) == (n + s - 1) * s + s * t;
    assert (n + s - 1) * t >= s * t by { ProductOrder(s, n + s - 1, t); }
  }

  lemma PositiveProduct(a: nat, b: nat)
    requires a > 0 && b > 0
    ensures a * b > 0
  {
  }

  lemma {:induction false} PowerAdds(n: nat, a: nat, b: nat)
    ensures Power(n, a + b) == Power(n, a) * Power(n, b)
  {
    if a > 0 {
      PowerAdds(n, a - 1, b);
      Associate(n, Power(n, a - 1), Power(n, b));
    }
  }

  lemma PowerOfNone(n: nat)
    ensures Power(n, 0) == 1
  {
  }

  lemma {:induction false} PowerPositive(n: nat, k: nat)
    requires n > 0
    ensures Power(n, k) > 0
  {
    if k > 0 { PowerPositive(n, k - 1); }
  }

  /** There are no more multisets than tuples. */
  lemma {:induction false} MultisetAtMostPower(n: nat, k: nat)
    ensures Multiset(n, k) <= Power(n, k)
  {
    if k > 0 {
      MultisetAtMostPower(n, k - 1);
      MultisetSubmultiplicative(n, 1, k - 1);
      MultisetOne(n);
      ProductOrder(Multiset(n, k - 1), Power(n, k - 1), n);
    }
  }

  lemma {:induction false} MultisetOne(n: nat)
    ensures Multiset(n, 1) == n
  {
    if n == 0 {
      MultisetOfNothing(1);
    } else {
      MultisetOne(n - 1);
      MultisetPascal(n, 1);
    }
  }
}
