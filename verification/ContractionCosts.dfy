/** Cost models for symmetric contractions, and how they compare on every input. */
module ContractionCosts {
  import opened Arithmetic
  import opened Combinatorics

  function OpFactor(v: nat): nat { if v > 0 then 2 else 1 }

  /** Dense matrix multiply, no symmetry. */
  function FNaive(n: nat, s: nat, t: nat, v: nat): nat { OpFactor(v) * Power(n, s + t + v) }

  /** Direct evaluation with per-group symmetry (the Psi model). */
  function FPsi(n: nat, s: nat, t: nat, v: nat): int {
    var ms, mt, mv, mst := Multiset(n, s), Multiset(n, t), Multiset(n, v), Multiset(n, s + t);
    var matmulCost := 2 * ms * mt * mv - ms * mt;
    var symCost := ms * mt - mst;
    Max(matmulCost + symCost, 1)
  }

  function UniqueOutputs(n: nat, s: nat, t: nat, sameObject: bool): nat {
    if sameObject && s + t >= 2 then Multiset(n, s + t) else Multiset(n, s) * Multiset(n, t)
  }

  /** Scale by a ratio with floor division, skipping an empty denominator. */
  function Scaled(base: nat, unique: nat, total: nat): nat {
    if total > 0 then base * unique / total else base
  }

  /** The library's symmetric flop count. */
  function FCode(n: nat, s: nat, t: nat, v: nat, sameObject: bool, innerSymmetry: bool): int {
    var base := OpFactor(v) * Power(n, s + t + v);
    var reduced := Scaled(base, UniqueOutputs(n, s, t, sameObject), Power(n, s + t));
    var inner := if innerSymmetry && v >= 2 then Scaled(reduced, Multiset(n, v), Power(n, v)) else reduced;
    Max(inner, 1)
  }

  // ---- The floor divisions are exact ----

  function UniqueInner(n: nat, v: nat, innerSymmetry: bool): nat {
    if innerSymmetry && v >= 2 then Multiset(n, v) else Power(n, v)
  }

  lemma ScaledExactly(rest: nat, unique: nat, total: nat)
    requires total > 0
    ensures (rest * total) * unique % total == 0
    ensures Scaled(rest * total, unique, total) == rest * unique
  {
    var q := rest * unique;
    assert (rest * total) * unique == q * total;
    ExactQuotient(q, total);
  }

  lemma ExactQuotient(q: nat, d: nat)
    requires d > 0
    ensures q * d / d == q && q * d % d == 0
  {
    ProductOrder(q * d / d + 1, q, d);
    ProductOrder(q + 1, q * d / d, d);
  }

  lemma PowerOfZero(k: nat)
    requires k > 0
    ensures Power(0, k) == 0
  {
  }

  /** Output symmetry divides out of `op * n**omega` without remainder. */
  lemma {:induction false} OutputReductionIsExact(n: nat, s: nat, t: nat, v: nat, sameObject: bool)
    ensures Power(n, s + t) > 0 ==>
              OpFactor(v) * Power(n, s + t + v) * UniqueOutputs(n, s, t, sameObject) % Power(n, s + t) == 0
    ensures Scaled(OpFactor(v) * Power(n, s + t + v), UniqueOutputs(n, s, t, sameObject), Power(n, s + t))
         == OpFactor(v) * Power(n, v) * UniqueOutputs(n, s, t, sameObject)
  {
    var unique, total := UniqueOutputs(n, s, t, sameObject), Power(n, s + t);
    PowerAdds(n, s + t, v);
    if total > 0 {
      var rest := OpFactor(v) * Power(n, v);
      assert OpFactor(v) * (total * Power(n, v)) == rest * total;
      ScaledExactly(rest, unique, total);
    } else {
      if n > 0 { PowerPositive(n, s + t); }
      NoOutputs(s, t, sameObject);
      assert OpFactor(v) * Power(n, s + t + v) == 0;
    }
  }

  lemma NoOutputs(s: nat, t: nat, sameObject: bool)
    requires s + t > 0
    ensures UniqueOutputs(0, s, t, sameObject) == 0
  {
    MultisetOfNothing(s + t);
    if s > 0 { MultisetOfNothing(s); }
    if t > 0 { MultisetOfNothing(t); }
  }

  /** Inner symmetry divides out of the reduced count without remainder. */
  lemma InnerReductionIsExact(n: nat, v: nat, k: nat)
    ensures Power(n, v) > 0 ==> (k * Power(n, v)) * Multiset(n, v) % Power(n, v) == 0
    ensures Scaled(k * Power(n, v), Multiset(n, v), Power(n, v)) == k * Multiset(n, v)
  {
    if Power(n, v) > 0 {
      ScaledExactly(k, Multiset(n, v), Power(n, v));
    } else {
      if n > 0 { PowerPositive(n, v); }
      MultisetOfNothing(v);
    }
  }

  /** The library charges the op factor once per unique output and unique inner index. */
  lemma FCodeCountsUniques(n: nat, s: nat, t: nat, v: nat, sameObject: bool, innerSymmetry: bool)
    ensures FCode(n, s, t, v, sameObject, innerSymmetry)
         == Max(OpFactor(v) * UniqueOutputs(n, s, t, sameObject) * UniqueInner(n, v, innerSymmetry), 1)
  {
    var op, unique := OpFactor(v), UniqueOutputs(n, s, t, sameObject);
    OutputReductionIsExact(n, s, t, v, sameObject);
    InnerReductionIsExact(n, v, op * unique);
    hide Power, Multiset, UniqueOutputs, Scaled, OpFactor;
    SwapLast(op, Power(n, v), unique);
  }

  lemma SwapLast(x: int, y: int, z: int)
    ensures x * y * z == x * z * y
  {
  }

  lemma UniqueOutputsShrink(n: nat, s: nat, t: nat)
    ensures UniqueOutputs(n, s, t, true) <= UniqueOutputs(n, s, t, false)
  {
    MultisetSubmultiplicative(n, s, t);
  }

  lemma ProductLe(op: nat, a: nat, b: nat, a': nat, b': nat)
    requires a <= a' && b <= b'
    ensures op * a * b <= op * a' * b'
  {
    ProductOrder(a, a', op);
    ProductOrder(op * a, op * a', b);
    ProductOrder(b, b', op * a');
  }

  /** Declaring both operands the same object, or an inner symmetry, never raises the charge. */
  lemma {:induction false} OptionsNeverRaise(n: nat, s: nat, t: nat, v: nat, flag: bool)
    ensures FCode(n, s, t, v, true, flag) <= FCode(n, s, t, v, false, flag)
    ensures FCode(n, s, t, v, flag, true) <= FCode(n, s, t, v, flag, false)
  {
    UniqueOutputsShrink(n, s, t);
    MultisetAtMostPower(n, v);
    ChargeGrowsWithUniques(n, s, t, v, true, flag, false, flag);
    ChargeGrowsWithUniques(n, s, t, v, flag, true, flag, false);
  }

  lemma ChargeGrowsWithUniques(n: nat, s: nat, t: nat, v: nat, same: bool, inner: bool, same': bool, inner': bool)
    requires UniqueOutputs(n, s, t, same) <= UniqueOutputs(n, s, t, same')
    requires UniqueInner(n, v, inner) <= UniqueInner(n, v, inner')
    ensures FCode(n, s, t, v, same, inner) <= FCode(n, s, t, v, same', inner')
  {
    FCodeCountsUniques(n, s, t, v, same, inner);
    FCodeCountsUniques(n, s, t, v, same', inner');
    ProductLe(OpFactor(v), UniqueOutputs(n, s, t, same), UniqueInner(n, v, inner),
              UniqueOutputs(n, s, t, same'), UniqueInner(n, v, inner'));
  }

  // ---- Psi against the naive cost ----

  /** With n >= 1 neither cost term of Psi is negative and the floor of 1 never applies. */
  lemma PsiClosedForm(n: nat, s: nat, t: nat, v: nat)
    requires n > 0
    ensures Multiset(n, s) * Multiset(n, t) >= Multiset(n, s + t)
    ensures FPsi(n, s, t, v)
         == 2 * (Multiset(n, s) * Multiset(n, t)) * Multiset(n, v) - Multiset(n, s + t)
    ensures FPsi(n, s, t, v) >= 1
  {
    MultisetSubmultiplicative(n, s, t);
    MultisetPositive(n, s);
    MultisetPositive(n, t);
    MultisetPositive(n, v);
    hide Multiset;
    TermsArePositive(Multiset(n, s), Multiset(n, t), Multiset(n, v), Multiset(n, s + t));
  }

  lemma TermsArePositive(ms: nat, mt: nat, mv: nat, mst: nat)
    requires ms > 0 && mt > 0 && mv > 0 && mst <= ms * mt
    ensures 2 * ms * mt * mv == 2 * (ms * mt) * mv
    ensures 2 * (ms * mt) * mv - mst >= 1
  {
    ProductOrder(1, ms, mt);
    ProductOrder(1, mv, ms * mt);
    Associate(2, ms, mt);
    Associate(2, ms * mt, mv);
  }

  /** What Psi charges for an outer product (v == 0). */
  function Outer(n: nat, s: nat, t: nat): int {
    2 * (Multiset(n, s) * Multiset(n, t)) - Multiset(n, s + t)
  }

  /** One more index multiplies the outer-product charge by at most n. */
  lemma OuterGrowth(n: nat, s: nat, t: nat)
    requires n > 0 && s > 0
    ensures Outer(n, s + 1, t) <= n * Outer(n, s, t)
  {
    MultisetRatio(n, s);
    MultisetRatio(n, s + t);
    MultisetSubmultiplicative(n, s, t);
    OuterGrowthStep(n, s, t, Multiset(n, s), Multiset(n, s + 1), Multiset(n, t),
                    Multiset(n, s + t), Multiset(n, s + 1 + t));
  }

  lemma OuterGrowthStep(n: nat, s: nat, t: nat, a: nat, a': nat, b: nat, c: nat, c': nat)
    requires n > 0 && s > 0
    requires (s + 1) * a' == (n + s) * a
    requires (s + t + 1) * c' == (n + s + t) * c
    requires c <= a * b
    ensures 2 * (a' * b) - c' <= n * (2 * (a * b) - c)
  {
    LossIsLarge(n, s, a, a');
    LossIsSmall(n, s + t, c, c');
    // n c - c' <= (n-1) c <= (n-1) a b <= 2 (n a - a') b
    var x := n * a - a';
    ProductOrder(c, a * b, n - 1);
    ProductOrder((n - 1) * a, 2 * x, b);
    Associate(n - 1, a, b);
    DistributeLoss(n, a, a', b, c);
  }

  lemma DistributeLoss(n: nat, a: nat, a': nat, b: nat, c: nat)
    ensures (2 * (n * a - a')) * b == 2 * (n * (a * b)) - 2 * (a' * b)
    ensures n * (2 * (a * b) - c) == 2 * (n * (a * b)) - n * c
  {
    assert (n * a - a') * b == (n * a) * b - a' * b;
    Associate(n, a, b);
  }

  lemma LossIsLarge(n: nat, s: nat, a: nat, a': nat)
    requires n > 0 && s > 0 && (s + 1) * a' == (n + s) * a
    ensures a' <= n * a && (n - 1) * a <= 2 * (n * a - a')
  {
    LossRatio(n, s, a, a');
    HalfAtLeast(s, n * a - a', (n - 1) * a);
  }

  lemma LossRatio(n: nat, s: nat, a: nat, a': nat)
    requires n > 0 && (s + 1) * a' == (n + s) * a
    ensures (s + 1) * (n * a - a') == s * ((n - 1) * a)
  {
    assert (s + 1) * (n * a - a') == (s + 1) * (n * a) - (n + s) * a;
    assert (s + 1) * (n * a) == s * (n * a) + n * a;
    assert (n + s) * a == n * a + s * a;
    assert (n - 1) * a == n * a - a;
    assert s * (n * a - a) == s * (n * a) - s * a;
  }

  /** `s / (s + 1)` is at least one half. */
  lemma HalfAtLeast(s: nat, x: int, w: nat)
    requires s > 0 && (s + 1) * x == s * w
    ensures x >= 0 && w <= 2 * x
  {
    NonNegativeFactor(s + 1, x, s * w);
    ProductOrder(s + 1, 2 * s, w);
    assert (s + 1) * (2 * x) == 2 * (s * w);
    assert (2 * s) * w == 2 * (s * w);
    CancelOrder(w, 2 * x, s + 1);
  }

  lemma NonNegativeFactor(a: int, x: int, p: nat)
    requires a > 0 && a * x == p
    ensures x >= 0
  {
  }

  lemma LossIsSmall(n: nat, m: nat, c: nat, c': nat)
    requires n > 0 && m > 0 && (m + 1) * c' == (n + m) * c
    ensures n * c - c' <= (n - 1) * c
  {
    assert (n + m) * c >= (m + 1) * c by { ProductOrder(m + 1, n + m, c); }
    CancelOrder(c, c', m + 1);
  }

  lemma SmallPowers(n: nat)
    ensures Power(n, 1) == n && Power(n, 2) == n * n && Power(n, 3) == n * (n * n)
  {
    assert Power(n, 1) == n * Power(n, 0);
    assert Power(n, 2) == n * Power(n, 1);
    assert Power(n, 3) == n * Power(n, 2);
  }

  lemma OuterOfThree(n: nat)
    requires n > 0
    ensures Outer(n, 2, 1) <= Power(n, 3)
  {
    MultisetOne(n);
    MultisetRatio(n, 1);
    MultisetRatio(n, 2);
    var m2, m3 := Multiset(n, 2), Multiset(n, 3);
    SmallPowers(n);
    CubeBound(n, m2, m3);
  }

  lemma CubeBound(n: nat, m2: nat, m3: nat)
    requires n > 0 && 2 * m2 == (n + 1) * n && 3 * m3 == (n + 2) * m2
    ensures 2 * (m2 * n) - m3 <= n * (n * n)
  {
    // 6 (n^3 - 2 m2 n + m3) == n (n-1) (n-2)
    var q := n * n;
    var c := n * q;
    assert 2 * m2 == q + n;
    assert 2 * (m2 * n) == (q + n) * n == c + q;
    assert 6 * m3 == (n + 2) * (q + n) by { Associate(2, n + 2, m2); }
    assert (n + 2) * (q + n) == c + 3 * q + 2 * n;
    CubicIsNonNegative(n);
  }

  lemma CubicIsNonNegative(n: nat)
    requires n > 0
    ensures n * (n * n) + 2 * n >= 3 * (n * n)
  {
    if n >= 2 {
      var r := (n - 1) * (n - 2);
      assert r == n * n - 3 * n + 2;
      assert n * r == n * (n * n) - 3 * (n * n) + 2 * n;
      assert n * r >= 0;
    }
  }

  lemma OuterSymmetric(n: nat, s: nat, t: nat)
    ensures Outer(n, s, t) == Outer(n, t, s)
  {
    assert s + t == t + s;
  }

  /** Three or more free indices, split over both operands, never cost more than the dense product. */
  lemma {:induction false} OuterAtMostPower(n: nat, s: nat, t: nat)
    requires n > 0 && s >= 2 && t >= 1
    ensures Outer(n, s, t) <= Power(n, s + t)
    decreases s + t
  {
    hide Outer, Multiset;
    if s > 2 {
      OuterAtMostPower(n, s - 1, t);
      OuterGrowth(n, s - 1, t);
      ProductOrder(Outer(n, s - 1, t), Power(n, s - 1 + t), n);
    } else if t > 1 {
      OuterAtMostPower(n, 2, t - 1);
      OuterSymmetric(n, 2, t - 1);
      OuterSymmetric(n, 2, t);
      OuterGrowth(n, t - 1, 2);
      ProductOrder(Outer(n, t - 1, 2), Power(n, t + 1), n);
    } else {
      OuterOfThree(n);
    }
  }

  lemma OuterOneSided(n: nat, s: nat)
    ensures Outer(n, s, 0) <= Power(n, s)
  {
    MultisetAtMostPower(n, s);
  }

  /** A plain outer product of two vectors is where Psi overcharges, from n == 2 on. */
  lemma OuterOfVectors(n: nat)
    requires n > 0
    ensures Outer(n, 1, 1) <= Power(n, 2) <==> n == 1
  {
    MultisetOne(n);
    MultisetRatio(n, 1);
    SmallPowers(n);
    hide Multiset, Power;
    assert 2 * Multiset(n, 2) == (n + 1) * n == n * n + n;
    ProductOrder(2, n, n);
  }

  lemma ThreeFactors(a: nat, b: nat, c: nat, p: nat, q: nat, r: nat)
    requires a <= p && b <= q && c <= r
    ensures a * b * c <= p * q * r
  {
    ProductOrder(a, p, b);
    ProductOrder(b, q, p);
    ProductOrder(a * b, p * q, c);
    ProductOrder(c, r, p * q);
  }

  lemma PsiBelowNaiveWithInner(n: nat, s: nat, t: nat, v: nat)
    requires n > 0 && v > 0
    ensures FPsi(n, s, t, v) <= FNaive(n, s, t, v)
  {
    PsiClosedForm(n, s, t, v);
    MultisetAtMostPower(n, s);
    MultisetAtMostPower(n, t);
    MultisetAtMostPower(n, v);
    PowerAdds(n, s + t, v);
    PowerAdds(n, s, t);
    var ms, mt, mv := Multiset(n, s), Multiset(n, t), Multiset(n, v);
    ThreeFactors(ms, mt, mv, Power(n, s), Power(n, t), Power(n, v));
    assert Power(n, s + t + v) == Power(n, s) * Power(n, t) * Power(n, v);
    TwiceProduct(ms * mt, mv, Power(n, s + t + v));
  }

  lemma TwiceProduct(a: nat, b: nat, c: nat)
    requires a * b <= c
    ensures 2 * a * b <= 2 * c
  {
  }

  lemma PsiBelowNaiveOuter(n: nat, s: nat, t: nat)
    requires n > 0
    ensures FPsi(n, s, t, 0) <= FNaive(n, s, t, 0) <==> !(s == 1 && t == 1 && n >= 2)
  {
    PsiClosedForm(n, s, t, 0);
    assert FPsi(n, s, t, 0) == Outer(n, s, t) && FNaive(n, s, t, 0) == Power(n, s + t);
    hide FPsi, FNaive, Outer, Multiset, Power;
    if t == 0 {
      OuterOneSided(n, s);
    } else if s == 0 {
      OuterOneSided(n, t);
      OuterSymmetric(n, s, t);
    } else if s >= 2 {
      OuterAtMostPower(n, s, t);
    } else if t >= 2 {
      OuterAtMostPower(n, t, s);
      OuterSymmetric(n, s, t);
    } else {
      OuterOfVectors(n);
    }
  }

  lemma PsiOfNothing(s: nat, t: nat, v: nat)
    ensures FPsi(0, s, t, v) <= FNaive(0, s, t, v) <==> s + t + v == 0
  {
    if s + t + v > 0 { PowerOfZero(s + t + v); }
  }

  /**
   * Exactly when Psi is no dearer than the dense product: on every input with v > 0 and n >= 1,
   * and for v == 0 on everything but the outer product of two vectors of length two or more.
   */
  lemma PsiBelowNaiveIff(n: nat, s: nat, t: nat, v: nat)
    ensures FPsi(n, s, t, v) <= FNaive(n, s, t, v)
       <==> (n >= 1 || s + t + v == 0) && !(v == 0 && s == 1 && t == 1 && n >= 2)
  {
    if n == 0 {
      PsiOfNothing(s, t, v);
    } else if v > 0 {
      PsiBelowNaiveWithInner(n, s, t, v);
    } else {
      PsiBelowNaiveOuter(n, s, t);
    }
  }

  // ---- The three counts against one another ----

  /**
   * With n >= 1: for an inner sum the library's count under both symmetries is Psi and the outputs Psi's
   * symmetrisation saves; without one it is one operation per pair of unique operand entries.
   */
  lemma CodeAgainstPsi(n: nat, s: nat, t: nat, v: nat, innerSymmetry: bool)
    requires n > 0
    ensures v > 0 ==> FCode(n, s, t, v, false, true) == FPsi(n, s, t, v) + Multiset(n, s + t)
    ensures FCode(n, s, t, 0, false, innerSymmetry) == Multiset(n, s) * Multiset(n, t)
  {
    var ms, mt, mv := Multiset(n, s), Multiset(n, t), Multiset(n, v);
    FCodeCountsUniques(n, s, t, v, false, true);
    FCodeCountsUniques(n, s, t, 0, false, innerSymmetry);
    PsiClosedForm(n, s, t, v);
    MultisetPositive(n, s);
    MultisetPositive(n, t);
    MultisetPositive(n, v);
    PositiveProduct(ms, mt);
    PositiveProduct(ms * mt, mv);
    assert UniqueInner(n, v, true) == mv by { SmallInner(n, v); }
    assert UniqueInner(n, 0, innerSymmetry) == 1;
    assert OpFactor(v) == if v > 0 then 2 else 1;
    hide Multiset, FCode, FPsi, UniqueInner, OpFactor;
    Associate(2, ms * mt, mv);
  }

  lemma SmallInner(n: nat, v: nat)
    ensures UniqueInner(n, v, true) == Multiset(n, v)
  {
    if v == 1 {
      MultisetOne(n);
      assert Power(n, 1) == n * Power(n, 0);
    }
  }

  /** Without options the library's count and the naive one are as the unique outputs to all outputs. */
  lemma CodeAgainstNaive(n: nat, s: nat, t: nat, v: nat)
    requires n > 0
    ensures FCode(n, s, t, v, false, false) * Power(n, s + t)
         == FNaive(n, s, t, v) * (Multiset(n, s) * Multiset(n, t))
  {
    var ms, mt, inner, outer, op := Multiset(n, s), Multiset(n, t), Power(n, v), Power(n, s + t), OpFactor(v);
    FCodeCountsUniques(n, s, t, v, false, false);
    MultisetPositive(n, s);
    MultisetPositive(n, t);
    PowerPositive(n, v);
    PositiveProduct(ms, mt);
    PositiveProduct(ms * mt, inner);
    PowerAdds(n, s + t, v);
    assert FCode(n, s, t, v, false, false) == Max(op * (ms * mt) * inner, 1);
    assert FNaive(n, s, t, v) == op * (outer * inner);
    assert op >= 1;
    hide Multiset, FCode, FNaive, OpFactor, Power;
    Associate(op, ms * mt, inner);
    ProductOrder(1, op, ms * mt * inner);
    CrossProduct(op, ms * mt, inner, outer);
  }

  lemma CrossProduct(op: int, unique: int, inner: int, outer: int)
    ensures op * unique * inner * outer == op * (outer * inner) * unique
  {
    Associate(op, unique, inner);
    Associate(op, unique * inner, outer);
    Associate(op, outer * inner, unique);
    Associate(unique, inner, outer);
  }

  lemma CodeIsProduct(n: nat, s: nat, t: nat, v: nat, sameObject: bool, innerSymmetry: bool)
    requires n > 0
    ensures FCode(n, s, t, v, sameObject, innerSymmetry)
         == OpFactor(v) * UniqueOutputs(n, s, t, sameObject) * UniqueInner(n, v, innerSymmetry)
  {
    FCodeCountsUniques(n, s, t, v, sameObject, innerSymmetry);
    MultisetPositive(n, s);
    MultisetPositive(n, t);
    MultisetPositive(n, s + t);
    MultisetPositive(n, v);
    PowerPositive(n, v);
    PositiveProduct(Multiset(n, s), Multiset(n, t));
    var unique, inner := UniqueOutputs(n, s, t, sameObject), UniqueInner(n, v, innerSymmetry);
    assert unique > 0 && inner > 0 && OpFactor(v) > 0;
    hide UniqueOutputs, UniqueInner, OpFactor, FCode;
    PositiveProduct(OpFactor(v), unique);
    PositiveProduct(OpFactor(v) * unique, inner);
  }

  lemma SameObjectOutputs(n: nat, s: nat, t: nat)
    ensures UniqueOutputs(n, s, t, true) == Multiset(n, s + t)
  {
    if s == 0 && t == 0 {
      assert Multiset(n, 0) == 1;
    } else if s + t == 1 {
      assert Multiset(n, 0) == 1;
    }
  }

  /** What the options are worth: the count falls as unique outputs and inner indices do, for every group size. */
  lemma OptionsScaleTheCount(n: nat, s: nat, t: nat, v: nat, flag: bool)
    requires n > 0
    ensures FCode(n, s, t, v, true, flag) * (Multiset(n, s) * Multiset(n, t))
         == FCode(n, s, t, v, false, flag) * Multiset(n, s + t)
    ensures FCode(n, s, t, v, flag, true) * Power(n, v) == FCode(n, s, t, v, flag, false) * Multiset(n, v)
  {
    CodeIsProduct(n, s, t, v, true, flag);
    CodeIsProduct(n, s, t, v, false, flag);
    CodeIsProduct(n, s, t, v, flag, true);
    CodeIsProduct(n, s, t, v, flag, false);
    SameObjectOutputs(n, s, t);
    SmallInner(n, v);
    assert UniqueOutputs(n, s, t, false) == Multiset(n, s) * Multiset(n, t);
    assert UniqueInner(n, v, false) == Power(n, v);
    hide *;
    ExchangeFactors(OpFactor(v), Multiset(n, s + t), UniqueInner(n, v, flag), Multiset(n, s) * Multiset(n, t));
    ExchangeLast(OpFactor(v) * UniqueOutputs(n, s, t, flag), Multiset(n, v), Power(n, v));
  }

  lemma ExchangeFactors(op: int, a: int, inner: int, b: int)
    ensures op * a * inner * b == op * b * inner * a
  {
    SwapLast(op * a, inner, b);
    SwapLast(op * b, inner, a);
    SwapLast(op, a, b);
  }

  lemma ExchangeLast(k: int, a: int, b: int)
    ensures k * a * b == k * b * a
  {
    Associate(k, a, b);
    Associate(k, b, a);
  }
}
