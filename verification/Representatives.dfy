/**
 * Full symmetry: when the group contains every exchange of neighbouring axes of an n x ... x n
 * tensor (as every group of all axis permutations does), the representatives are the
 * non-decreasing indices, and there are ((n, k)) of them.
 */
module Representatives {
  import opened FiniteSets
  import opened Permutations
  import opened RowMajor
  import opened AxisActions
  import opened SymmetryGroups
  import opened CanonicalMap
  import opened Combinatorics

  /** The shape of `k` axes of equal extent `n`. */
  function Cube(n: nat, k: nat): Shape { seq(k, _ => n) }

  lemma {:induction false} CubeSize(n: nat, k: nat)
    ensures Size(Cube(n, k)) == Power(n, k)
  {
    if k > 0 {
      CubeSize(n, k - 1);
      assert Cube(n, k)[1..] == Cube(n, k - 1);
    }
  }

  /** Exchange axes `j` and `j + 1`. */
  function Swap(k: nat, j: nat): seq<nat>
    requires j + 1 < k
  {
    seq(k, a => if a == j then j + 1 else if a == j + 1 then j else a)
  }

  /** Every exchange of neighbouring tensor axes is an element of the generated group. */
  ghost predicate HasAdjacentSwaps(shape: Shape, action: Action)
    requires ValidAction(shape, action)
  {
    forall j: nat :: j + 1 < |shape| ==> Achieves(shape, action, Swap(|shape|, j))
  }

  ghost predicate Achieves(shape: Shape, action: Action, perm: seq<nat>)
    requires ValidAction(shape, action)
  {
    exists form :: InGroup(shape, action, form) && ValidForm(shape, action.axes, form)
                && AxisPermutation(|shape|, action.axes, form) == perm
  }

  predicate NonDecreasing(t: seq<nat>) { forall i, j :: 0 <= i < j < |t| ==> t[i] <= t[j] }

  // ---- Rearrangement and sorting ----

  ghost function Occurrences(s: seq<nat>, v: nat): set<nat> { set i | i in Indices(|s|) && s[i] == v }

  lemma OccurrencesStep(init: seq<nat>, x: nat, v: nat)
    ensures |Occurrences(init + [x], v)| == |Occurrences(init, v)| + (if x == v then 1 else 0)
  {
    var m, s := |init|, init + [x];
    assert forall i :: i in Indices(m + 1) <==> i in Indices(m) || i == m;
    if x == v {
      assert Occurrences(s, v) == Occurrences(init, v) + {m};
    } else {
      assert Occurrences(s, v) == Occurrences(init, v);
    }
  }

  lemma {:induction false} MultisetCountsOccurrences(s: seq<nat>, v: nat)
    ensures multiset(s)[v] == |Occurrences(s, v)|
  {
    if s == [] {
      assert Occurrences(s, v) == {};
    } else {
      hide Occurrences;
      var init, last := s[..|s| - 1], s[|s| - 1];
      assert s == init + [last];
      MultisetCountsOccurrences(init, v);
      OccurrencesStep(init, last, v);
    }
  }

  lemma RearrangeKeepsMultiset(x: seq<nat>, perm: seq<nat>)
    requires IsPermutation(perm) && |perm| == |x|
    ensures multiset(Rearrange(x, perm)) == multiset(x)
  {
    var y := Rearrange(x, perm);
    forall v ensures multiset(y)[v] == multiset(x)[v] {
      MultisetCountsOccurrences(x, v);
      MultisetCountsOccurrences(y, v);
      var f := (i: nat) => if i < |perm| then perm[i] else 0;
      var from, to := Occurrences(y, v), Occurrences(x, v);
      forall j | j in to ensures exists i :: i in from && f(i) == j {
        var i := Inverse(perm)[j];
        assert i in from && f(i) == j;
      }
      ImageCardinality(f, from, to);
    }
  }

  lemma LeastHead(a: seq<nat>, b: seq<nat>)
    requires a != [] && b != [] && NonDecreasing(a) && multiset(a) == multiset(b)
    ensures a[0] <= b[0]
  {
    assert b[0] in multiset(b);
    var i :| 0 <= i < |a| && a[i] == b[0];
  }

  lemma TailsAgree(a: seq<nat>, b: seq<nat>)
    requires a != [] && b != [] && a[0] == b[0] && multiset(a) == multiset(b)
    ensures multiset(a[1..]) == multiset(b[1..])
  {
    assert a == [a[0]] + a[1..] && b == [b[0]] + b[1..];
    assert multiset(a[1..]) == multiset(a) - multiset{a[0]};
  }

  /** A non-decreasing sequence is lexicographically least among its rearrangements. */
  lemma {:induction false} SortedIsLexLeast(a: seq<nat>, b: seq<nat>)
    requires |a| == |b| && NonDecreasing(a) && multiset(a) == multiset(b)
    ensures !LexLess(b, a)
  {
    if a != [] {
      LeastHead(a, b);
      if b[0] == a[0] {
        TailsAgree(a, b);
        SortedIsLexLeast(a[1..], b[1..]);
      }
    }
  }

  // ---- Representatives are the sorted indices ----

  lemma SortedIsRepresentative(shape: Shape, action: Action, i: nat)
    requires ValidAction(shape, action) && i < Size(shape)
    ensures NonDecreasing(Decode(shape, i)) ==> OrbitMap(shape, action)[i] == i
  {
    if !NonDecreasing(Decode(shape, i)) { return; }
    var m := OrbitMap(shape, action)[i];
    OrbitMapIsCanonical(shape, action, i, i);
    var form :| InGroup(shape, action, form) && ValidForm(shape, action.axes, form)
             && FormImage(shape, action.axes, form)[i] == m;
    AxisPermutationKeepsShape(shape, action.axes, form);
    var perm := AxisPermutation(|shape|, action.axes, form);
    FlatImageIndex(shape, perm, i);
    RearrangeKeepsMultiset(Decode(shape, m), perm);
    SortedIsLexLeast(Decode(shape, i), Decode(shape, m));
    DecodeInBounds(shape, i);
    DecodeInBounds(shape, m);
    EncodeDecode(shape, i);
    EncodeDecode(shape, m);
    EncodeIsMonotone(shape, Decode(shape, m), Decode(shape, i));
  }

  lemma {:induction false} SwapDescends(x: seq<nat>, y: seq<nat>, j: nat)
    requires |x| == |y| && j + 1 < |x| && y[j] < x[j] && x[..j] == y[..j]
    ensures LexLess(y, x)
  {
    if j > 0 {
      assert x[1..][..j - 1] == x[..j][1..] == y[..j][1..] == y[1..][..j - 1];
      assert x[0] == x[..j][0] == y[..j][0] == y[0];
      SwapDescends(x[1..], y[1..], j - 1);
    }
  }

  /** Exchanging two adjacent entries that are out of order leads to a smaller flat index. */
  lemma SwapLowersPosition(shape: Shape, i: nat, j: nat)
    requires j + 1 < |shape| && KeepsShape(shape, Swap(|shape|, j)) && i < Size(shape)
    requires Decode(shape, i)[j] > Decode(shape, i)[j + 1]
    ensures FlatImage(shape, Swap(|shape|, j))[i] < i
  {
    var perm := Swap(|shape|, j);
    var i' := FlatImage(shape, perm)[i];
    FlatImageIndex(shape, perm, i);
    var x, y := Decode(shape, i), Decode(shape, i');
    SwappedEntries(x, y, j);
    SwapDescends(x, y, j);
    DecodeInBounds(shape, i);
    DecodeInBounds(shape, i');
    EncodeDecode(shape, i);
    EncodeDecode(shape, i');
    EncodeIsMonotone(shape, y, x);
  }

  lemma SwappedEntries(x: seq<nat>, y: seq<nat>, j: nat)
    requires |x| == |y| && j + 1 < |x| && Rearrange(y, Swap(|x|, j)) == x
    ensures x[..j] == y[..j] && y[j] == x[j + 1]
  {
    forall a | 0 <= a < j ensures x[a] == y[a] { assert Rearrange(y, Swap(|x|, j))[a] == y[a]; }
    assert Rearrange(y, Swap(|x|, j))[j + 1] == y[j];
  }

  lemma AchievedImageIsRelated(shape: Shape, action: Action, perm: seq<nat>, i: nat)
    requires ValidAction(shape, action) && KeepsShape(shape, perm) && i < Size(shape)
    requires Achieves(shape, action, perm)
    ensures Related(shape, action, i, FlatImage(shape, perm)[i])
  {
    var form :| InGroup(shape, action, form) && ValidForm(shape, action.axes, form)
             && AxisPermutation(|shape|, action.axes, form) == perm;
    assert FormImage(shape, action.axes, form)[i] == FlatImage(shape, perm)[i];
  }

  lemma SwapKeepsCube(n: nat, k: nat, j: nat)
    requires j + 1 < k
    ensures KeepsShape(Cube(n, k), Swap(k, j))
  {
  }

  lemma DescentIsNotRepresentative(n: nat, k: nat, action: Action, i: nat, j: nat)
    requires ValidAction(Cube(n, k), action) && HasAdjacentSwaps(Cube(n, k), action)
    requires i < Size(Cube(n, k)) && j + 1 < k
    ensures Decode(Cube(n, k), i)[j] > Decode(Cube(n, k), i)[j + 1] ==> OrbitMap(Cube(n, k), action)[i] < i
  {
    hide KeepsShape, Related, Achieves, ValidAction, OrbitMap;
    var shape := Cube(n, k);
    if Decode(shape, i)[j] > Decode(shape, i)[j + 1] {
      assert |shape| == k;
      SwapKeepsCube(n, k, j);
      assert Achieves(shape, action, Swap(|shape|, j));
      AchievedImageIsRelated(shape, action, Swap(k, j), i);
      SwapLowersPosition(shape, i, j);
      OrbitMapIsCanonical(shape, action, i, FlatImage(shape, Swap(k, j))[i]);
    }
  }

  lemma {:induction false} DescentExists(t: seq<nat>) returns (j: nat)
    requires !NonDecreasing(t)
    ensures j + 1 < |t| && t[j] > t[j + 1]
  {
    if |t| >= 2 && t[0] > t[1] {
      j := 0;
    } else {
      assert !NonDecreasing(t[1..]) by {
        if NonDecreasing(t[1..]) {
          forall i, l | 0 <= i < l < |t| ensures t[i] <= t[l] {
            assert t[l] == t[1..][l - 1];
            if i == 0 { if l > 1 { assert t[1..][0] <= t[1..][l - 1]; } } else { assert t[i] == t[1..][i - 1]; }
          }
        }
      }
      j := DescentExists(t[1..]);
      j := j + 1;
    }
  }

  /** Under full symmetry the fixed points of the orbit map are the non-decreasing indices. */
  lemma {:induction false} RepresentativeIffNonDecreasing(n: nat, k: nat, action: Action, i: nat)
    requires ValidAction(Cube(n, k), action) && HasAdjacentSwaps(Cube(n, k), action)
    requires i < Size(Cube(n, k))
    ensures OrbitMap(Cube(n, k), action)[i] == i <==> NonDecreasing(Decode(Cube(n, k), i))
  {
    if NonDecreasing(Decode(Cube(n, k), i)) {
      SortedIsRepresentative(Cube(n, k), action, i);
    } else {
      var j := DescentExists(Decode(Cube(n, k), i));
      DescentIsNotRepresentative(n, k, action, i, j);
    }
  }

  // ---- Counting them ----

  ghost predicate SortedTuple(n: nat, k: nat, lo: nat, t: seq<nat>) {
    |t| == k && NonDecreasing(t) && forall i :: 0 <= i < k ==> lo <= t[i] < n
  }

  /** Non-decreasing `k`-tuples over [lo, n): those that start with `lo`, then those that do not use it. */
  ghost function SortedTuples(n: nat, k: nat, lo: nat): (s: set<seq<nat>>)
    requires lo <= n
    decreases n - lo, k
  {
    if k == 0 then {[]}
    else if lo == n then {}
    else Prefixed(lo, SortedTuples(n, k - 1, lo)) + SortedTuples(n, k, lo + 1)
  }

  lemma NoTupleOverNothing(n: nat, k: nat, t: seq<nat>)
    requires k > 0
    ensures !SortedTuple(n, k, n, t)
  {
    if t != [] { assert !(n <= t[0] < n); }
  }

  lemma EmptyTuple(n: nat, lo: nat, t: seq<nat>)
    ensures SortedTuple(n, 0, lo, t) <==> t == []
  {
  }

  lemma {:induction false} SortedTuplesMembers(n: nat, k: nat, lo: nat, t: seq<nat>)
    requires lo <= n
    ensures t in SortedTuples(n, k, lo) <==> SortedTuple(n, k, lo, t)
    decreases n - lo, k
  {
    hide SortedTuple, Prefixed;
    if k == 0 {
      EmptyTuple(n, lo, t);
    } else if lo < n {
      SortedTuplesMembers(n, k, lo + 1, t);
      if t != [] {
        SortedTuplesMembers(n, k - 1, lo, t[1..]);
      }
      PrefixedMember(lo, SortedTuples(n, k - 1, lo), t);
      FirstEntryDecides(n, k, lo, t);
    } else {
      NoTupleOverNothing(n, k, t);
    }
  }

  lemma FirstEntryDecides(n: nat, k: nat, lo: nat, t: seq<nat>)
    requires k > 0 && lo < n
    ensures SortedTuple(n, k, lo, t)
       <==> (t != [] && t[0] == lo && SortedTuple(n, k - 1, lo, t[1..])) || SortedTuple(n, k, lo + 1, t)
  {
    if t != [] && t[0] == lo && SortedTuple(n, k - 1, lo, t[1..]) {
      forall i | 0 <= i < k ensures lo <= t[i] < n { if i > 0 { assert t[i] == t[1..][i - 1]; } }
      forall i, j | 0 <= i < j < k ensures t[i] <= t[j] {
        assert t[j] == t[1..][j - 1];
        if i > 0 { assert t[i] == t[1..][i - 1]; }
      }
    }
    if SortedTuple(n, k, lo, t) && t[0] != lo {
      forall i | 0 <= i < k ensures lo + 1 <= t[i] { assert t[0] <= t[i]; }
    }
  }

  lemma SortedTuplesBase(n: nat, k: nat, lo: nat)
    requires lo <= n && (k == 0 || lo == n)
    ensures |SortedTuples(n, k, lo)| == Multiset(n - lo, k)
  {
    if k > 0 { MultisetOfNothing(k); }
  }

  lemma {:induction false} SortedTuplesCount(n: nat, k: nat, lo: nat)
    requires lo <= n
    ensures |SortedTuples(n, k, lo)| == Multiset(n - lo, k)
    decreases n - lo, k
  {
    hide *;
    if k == 0 || lo == n {
      SortedTuplesBase(n, k, lo);
    } else {
      SortedTuplesCount(n, k - 1, lo);
      SortedTuplesCount(n, k, lo + 1);
      FirstValueSplits(n, k, lo);
      MultisetPascal(n - lo, k);
    }
  }

  lemma FirstValueSplits(n: nat, k: nat, lo: nat)
    requires lo < n && k > 0
    ensures |SortedTuples(n, k, lo)| == |SortedTuples(n, k - 1, lo)| + |SortedTuples(n, k, lo + 1)|
  {
    var with, without := Prefixed(lo, SortedTuples(n, k - 1, lo)), SortedTuples(n, k, lo + 1);
    assert SortedTuples(n, k, lo) == with + without;
    hide *;
    forall t | t in without ensures t !in with {
      SortedTupleStart(n, k, lo, t);
    }
    assert with !! without;
  }

  lemma SortedTupleStart(n: nat, k: nat, lo: nat, t: seq<nat>)
    requires lo < n && k > 0 && t in SortedTuples(n, k, lo + 1)
    ensures t !in Prefixed(lo, SortedTuples(n, k - 1, lo))
  {
    hide Prefixed, SortedTuples;
    SortedTuplesMembers(n, k, lo + 1, t);
    PrefixedMember(lo, SortedTuples(n, k - 1, lo), t);
  }

  ghost function RepresentativesOf(shape: Shape, action: Action): set<nat>
    requires ValidAction(shape, action)
  {
    set i | i in Indices(Size(shape)) && OrbitMap(shape, action)[i] == i
  }

  lemma CubeBounds(n: nat, k: nat, t: seq<nat>)
    ensures InBounds(Cube(n, k), t) && NonDecreasing(t) <==> SortedTuple(n, k, 0, t)
  {
  }

  /** The closed-form cost counts the representatives the orbit map leaves. */
  lemma RepresentativeCount(n: nat, k: nat, action: Action)
    requires ValidAction(Cube(n, k), action) && HasAdjacentSwaps(Cube(n, k), action)
    ensures |RepresentativesOf(Cube(n, k), action)| == Multiset(n, k)
  {
    var shape := Cube(n, k);
    var reps, tuples := RepresentativesOf(shape, action), SortedTuples(n, k, 0);
    var f := (t: seq<nat>) => if |t| == |shape| then Encode(shape, t) else 0;
    forall t | t in tuples ensures |t| == |shape| && InBounds(shape, t) && f(t) in reps {
      SortedTuplesMembers(n, k, 0, t);
      CubeBounds(n, k, t);
      DecodeEncode(shape, t);
      RepresentativeIffNonDecreasing(n, k, action, Encode(shape, t));
    }
    forall i | i in reps ensures exists t :: t in tuples && f(t) == i {
      var t := Decode(shape, i);
      DecodeInBounds(shape, i);
      RepresentativeIffNonDecreasing(n, k, action, i);
      CubeBounds(n, k, t);
      SortedTuplesMembers(n, k, 0, t);
      EncodeDecode(shape, i);
      assert t in tuples && f(t) == i;
    }
    assert InjectiveOn(f, tuples) by {
      forall x, y {:trigger f(x), f(y)} | x in tuples && y in tuples && f(x) == f(y) ensures x == y {
        DecodeEncode(shape, x);
        DecodeEncode(shape, y);
      }
    }
    ImageCardinality(f, tuples, reps);
    SortedTuplesCount(n, k, 0);
  }

  // ---- The symmetric group as the library builds it ----

  /** `SymmetryGroup.symmetric` on all axes: one generator per exchange of neighbours. */
  function SymmetricAction(k: nat): Action {
    Action(Identity(k), k, seq(if k == 0 then 0 else k - 1, j requires 0 <= j < k - 1 => Swap(k, j)))
  }

  lemma SwapIsPermutation(k: nat, j: nat)
    requires j + 1 < k
    ensures IsPermutation(Swap(k, j))
  {
  }

  lemma SymmetricActionIsValid(n: nat, k: nat)
    ensures ValidAction(Cube(n, k), SymmetricAction(k))
  {
    var action := SymmetricAction(k);
    forall g | 0 <= g < |action.forms| ensures ValidForm(Cube(n, k), action.axes, action.forms[g]) {
      SwapIsPermutation(k, g);
    }
  }

  lemma OnAllAxes(shape: Shape, form: seq<nat>)
    requires ValidForm(shape, Identity(|shape|), form)
    ensures AxisPermutation(|shape|, Identity(|shape|), form) == form
  {
    forall a | 0 <= a < |shape| ensures AxisPermutation(|shape|, Identity(|shape|), form)[a] == form[a] {
      AxisPermutationAt(shape, Identity(|shape|), form, a);
    }
  }

  lemma SymmetricActionHasSwaps(n: nat, k: nat)
    ensures ValidAction(Cube(n, k), SymmetricAction(k))
    ensures HasAdjacentSwaps(Cube(n, k), SymmetricAction(k))
  {
    SymmetricActionIsValid(n, k);
    var shape, action := Cube(n, k), SymmetricAction(k);
    forall j: nat | j + 1 < |shape| ensures Achieves(shape, action, Swap(|shape|, j)) {
      hide AxisPermutation, InGroup;
      GeneratorInGroup(shape, action, j);
      OnAllAxes(shape, action.forms[j]);
    }
  }

  /** Under the library's symmetric group the orbit map leaves ((n, k)) representatives. */
  lemma SymmetricRepresentativeCount(n: nat, k: nat)
    ensures ValidAction(Cube(n, k), SymmetricAction(k))
    ensures |RepresentativesOf(Cube(n, k), SymmetricAction(k))| == Multiset(n, k)
  {
    SymmetricActionHasSwaps(n, k);
    RepresentativeCount(n, k, SymmetricAction(k));
  }
}
