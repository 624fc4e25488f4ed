/** From a tolerated symmetry to an exact one: the bitwise test, the copy of representatives, the fast path. */
module Canonicalization {
  import opened Options
  import opened Permutations
  import opened Orbits
  import opened RowMajor
  import opened AxisActions
  import opened SymmetryGroups
  import opened CanonicalMap
  import opened Cells
  import opened RecencyStack
  import opened OrbitMapCache

  /** A buffer together with a group that passed validation for its shape. */
  ghost predicate Accepted(a: NdArray, group: SymmetryGroup) {
    WellTyped(a) && ValidAction(a.shape, FullAction(group))
  }

  ghost predicate IsIdentityForm(form: seq<nat>) { form == Identity(|form|) }

  ghost predicate OnlyIdentities(group: SymmetryGroup) {
    forall g :: 0 <= g < |group.generators| ==> IsIdentityForm(group.generators[g])
  }

  /** The buffer equals its transpose under one generator, zeros compared with their sign. */
  ghost predicate PassesTest(a: NdArray, perm: seq<nat>)
    requires WellTyped(a) && KeepsShape(a.shape, perm)
  {
    var t := Transposed(a.shape, a.data, perm);
    && ArrayEqual(a.data, t)
    && (a.kind != Exact ==> RealSignsEqual(a.data, t))
    && (a.kind == Complex ==> ImagSignsEqual(a.data, t))
  }

  ghost function GeneratorPermutation(a: NdArray, group: SymmetryGroup, g: nat): (perm: seq<nat>)
    requires Accepted(a, group) && g < |group.generators|
    ensures KeepsShape(a.shape, perm)
  {
    AxisPermutationKeepsShape(a.shape, ResolvedAxes(group), group.generators[g]);
    AxisPermutation(|a.shape|, ResolvedAxes(group), group.generators[g])
  }

  /** The test has nothing to say against generator `g`; identities are not tried. */
  ghost predicate PassesGenerator(a: NdArray, group: SymmetryGroup, g: nat)
    requires Accepted(a, group) && g < |group.generators|
  {
    IsIdentityForm(group.generators[g]) || PassesTest(a, GeneratorPermutation(a, group, g))
  }

  ghost predicate AnswersTrue(a: NdArray, group: SymmetryGroup)
    requires Accepted(a, group)
  {
    forall g: nat :: g < |group.generators| ==> PassesGenerator(a, group, g)
  }

  method TestGenerator(a: NdArray, group: SymmetryGroup, g: nat) returns (pass: bool)
    requires Accepted(a, group) && g < |group.generators|
    ensures pass == PassesGenerator(a, group, g)
  {
    var form := group.generators[g];
    if form == Identity(|form|) { return true; }
    var perm := FillAxisPermutation(a.shape, ResolvedAxes(group), form);
    assert perm == GeneratorPermutation(a, group, g);
    var transposed := Transposed(a.shape, a.data, perm);
    if !ArrayEqual(a.data, transposed) { return false; }
    if a.kind != Exact {
      if !RealSignsEqual(a.data, transposed)
        || (a.kind == Complex && !ImagSignsEqual(a.data, transposed)) { return false; }
    }
    return true;
  }

  method IsExactlyInvariant(a: NdArray, group: SymmetryGroup) returns (answer: bool)
    requires Accepted(a, group)
    ensures answer == AnswersTrue(a, group)
  {
    hide PassesGenerator;
    for g := 0 to |group.generators|
      invariant forall h: nat :: h < g ==> PassesGenerator(a, group, h)
    {
      var pass := TestGenerator(a, group, g);
      if !pass { return false; }
    }
    return true;
  }

  // ---- What a True answer means ----

  /** A group element leaves every bit of the buffer where it is. */
  ghost predicate FixedBy(a: NdArray, group: SymmetryGroup, form: seq<nat>)
    requires Accepted(a, group) && ValidForm(a.shape, ResolvedAxes(group), form)
  {
    AxisPermutationKeepsShape(a.shape, ResolvedAxes(group), form);
    Transposed(a.shape, a.data, AxisPermutation(|a.shape|, ResolvedAxes(group), form)) == a.data
  }

  ghost predicate FixedByGroup(a: NdArray, group: SymmetryGroup)
    requires Accepted(a, group)
  {
    forall form :: InGroup(a.shape, FullAction(group), form) ==>
      ValidForm(a.shape, ResolvedAxes(group), form) && FixedBy(a, group, form)
  }

  /** The whole test on two equally typed buffers is identity of bits without NaN. */
  lemma SignedEqualityOfBuffers(x: seq<Cell>, y: seq<Cell>, kind: Kind)
    requires |x| == |y| && forall k :: 0 <= k < |x| ==> OfKind(x[k], kind) && OfKind(y[k], kind)
    ensures ArrayEqual(x, y)
            && (kind != Exact ==> RealSignsEqual(x, y))
            && (kind == Complex ==> ImagSignsEqual(x, y))
            <==> x == y && forall k :: 0 <= k < |x| ==> !HasNaN(x[k])
  {
    hide OfKind, CellEqual, RealSign, ImagSign, HasNaN;
    forall k | 0 <= k < |x|
      ensures CellEqual(x[k], y[k])
              && (kind != Exact ==> RealSign(x[k]) == RealSign(y[k]))
              && (kind == Complex ==> ImagSign(x[k]) == ImagSign(y[k]))
              <==> x[k] == y[k] && !HasNaN(x[k])
    {
      SignedEqualityIsIdentity(x[k], y[k], kind);
    }
  }

  lemma TestMeansFixed(a: NdArray, perm: seq<nat>)
    requires WellTyped(a) && KeepsShape(a.shape, perm)
    ensures PassesTest(a, perm) <==> Transposed(a.shape, a.data, perm) == a.data && NaNFree(a)
  {
    SignedEqualityOfBuffers(a.data, Transposed(a.shape, a.data, perm), a.kind);
  }

  lemma IdentityFixes(a: NdArray, group: SymmetryGroup, form: seq<nat>)
    requires Accepted(a, group) && ValidForm(a.shape, ResolvedAxes(group), form)
    requires IsIdentityForm(form)
    ensures FixedBy(a, group, form)
  {
    var axes := ResolvedAxes(group);
    AxisPermutationKeepsShape(a.shape, axes, form);
    var perm := AxisPermutation(|a.shape|, axes, form);
    forall k | 0 <= k < |a.data| ensures Transposed(a.shape, a.data, perm)[k] == a.data[k] {
      FormImageOfIdentity(a.shape, axes, k);
      assert FlatImage(a.shape, perm)[k] == k;
    }
  }

  /** Fixed by the generators is fixed one flat step further along every generator image. */
  lemma GeneratorsFixSteps(a: NdArray, group: SymmetryGroup)
    requires Accepted(a, group)
    requires forall g: nat :: g < |group.generators| ==> FixedBy(a, group, group.generators[g])
    ensures StepInvariant(Images(a.shape, FullAction(group)), Size(a.shape), a.data)
  {
    var images := Images(a.shape, FullAction(group));
    forall g, k {:trigger images[g][k]} | 0 <= g < |images| && 0 <= k < Size(a.shape)
      ensures a.data[k] == a.data[images[g][k]]
    {
      assert FixedBy(a, group, group.generators[g]);
      var perm := GeneratorPermutation(a, group, g);
      assert Transposed(a.shape, a.data, perm)[k] == a.data[FlatImage(a.shape, perm)[k]];
    }
  }

  lemma StepsFixGroup(a: NdArray, group: SymmetryGroup)
    requires Accepted(a, group)
    requires StepInvariant(Images(a.shape, FullAction(group)), Size(a.shape), a.data)
    ensures FixedByGroup(a, group)
  {
    var action := FullAction(group);
    forall form | InGroup(a.shape, action, form) ensures FixedBy(a, group, form) {
      var w :| ValidWord(|action.forms|, w) && WordForm(a.shape, action, w) == form;
      AxisPermutationKeepsShape(a.shape, action.axes, form);
      var perm := AxisPermutation(|a.shape|, action.axes, form);
      forall k | 0 <= k < |a.data| ensures Transposed(a.shape, a.data, perm)[k] == a.data[k] {
        WordFormActs(a.shape, action, w, k);
        StepInvariantFollowsWords(Images(a.shape, action), Size(a.shape), a.data, w, k);
        assert FlatImage(a.shape, perm)[k] == FormImage(a.shape, action.axes, form)[k];
      }
    }
  }

  lemma GroupFixesSteps(a: NdArray, group: SymmetryGroup)
    requires Accepted(a, group) && FixedByGroup(a, group)
    ensures StepInvariant(Images(a.shape, FullAction(group)), Size(a.shape), a.data)
  {
    forall g: nat | g < |group.generators| ensures FixedBy(a, group, group.generators[g]) {
      GeneratorInGroup(a.shape, FullAction(group), g);
    }
    GeneratorsFixSteps(a, group);
  }

  /**
   * The test answers True exactly when every element of the generated group fixes the buffer bit
   * for bit, except that a NaN anywhere makes it answer False as soon as there is a generator to try.
   */
  lemma AnswerIsExact(a: NdArray, group: SymmetryGroup)
    requires Accepted(a, group)
    ensures AnswersTrue(a, group) <==> FixedByGroup(a, group) && (NaNFree(a) || OnlyIdentities(group))
  {
    if AnswersTrue(a, group) {
      forall g: nat | g < |group.generators| ensures FixedBy(a, group, group.generators[g]) {
        assert PassesGenerator(a, group, g);
        TestMeansFixed(a, GeneratorPermutation(a, group, g));
        if IsIdentityForm(group.generators[g]) { IdentityFixes(a, group, group.generators[g]); }
      }
      GeneratorsFixSteps(a, group);
      StepsFixGroup(a, group);
      if !OnlyIdentities(group) {
        var g: nat :| g < |group.generators| && !IsIdentityForm(group.generators[g]);
        assert PassesGenerator(a, group, g);
        TestMeansFixed(a, GeneratorPermutation(a, group, g));
      }
    }
    if FixedByGroup(a, group) && NaNFree(a) {
      forall g: nat | g < |group.generators| ensures PassesGenerator(a, group, g) {
        GeneratorInGroup(a.shape, FullAction(group), g);
        assert FixedBy(a, group, group.generators[g]);
        TestMeansFixed(a, GeneratorPermutation(a, group, g));
      }
    }
  }

  ghost predicate FixedAndRejected(a: NdArray, group: SymmetryGroup) {
    Accepted(a, group) && FixedByGroup(a, group) && !AnswersTrue(a, group)
  }

  /** Buffers the whole group fixes and the test rejects: one NaN, two axes of extent 1 exchanged. */
  lemma FixedNaNIsRejected(sign: bool, payload: nat, other: Float)
    ensures var nan, group := NaN(sign, payload), SymmetryGroup(None, 2, [[1, 0]]);
            && FixedAndRejected(NdArray([1, 1], Floating, [FloatCell(nan)]), group)
            && FixedAndRejected(NdArray([1, 1], Complex, [ComplexCell(nan, other)]), group)
            && FixedAndRejected(NdArray([1, 1], Complex, [ComplexCell(other, nan)]), group)
  {
    var nan := NaN(sign, payload);
    OneNaNIsRejected(Floating, FloatCell(nan));
    OneNaNIsRejected(Complex, ComplexCell(nan, other));
    OneNaNIsRejected(Complex, ComplexCell(other, nan));
  }

  lemma OneNaNIsRejected(kind: Kind, c: Cell)
    requires OfKind(c, kind) && HasNaN(c)
    ensures FixedAndRejected(NdArray([1, 1], kind, [c]), SymmetryGroup(None, 2, [[1, 0]]))
  {
    var a, group := NdArray([1, 1], kind, [c]), SymmetryGroup(None, 2, [[1, 0]]);
    assert [1, 1][1..] == [1] && [1][1..] == [];
    assert Size(a.shape) == 1 * Size([1]);
    assert ValidForm(a.shape, Identity(2), [1, 0]);
    OneCellIsFixed(a, group);
    AnswerIsExact(a, group);
    assert HasNaN(a.data[0]);
    assert !IsIdentityForm(group.generators[0]) by { assert Identity(2)[0] == 0; }
  }

  lemma OneCellIsFixed(a: NdArray, group: SymmetryGroup)
    requires Accepted(a, group) && |a.data| == 1
    ensures FixedByGroup(a, group)
  {
    forall form | InGroup(a.shape, FullAction(group), form) ensures FixedBy(a, group, form) {
      AxisPermutationKeepsShape(a.shape, ResolvedAxes(group), form);
      var t := Transposed(a.shape, a.data, AxisPermutation(|a.shape|, ResolvedAxes(group), form));
      assert t[0] == a.data[0];
    }
  }

  // ---- The canonical copy ----

  /** The orbit map of a shape and a group, as the cache keys it. */
  ghost function MapFor(shape: Shape, group: SymmetryGroup): (labels: seq<nat>)
    requires ValidAction(shape, FullAction(group))
    ensures |labels| == Size(shape) && forall i :: 0 <= i < |labels| ==> labels[i] < |labels|
  {
    FingerprintIsValid(shape, group);
    OrbitMap(shape, GeneratorFingerprint(group))
  }

  /** Some element of the group carries position `i` to `j`. */
  ghost predicate Identified(shape: Shape, group: SymmetryGroup, i: nat, j: nat)
    requires ValidAction(shape, FullAction(group)) && i < Size(shape)
  {
    Related(shape, FullAction(group), i, j)
  }

  lemma FingerprintRelates(shape: Shape, group: SymmetryGroup, i: nat, j: nat)
    requires ValidAction(shape, FullAction(group)) && i < Size(shape)
    ensures ValidAction(shape, GeneratorFingerprint(group))
    ensures Identified(shape, group, i, j) <==> Related(shape, GeneratorFingerprint(group), i, j)
  {
    FingerprintIsValid(shape, group);
    forall form ensures InGroup(shape, FullAction(group), form) <==> InGroup(shape, GeneratorFingerprint(group), form) {
      FingerprintKeepsGroup(shape, group, form);
    }
  }

  /** The map of the fingerprint identifies what the whole group identifies, least position first. */
  lemma {:induction false} MapForIsCanonical(shape: Shape, group: SymmetryGroup, i: nat, j: nat)
    requires ValidAction(shape, FullAction(group)) && i < Size(shape) && j < Size(shape)
    ensures var labels := MapFor(shape, group);
            && labels[i] <= i
            && labels[labels[i]] == labels[i]
            && Identified(shape, group, i, labels[i])
            && (labels[i] == labels[j] <==> Identified(shape, group, i, j))
            && (Identified(shape, group, i, j) ==> labels[i] <= j)
  {
    FingerprintRelates(shape, group, i, j);
    FingerprintRelates(shape, group, i, MapFor(shape, group)[i]);
    OrbitMapIsCanonical(shape, GeneratorFingerprint(group), i, j);
  }

  // ---- Which axes a group acts on ----

  /** The entry on the axis of position p goes to the axis of position form[p]; all others stay. */
  ghost predicate MovesOn(axes: seq<nat>, form: seq<nat>, x: Index, y: Index) {
    && |x| == |y| && |axes| == |form|
    && (forall p: nat :: p < |form| ==>
          form[p] < |axes| && axes[p] < |x| && axes[form[p]] < |y| && y[axes[form[p]]] == x[axes[p]])
    && forall a: nat :: a < |x| && a !in axes ==> y[a] == x[a]
  }

  /**
   * What a form does to a tensor index, read off the axes the group lists, or off the leading ones when it
   * lists none.
   */
  ghost predicate Moves(group: SymmetryGroup, form: seq<nat>, x: Index, y: Index) {
    |x| == |y| &&
    match group.axes
    case Some(axes) => MovesOn(axes, form, x, y)
    case None =>
      && |form| <= |x|
      && (forall p: nat :: p < |form| ==> form[p] < |form| && y[form[p]] == x[p])
      && forall a: nat :: |form| <= a < |x| ==> y[a] == x[a]
  }

  lemma MovesOnResolvedAxes(group: SymmetryGroup, form: seq<nat>, x: Index, y: Index)
    requires |form| == group.degree == |ResolvedAxes(group)| && |x| == |y|
    requires forall p: nat :: p < |form| ==> form[p] < |form| && ResolvedAxes(group)[p] < |x|
    ensures Moves(group, form, x, y) <==> MovesOn(ResolvedAxes(group), form, x, y)
  {
    var axes := ResolvedAxes(group);
    if group.axes.None? {
      forall a: nat ensures a in axes <==> a < |form| { if a < |form| { assert axes[a] == a; } }
      if |form| > 0 { assert axes[|form| - 1] < |x|; }
      forall p: nat | p < |form| ensures axes[p] == p && axes[form[p]] == form[p] {}
    }
  }

  lemma RearrangedIffMoves(axes: seq<nat>, form: seq<nat>, perm: seq<nat>, x: Index, y: Index)
    requires |form| == |axes| && |x| == |y| == |perm| && forall c: nat :: c < |perm| ==> perm[c] < |perm|
    requires forall p: nat :: p < |axes| ==>
               axes[p] < |x| && form[p] < |axes| && axes[form[p]] < |y| && perm[axes[p]] == axes[form[p]]
    requires forall a: nat :: a < |perm| && a !in axes ==> perm[a] == a
    ensures MovesOn(axes, form, x, y) <==> Rearrange(y, perm) == x
  {
    if MovesOn(axes, form, x, y) {
      forall c: nat | c < |x| ensures y[perm[c]] == x[c] {
        if c in axes { assert axes[Position(axes, c)] == c; }
      }
    }
    if Rearrange(y, perm) == x {
      forall c: nat | c < |x| ensures x[c] == y[perm[c]] { assert Rearrange(y, perm)[c] == y[perm[c]]; }
    }
  }

  lemma MovesAlongPermutation(shape: Shape, group: SymmetryGroup, form: seq<nat>, x: Index, y: Index)
    requires ValidForm(shape, ResolvedAxes(group), form) && |form| == group.degree && |x| == |y| == |shape|
    ensures KeepsShape(shape, AxisPermutation(|shape|, ResolvedAxes(group), form))
    ensures Moves(group, form, x, y) <==> Rearrange(y, AxisPermutation(|shape|, ResolvedAxes(group), form)) == x
  {
    var axes := ResolvedAxes(group);
    AxisPermutationKeepsShape(shape, axes, form);
    var perm := AxisPermutation(|shape|, axes, form);
    forall p: nat | p < |axes| ensures axes[p] < |x| && form[p] < |axes| && perm[axes[p]] == axes[form[p]] {
      AxisPermutationAt(shape, axes, form, p);
    }
    assert forall a: nat :: a < |shape| && a !in axes ==> perm[a] == a;
    hide ValidForm, Moves, MovesOn, AxisPermutation, ResolvedAxes, Rearrange;
    MovesOnResolvedAxes(group, form, x, y);
    RearrangedIffMoves(axes, form, perm, x, y);
  }

  /** The flat image of a form is the position whose index the form moves to. */
  lemma ImageMoves(shape: Shape, group: SymmetryGroup, form: seq<nat>, i: nat, j: nat)
    requires ValidForm(shape, ResolvedAxes(group), form) && |form| == group.degree
    requires i < Size(shape) && j < Size(shape)
    ensures FormImage(shape, ResolvedAxes(group), form)[i] == j
       <==> Moves(group, form, Decode(shape, i), Decode(shape, j))
  {
    var axes := ResolvedAxes(group);
    MovesAlongPermutation(shape, group, form, Decode(shape, i), Decode(shape, j));
    var perm := AxisPermutation(|shape|, axes, form);
    var k := FlatImage(shape, perm)[i];
    FlatImageIndex(shape, perm, i);
    hide Moves, ValidForm, Decode, AxisPermutation, ResolvedAxes;
    if Rearrange(Decode(shape, j), perm) == Decode(shape, i) {
      RearrangeCancels(Decode(shape, j), Decode(shape, k), perm);
      EncodeDecode(shape, j);
      EncodeDecode(shape, k);
    }
  }

  /** Positions are identified exactly when some element of the group moves one index to the other. */
  lemma IdentifiedIffMoved(shape: Shape, group: SymmetryGroup, i: nat, j: nat)
    requires ValidAction(shape, FullAction(group)) && i < Size(shape) && j < Size(shape)
    ensures Identified(shape, group, i, j)
       <==> exists form :: InGroup(shape, FullAction(group), form)
                        && Moves(group, form, Decode(shape, i), Decode(shape, j))
  {
    hide Moves, InGroup, ValidForm, FormImage;
    forall form | InGroup(shape, FullAction(group), form)
      ensures ValidForm(shape, ResolvedAxes(group), form)
      ensures FormImage(shape, ResolvedAxes(group), form)[i] == j
         <==> Moves(group, form, Decode(shape, i), Decode(shape, j))
    {
      GroupFormFits(shape, group, form);
      ImageMoves(shape, group, form, i, j);
    }
  }

  lemma GroupFormFits(shape: Shape, group: SymmetryGroup, form: seq<nat>)
    requires ValidAction(shape, FullAction(group)) && InGroup(shape, FullAction(group), form)
    ensures ValidForm(shape, ResolvedAxes(group), form) && |form| == group.degree
  {
  }

  /** Identified indices agree on every axis the group does not list, or on all but the leading ones. */
  lemma IdentifiedKeepOtherAxes(shape: Shape, group: SymmetryGroup, i: nat, j: nat, a: nat)
    requires ValidAction(shape, FullAction(group)) && i < Size(shape) && j < Size(shape) && a < |shape|
    requires Identified(shape, group, i, j)
    requires if group.axes.Some? then a !in group.axes.value else a >= group.degree
    ensures Decode(shape, j)[a] == Decode(shape, i)[a]
  {
    IdentifiedIffMoved(shape, group, i, j);
    var form :| InGroup(shape, FullAction(group), form) && Moves(group, form, Decode(shape, i), Decode(shape, j));
    GroupFormFits(shape, group, form);
    hide InGroup, Decode, ValidForm;
  }

  /** Every generator identifies each position with the one whose index it moves that position's index to. */
  lemma GeneratorIdentifies(shape: Shape, group: SymmetryGroup, g: nat, i: nat) returns (j: nat)
    requires ValidAction(shape, FullAction(group)) && g < |group.generators| && i < Size(shape)
    ensures j < Size(shape) && Identified(shape, group, i, j)
    ensures Moves(group, group.generators[g], Decode(shape, i), Decode(shape, j))
    ensures |group.generators[g]| == group.degree
  {
    hide Moves, InGroup, Decode;
    var form := group.generators[g];
    GeneratorInGroup(shape, FullAction(group), g);
    GroupFormFits(shape, group, form);
    j := FormImage(shape, ResolvedAxes(group), form)[i];
    ImageMoves(shape, group, form, i, j);
    assert Related(shape, FullAction(group), i, j);
  }

  /** The gather through the orbit map. */
  ghost function CanonicalCopyOf(a: NdArray, group: SymmetryGroup): (c: NdArray)
    requires Accepted(a, group)
    ensures Accepted(c, group) && c.shape == a.shape && c.kind == a.kind
  {
    a.(data := Rearrange(a.data, MapFor(a.shape, group)))
  }

  /** The gather through the process-wide cache, whatever that cache holds. */
  method CanonicalCopy(cache: Cache, a: NdArray, group: SymmetryGroup) returns (c: NdArray)
    requires Accepted(a, group) && cache.Valid()
    modifies cache
    ensures cache.Valid() && c == CanonicalCopyOf(a, group)
    ensures cache.history == old(cache.history)
              + if Size(a.shape) == 0 then [] else [Key(a.shape, GeneratorFingerprint(group))]
  {
    if Size(a.shape) == 0 {
      assert a.data == [];
      return a;
    }
    FingerprintIsValid(a.shape, group);
    var mapping := cache.Get(a.shape, GeneratorFingerprint(group));
    c := a.(data := Rearrange(a.data, mapping));
  }

  /** A buffer every group element fixes is its own canonical copy, and no other buffer is. */
  lemma {:induction false} FixedIffOwnCopy(a: NdArray, group: SymmetryGroup)
    requires Accepted(a, group)
    ensures FixedByGroup(a, group) <==> CanonicalCopyOf(a, group) == a
  {
    var images, n := Images(a.shape, FullAction(group)), Size(a.shape);
    var labels := MapFor(a.shape, group);
    if FixedByGroup(a, group) {
      GroupFixesSteps(a, group);
      forall i | 0 <= i < n ensures a.data[labels[i]] == a.data[i] {
        MapForIsCanonical(a.shape, group, i, i);
        RelatedIffSameOrbit(a.shape, FullAction(group), i, labels[i]);
        var w :| ValidWord(|images|, w) && Act(images, n, w, i) == labels[i];
        StepInvariantFollowsWords(images, n, a.data, w, i);
      }
      assert CanonicalCopyOf(a, group).data == a.data;
    }
    if CanonicalCopyOf(a, group) == a { CopyIsFixed(a, group); }
  }

  /** Every group element fixes a canonical copy bit for bit. */
  lemma {:induction false} CopyIsFixed(a: NdArray, group: SymmetryGroup)
    requires Accepted(a, group)
    ensures FixedByGroup(CanonicalCopyOf(a, group), group)
  {
    var c := CanonicalCopyOf(a, group);
    var images, n := Images(a.shape, FullAction(group)), Size(a.shape);
    forall g, k {:trigger images[g][k]} | 0 <= g < |images| && 0 <= k < n
      ensures c.data[k] == c.data[images[g][k]]
    {
      SameOrbitStep(images, n, k, g);
      RelatedIffSameOrbit(a.shape, FullAction(group), k, images[g][k]);
      MapForIsCanonical(a.shape, group, k, images[g][k]);
    }
    StepsFixGroup(c, group);
  }

  /**
   * `canonicalize`: skip the copy when the test answers True. The result is the canonical copy bit
   * for bit either way, and the skipped path does not touch the cache.
   */
  method Canonicalize(cache: Cache, a: NdArray, group: SymmetryGroup) returns (c: NdArray)
    requires Accepted(a, group) && cache.Valid()
    modifies cache
    ensures cache.Valid() && c == CanonicalCopyOf(a, group)
    ensures FixedByGroup(c, group)
    ensures Size(a.shape) == 0 || AnswersTrue(a, group) ==> c == a
    ensures cache.history == old(cache.history)
              + if Size(a.shape) == 0 || AnswersTrue(a, group) then []
                else [Key(a.shape, GeneratorFingerprint(group))]
  {
    CopyIsFixed(a, group);
    if Size(a.shape) == 0 {
      FastPathIsTheCopy(a, group);
      return a;
    }
    var answer := IsExactlyInvariant(a, group);
    if answer {
      FastPathIsTheCopy(a, group);
      return a;
    }
    c := CanonicalCopy(cache, a, group);
  }

  /** The early return fires only when the gather would change no bit. */
  lemma FastPathIsTheCopy(a: NdArray, group: SymmetryGroup)
    requires Accepted(a, group)
    requires Size(a.shape) == 0 || AnswersTrue(a, group)
    ensures CanonicalCopyOf(a, group) == a
  {
    if Size(a.shape) == 0 {
      assert CanonicalCopyOf(a, group).data == a.data;
    } else {
      AnswerIsExact(a, group);
      FixedIffOwnCopy(a, group);
    }
  }

  // ---- What the copy keeps and what it destroys ----

  ghost predicate Representative(shape: Shape, group: SymmetryGroup, i: nat)
    requires ValidAction(shape, FullAction(group)) && i < Size(shape)
  {
    MapFor(shape, group)[i] == i
  }

  /** A representative is the least position of its orbit, and so the lexicographically least index. */
  lemma RepresentativeIffLeast(shape: Shape, group: SymmetryGroup, i: nat)
    requires ValidAction(shape, FullAction(group)) && i < Size(shape)
    ensures Representative(shape, group, i)
       <==> forall j: nat :: j < Size(shape) && Identified(shape, group, i, j) ==> i <= j
  {
    forall j: nat | j < Size(shape) && Identified(shape, group, i, j) ensures MapFor(shape, group)[i] <= j {
      MapForIsCanonical(shape, group, i, j);
    }
    MapForIsCanonical(shape, group, i, i);
  }

  /** Orbits are constant, representatives keep their value, and no other value appears. */
  lemma {:induction false} CopyOnOrbits(a: NdArray, group: SymmetryGroup, i: nat, j: nat)
    requires Accepted(a, group) && i < Size(a.shape) && j < Size(a.shape)
    ensures var c := CanonicalCopyOf(a, group).data;
            && (Identified(a.shape, group, i, j) ==> c[i] == c[j])
            && (Representative(a.shape, group, i) ==> c[i] == a.data[i])
            && (Identified(a.shape, group, i, j) && Representative(a.shape, group, j) ==> c[i] == a.data[j])
  {
    MapForIsCanonical(a.shape, group, i, j);
  }

  /** The whole group fixes a buffer exactly when identified positions hold the same bits. */
  lemma FixedIffConstantOnOrbits(a: NdArray, group: SymmetryGroup)
    requires Accepted(a, group)
    ensures FixedByGroup(a, group)
       <==> forall i: nat, j: nat {:trigger a.data[i], a.data[j]} :: i < |a.data| && j < |a.data| ==>
              (Identified(a.shape, group, i, j) ==> a.data[i] == a.data[j])
  {
    hide FixedByGroup, Identified, Accepted;
    SizeOfBuffer(a, group);
    FixedIffOwnCopy(a, group);
    if FixedByGroup(a, group) {
      forall i: nat, j: nat {:trigger a.data[i], a.data[j]} | i < |a.data| && j < |a.data|
        ensures Identified(a.shape, group, i, j) ==> a.data[i] == a.data[j]
      {
        CopyOnOrbits(a, group, i, j);
      }
    } else {
      UnfixedDiffers(a, group);
    }
  }

  lemma SizeOfBuffer(a: NdArray, group: SymmetryGroup)
    requires Accepted(a, group)
    ensures |a.data| == Size(a.shape) && ValidAction(a.shape, FullAction(group))
  {
  }

  lemma UnfixedDiffers(a: NdArray, group: SymmetryGroup)
    requires Accepted(a, group) && CanonicalCopyOf(a, group) != a
    ensures exists i: nat, j: nat :: i < |a.data| && j < |a.data|
              && Identified(a.shape, group, i, j) && a.data[i] != a.data[j]
  {
    var labels := MapFor(a.shape, group);
    assert CanonicalCopyOf(a, group).data != a.data;
    var i: nat :| i < |a.data| && a.data[labels[i]] != a.data[i];
    MapForIsCanonical(a.shape, group, i, i);
  }

  lemma {:induction false} CopyIsIdempotent(a: NdArray, group: SymmetryGroup)
    requires Accepted(a, group)
    ensures CanonicalCopyOf(CanonicalCopyOf(a, group), group) == CanonicalCopyOf(a, group)
  {
    CopyIsFixed(a, group);
    FixedIffOwnCopy(CanonicalCopyOf(a, group), group);
  }

  ghost predicate AgreeOnRepresentatives(a: NdArray, b: NdArray, group: SymmetryGroup)
    requires Accepted(a, group) && Accepted(b, group) && a.shape == b.shape
  {
    forall i: nat :: i < Size(a.shape) && Representative(a.shape, group, i) ==> a.data[i] == b.data[i]
  }

  /** The copy reveals the representatives and nothing else: discarded entries cannot influence it. */
  lemma OnlyRepresentativesSurvive(a: NdArray, b: NdArray, group: SymmetryGroup)
    requires Accepted(a, group) && Accepted(b, group) && a.shape == b.shape && a.kind == b.kind
    ensures CanonicalCopyOf(a, group) == CanonicalCopyOf(b, group) <==> AgreeOnRepresentatives(a, b, group)
  {
    var ca, cb := CanonicalCopyOf(a, group), CanonicalCopyOf(b, group);
    if AgreeOnRepresentatives(a, b, group) {
      forall i | 0 <= i < Size(a.shape) ensures ca.data[i] == cb.data[i] {
        MapForIsCanonical(a.shape, group, i, i);
        assert Representative(a.shape, group, MapFor(a.shape, group)[i]);
      }
      assert ca.data == cb.data;
    }
    if ca == cb {
      forall i: nat | i < Size(a.shape) && Representative(a.shape, group, i) ensures a.data[i] == b.data[i] {
        assert ca.data[i] == cb.data[i];
      }
    }
  }

  ghost predicate NaNFreeOnRepresentatives(a: NdArray, group: SymmetryGroup)
    requires Accepted(a, group)
  {
    forall i: nat :: i < Size(a.shape) && Representative(a.shape, group, i) ==> !HasNaN(a.data[i])
  }

  /** The test accepts a canonical copy unless a representative holds NaN and there is a generator to try. */
  lemma {:induction false} CopyPassesTest(a: NdArray, group: SymmetryGroup)
    requires Accepted(a, group)
    ensures AnswersTrue(CanonicalCopyOf(a, group), group)
       <==> NaNFreeOnRepresentatives(a, group) || OnlyIdentities(group)
  {
    var c := CanonicalCopyOf(a, group);
    CopyIsFixed(a, group);
    AnswerIsExact(c, group);
    if NaNFreeOnRepresentatives(a, group) {
      forall i | 0 <= i < |c.data| ensures !HasNaN(c.data[i]) {
        MapForIsCanonical(a.shape, group, i, i);
        assert Representative(a.shape, group, MapFor(a.shape, group)[i]);
      }
    }
    if NaNFree(c) {
      forall i: nat | i < Size(a.shape) && Representative(a.shape, group, i) ensures !HasNaN(a.data[i]) {
        assert c.data[i] == a.data[i];
      }
    }
  }
}
