/** Building the orbit map of a shape and a generator action, and what the finished map says. */
module CanonicalMap {
  import opened FiniteSets
  import opened Permutations
  import opened Orbits
  import opened Propagation
  import opened RowMajor
  import opened AxisActions
  import opened SymmetryGroups

  /** The orbit map: for each flat index, the least flat index in its orbit. */
  ghost function OrbitMap(shape: Shape, action: Action): (labels: seq<nat>)
    requires ValidAction(shape, action)
    ensures |labels| == Size(shape) && forall i :: 0 <= i < |labels| ==> labels[i] < |labels|
  {
    OrbitMinima(Images(shape, action), Size(shape))
  }

  /** The first `i` moved axes have been overwritten, the others still map to themselves. */
  ghost predicate PartlyFilled(shape: Shape, axes: seq<nat>, form: seq<nat>, perm: seq<nat>, i: nat)
    requires ValidForm(shape, axes, form) && i <= |axes|
  {
    && |perm| == |shape|
    && (forall k :: 0 <= k < i ==> perm[axes[k]] == axes[form[k]])
    && (forall a :: 0 <= a < |shape| && a !in axes[..i] ==> perm[a] == a)
  }

  lemma FillOne(shape: Shape, axes: seq<nat>, form: seq<nat>, perm: seq<nat>, i: nat)
    requires ValidForm(shape, axes, form) && i < |axes| && PartlyFilled(shape, axes, form, perm, i)
    ensures PartlyFilled(shape, axes, form, perm[axes[i] := axes[form[i]]], i + 1)
  {
    assert forall a :: a in axes[..i + 1] <==> a in axes[..i] || a == axes[i];
  }

  lemma AllFilled(shape: Shape, axes: seq<nat>, form: seq<nat>, perm: seq<nat>)
    requires ValidForm(shape, axes, form) && PartlyFilled(shape, axes, form, perm, |axes|)
    ensures perm == AxisPermutation(|shape|, axes, form)
  {
    assert axes[..|axes|] == axes;
    forall a | 0 <= a < |shape| ensures perm[a] == AxisPermutation(|shape|, axes, form)[a] {
      if a in axes { assert perm[axes[Position(axes, a)]] == axes[form[Position(axes, a)]]; }
    }
  }

  /** The axis permutation one generator stands for, built by overwriting the moved axes. */
  method FillAxisPermutation(shape: Shape, axes: seq<nat>, form: seq<nat>) returns (perm: seq<nat>)
    requires ValidForm(shape, axes, form)
    ensures perm == AxisPermutation(|shape|, axes, form)
    ensures KeepsShape(shape, perm)
  {
    perm := Identity(|shape|);
    for i := 0 to |axes|
      invariant PartlyFilled(shape, axes, form, perm, i)
    {
      FillOne(shape, axes, form, perm, i);
      perm := perm[axes[i] := axes[form[i]]];
    }
    AxisPermutationKeepsShape(shape, axes, form);
    AllFilled(shape, axes, form, perm);
  }

  method GeneratorImages(shape: Shape, action: Action) returns (images: seq<seq<nat>>)
    requires ValidAction(shape, action)
    ensures images == Images(shape, action)
  {
    hide IsPermutation, KeepsShape, ValidForm;
    var flat := Identity(Size(shape));
    images := [];
    for g := 0 to |action.forms|
      invariant |images| == g
      invariant forall h :: 0 <= h < g ==> images[h] == Images(shape, action)[h]
    {
      var perm := FillAxisPermutation(shape, action.axes, action.forms[g]);
      images := images + [Transposed(shape, flat, perm)];
    }
  }

  lemma OrbitsAreBounded(images: seq<seq<nat>>, n: nat)
    requires ValidImages(images, n)
    ensures OrbitsBoundedBy(images, n, n + 1)
  {
    forall i: nat | i < n ensures |Orbit(images, n, i)| <= n + 1 {
      SubsetCardinality(Orbit(images, n, i), Indices(n));
    }
  }

  lemma OnlyTheEmptyWord(w: Word)
    ensures ValidWord(0, w) ==> w == []
  {
    if w != [] { assert w[0].g >= 0; }
  }

  lemma BoundIsPositive(images: seq<seq<nat>>, n: nat, m: nat)
    requires ValidImages(images, n) && OrbitsBoundedBy(images, n, m)
    ensures m > 0
  {
  }

  lemma NoGeneratorsNoMerging(images: seq<seq<nat>>, n: nat)
    requires images == []
    ensures Identity(n) == OrbitMinima(images, n)
  {
    forall i: nat | i < n ensures OrbitMinimum(images, n, i) == i {
      OrbitMember(images, n, i, OrbitMinimum(images, n, i));
      var w: Word :| ValidWord(0, w) && Act(images, n, w, i) == OrbitMinimum(images, n, i);
      OnlyTheEmptyWord(w);
    }
  }

  /** A pass that still changed something cannot have been preceded by (largest orbit) passes. */
  lemma UnfinishedMeansEarly(images: seq<seq<nat>>, n: nat, r: nat, m: nat)
    requires ValidImages(images, n)
    ensures OrbitsBoundedBy(images, n, m) && Rounds(images, n, r + 1) != Rounds(images, n, r) ==> r + 1 < m
  {
    if OrbitsBoundedBy(images, n, m) && r + 1 >= m {
      ConvergesWithinLargestOrbit(images, n, m, r);
      ConvergesWithinLargestOrbit(images, n, m, r + 1);
    }
  }

  /** The loop body: a min step per generator, in order, then one pointer jump. */
  method PropagateOnce(images: seq<seq<nat>>, previous: seq<nat>) returns (labels: seq<nat>)
    requires ValidImages(images, |previous|) && Sound(images, previous)
    ensures labels == Round(images, previous)
  {
    labels := previous;
    for g := 0 to |images|
      invariant labels == Sweep(images, previous, g)
    {
      labels := MinStep(labels, images[g]);
    }
    SweepIsSound(images, previous, |images|);
    labels := Jump(labels);
  }

  /**
   * Min-label propagation until nothing changes. It returns the orbit map, and the loop body runs
   * at most as many times as the largest orbit has members.
   */
  method BuildCanonicalMap(shape: Shape, action: Action) returns (labels: seq<nat>, ghost rounds: nat)
    requires ValidAction(shape, action)
    ensures labels == OrbitMap(shape, action)
    ensures forall m :: OrbitsBoundedBy(Images(shape, action), Size(shape), m) ==> rounds <= m
    ensures action.forms != [] ==> rounds > 0 && Rounds(Images(shape, action), Size(shape), rounds - 1) == labels
  {
    hide Sound, ValidImages, OrbitsBoundedBy, Round;
    var n := Size(shape);
    labels, rounds := Identity(n), 0;
    if |action.forms| == 0 {
      NoGeneratorsNoMerging(Images(shape, action), n);
      return;
    }
    var images := GeneratorImages(shape, action);
    OrbitsAreBounded(images, n);
    forall m | OrbitsBoundedBy(images, n, m) ensures 0 < m { BoundIsPositive(images, n, m); }
    while true
      invariant labels == Rounds(images, n, rounds)
      invariant forall m :: OrbitsBoundedBy(images, n, m) ==> rounds < m
      decreases n + 1 - rounds
    {
      var previous := labels;
      labels := PropagateOnce(images, previous);
      rounds := rounds + 1;
      if labels == previous { break; }
      forall m | OrbitsBoundedBy(images, n, m) ensures rounds < m {
        UnfinishedMeansEarly(images, n, rounds - 1, m);
      }
    }
    StableMeansMinimal(images, labels);
  }

  // ---- What the map says about tensor indices ----

  /**
   * The map sends a position to the least position that some element of the group relates it to,
   * and identifies exactly the positions the group identifies.
   */
  lemma {:induction false} OrbitMapIsCanonical(shape: Shape, action: Action, i: nat, j: nat)
    requires ValidAction(shape, action) && i < Size(shape) && j < Size(shape)
    ensures var map_ := OrbitMap(shape, action);
            && map_[i] <= i
            && map_[map_[i]] == map_[i]
            && Related(shape, action, i, map_[i])
            && (map_[i] == map_[j] <==> Related(shape, action, i, j))
            && (Related(shape, action, i, j) ==> map_[i] <= j)
  {
    var images, n := Images(shape, action), Size(shape);
    LabelsAreRepresentatives(images, n, i);
    SameLabelIffSameOrbit(images, n, i, j);
    RelatedIffSameOrbit(shape, action, i, j);
    RelatedIffSameOrbit(shape, action, i, OrbitMap(shape, action)[i]);
  }

  /** The representative is the lexicographically smallest tensor index of the orbit. */
  lemma {:induction false} RepresentativeIsLexLeast(shape: Shape, action: Action, i: nat, j: nat)
    requires ValidAction(shape, action) && i < Size(shape) && j < Size(shape)
    ensures Related(shape, action, i, j) ==> !LexLess(Decode(shape, j), Decode(shape, OrbitMap(shape, action)[i]))
  {
    var m := OrbitMap(shape, action)[i];
    OrbitMapIsCanonical(shape, action, i, j);
    DecodeInBounds(shape, j);
    DecodeInBounds(shape, m);
    EncodeDecode(shape, j);
    EncodeDecode(shape, m);
    EncodeIsMonotone(shape, Decode(shape, j), Decode(shape, m));
  }
}
