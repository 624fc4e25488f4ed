/**
 * Axis permutations of a tensor, the flat-index permutations they induce, and the group generated
 * by array-form generators. `np.transpose`, `ravel` and gathers are given by definition.
 */
module AxisActions {
  import opened Permutations
  import opened RowMajor

  /** `[x[q[0]], x[q[1]], ...]`. */
  function Rearrange<T>(x: seq<T>, q: seq<nat>): (r: seq<T>)
    requires forall a :: 0 <= a < |q| ==> q[a] < |x|
    ensures |r| == |q|
  {
    seq(|q|, a requires 0 <= a < |q| => x[q[a]])
  }

  /** `perm` is a permutation of the axes along which all moved extents agree. */
  ghost predicate KeepsShape(shape: Shape, perm: seq<nat>) {
    |perm| == |shape| && IsPermutation(perm) && Rearrange(shape, perm) == shape
  }

  lemma RearrangedInBounds(shape: Shape, perm: seq<nat>, index: Index)
    requires KeepsShape(shape, perm) && InBounds(shape, index)
    ensures InBounds(shape, Rearrange(index, perm))
    ensures InBounds(shape, Rearrange(index, Inverse(perm)))
  {
    var inv := Inverse(perm);
    forall a | 0 <= a < |shape| ensures index[perm[a]] < shape[a] {
      assert Rearrange(shape, perm)[a] == shape[a];
    }
    forall a | 0 <= a < |shape| ensures index[inv[a]] < shape[a] {
      assert Rearrange(shape, perm)[inv[a]] == shape[inv[a]];
      assert perm[inv[a]] == a;
    }
  }

  /**
   * Flat position that `np.transpose(_, perm)` reads for flat result position `k`: result axis `j`
   * is source axis `perm[j]`, so the source index is the result index rearranged by the inverse.
   */
  function TransposeSource(shape: Shape, perm: seq<nat>, k: nat): (source: nat)
    requires KeepsShape(shape, perm) && k < Size(shape)
    ensures source < Size(shape)
  {
    DecodeInBounds(shape, k);
    RearrangedInBounds(shape, perm, Decode(shape, k));
    EncodeInRange(shape, Rearrange(Decode(shape, k), Inverse(perm)));
    Encode(shape, Rearrange(Decode(shape, k), Inverse(perm)))
  }

  /** `data.reshape(shape).transpose(perm).ravel()`. */
  function Transposed<T>(shape: Shape, data: seq<T>, perm: seq<nat>): (r: seq<T>)
    requires KeepsShape(shape, perm) && |data| == Size(shape)
    ensures |r| == |data|
  {
    seq(|data|, k requires 0 <= k < |data| => data[TransposeSource(shape, perm, k)])
  }

  /** The flat image of an axis permutation: `np.arange(n)` transposed. */
  function FlatImage(shape: Shape, perm: seq<nat>): (image: seq<nat>)
    requires KeepsShape(shape, perm)
    ensures |image| == Size(shape)
    ensures forall k :: 0 <= k < |image| ==> image[k] == TransposeSource(shape, perm, k) < |image|
  {
    assert |Identity(Size(shape))| == Size(shape);
    Transposed(shape, Identity(Size(shape)), perm)
  }

  lemma RearrangeInverse<T>(x: seq<T>, perm: seq<nat>)
    requires IsPermutation(perm) && |x| == |perm|
    ensures Rearrange(Rearrange(x, Inverse(perm)), perm) == x
  {
    var inv := Inverse(perm);
    forall a | 0 <= a < |perm| ensures Rearrange(Rearrange(x, inv), perm)[a] == x[a] {
      assert inv[perm[a]] == a;
    }
  }

  lemma RearrangeCancels<T>(x: seq<T>, y: seq<T>, perm: seq<nat>)
    requires IsPermutation(perm) && |x| == |perm| == |y|
    requires Rearrange(x, perm) == Rearrange(y, perm)
    ensures x == y
  {
    forall a | 0 <= a < |perm| ensures x[a] == y[a] {
      var b := Inverse(perm)[a];
      assert perm[b] == a;
      assert Rearrange(x, perm)[b] == Rearrange(y, perm)[b];
    }
  }

  /** The tensor index at the image position carries, on axis `perm[j]`, the old index of axis `j`. */
  lemma FlatImageIndex(shape: Shape, perm: seq<nat>, k: nat)
    requires KeepsShape(shape, perm) && k < Size(shape)
    ensures Rearrange(Decode(shape, FlatImage(shape, perm)[k]), perm) == Decode(shape, k)
  {
    var index := Decode(shape, k);
    var moved := Rearrange(index, Inverse(perm));
    DecodeInBounds(shape, k);
    RearrangedInBounds(shape, perm, index);
    DecodeEncode(shape, moved);
    assert FlatImage(shape, perm)[k] == Encode(shape, moved);
    RearrangeInverse(index, perm);
  }

  /** A generator's flat image is a bijection on [0, n). */
  lemma {:induction false} FlatImageIsPermutation(shape: Shape, perm: seq<nat>)
    requires KeepsShape(shape, perm)
    ensures IsPermutation(FlatImage(shape, perm))
  {
    var image := FlatImage(shape, perm);
    forall i, j | 0 <= i < |image| && 0 <= j < |image| && image[i] == image[j] ensures i == j {
      FlatImageIndex(shape, perm, i);
      FlatImageIndex(shape, perm, j);
      EncodeDecode(shape, i);
      EncodeDecode(shape, j);
    }
  }

  lemma ComposeKeepsShape(shape: Shape, p: seq<nat>, q: seq<nat>)
    requires KeepsShape(shape, p) && KeepsShape(shape, q)
    ensures KeepsShape(shape, Compose(p, q))
  {
    ComposeIsPermutation(p, q);
    RearrangeTwice(shape, p, q);
  }

  /** Flat images compose like the axis permutations they come from. */
  lemma {:induction false} FlatImageOfComposition(shape: Shape, p: seq<nat>, q: seq<nat>, k: nat)
    requires KeepsShape(shape, p) && KeepsShape(shape, q) && k < Size(shape)
    ensures KeepsShape(shape, Compose(p, q))
    ensures FlatImage(shape, Compose(p, q))[k] == FlatImage(shape, p)[FlatImage(shape, q)[k]]
  {
    ComposeKeepsShape(shape, p, q);
    var r := Compose(p, q);
    var mid := FlatImage(shape, q)[k];
    var left, right := FlatImage(shape, r)[k], FlatImage(shape, p)[mid];
    FlatImageIndex(shape, q, k);
    FlatImageIndex(shape, p, mid);
    FlatImageIndex(shape, r, k);
    SameDecoding(shape, p, q, left, right);
  }

  lemma RearrangeTwice<T>(x: seq<T>, p: seq<nat>, q: seq<nat>)
    requires |p| == |q| == |x|
    requires forall a :: 0 <= a < |p| ==> p[a] < |x|
    requires forall a :: 0 <= a < |q| ==> q[a] < |p|
    ensures Rearrange(Rearrange(x, p), q) == Rearrange(x, Compose(p, q))
  {
  }

  lemma SameDecoding(shape: Shape, p: seq<nat>, q: seq<nat>, left: nat, right: nat)
    requires KeepsShape(shape, p) && KeepsShape(shape, q) && KeepsShape(shape, Compose(p, q))
    requires left < Size(shape) && right < Size(shape)
    requires Rearrange(Decode(shape, left), Compose(p, q))
          == Rearrange(Rearrange(Decode(shape, right), p), q)
    ensures left == right
  {
    var x, y := Decode(shape, left), Decode(shape, right);
    RearrangeTwice(y, p, q);
    RearrangeCancels(x, y, Compose(p, q));
    EncodeDecode(shape, left);
    EncodeDecode(shape, right);
  }

  lemma FlatImageOfIdentity(shape: Shape, k: nat)
    requires k < Size(shape)
    ensures KeepsShape(shape, Identity(|shape|))
    ensures FlatImage(shape, Identity(|shape|))[k] == k
  {
    var id := Identity(|shape|);
    assert Rearrange(shape, id) == shape;
    FlatImageIndex(shape, id, k);
    var x := Decode(shape, FlatImage(shape, id)[k]);
    assert Rearrange(x, id) == x;
    EncodeDecode(shape, k);
    EncodeDecode(shape, FlatImage(shape, id)[k]);
  }

  // ---- Groups acting on some of the axes ----

  /** Axes acted on, degree, and array forms of the generators. */
  datatype Action = Action(axes: seq<nat>, degree: nat, forms: seq<seq<nat>>)

  /** What `validate_symmetry_group` has established before a buffer gets here. */
  ghost predicate ValidForm(shape: Shape, axes: seq<nat>, form: seq<nat>) {
    && |form| == |axes| && IsPermutation(form)
    && (forall i :: 0 <= i < |axes| ==> axes[i] < |shape|)
    && (forall i, j :: 0 <= i < j < |axes| ==> axes[i] != axes[j])
    && (forall i :: 0 <= i < |axes| ==> shape[axes[i]] == shape[axes[form[i]]])
  }

  ghost predicate ValidAction(shape: Shape, action: Action) {
    && |action.axes| == action.degree
    && (forall i :: 0 <= i < |action.axes| ==> action.axes[i] < |shape|)
    && (forall i, j :: 0 <= i < j < |action.axes| ==> action.axes[i] != action.axes[j])
    && forall g :: 0 <= g < |action.forms| ==> ValidForm(shape, action.axes, action.forms[g])
  }

  function Position(axes: seq<nat>, a: nat): (i: nat)
    requires a in axes
    ensures i < |axes| && axes[i] == a
  {
    if axes[0] == a then 0 else 1 + Position(axes[1..], a)
  }

  /** The permutation of all `rank` tensor axes that a form on `axes` stands for. */
  function AxisPermutation(rank: nat, axes: seq<nat>, form: seq<nat>): (perm: seq<nat>)
    requires |form| == |axes|
    requires forall i :: 0 <= i < |axes| ==> form[i] < |axes|
    ensures |perm| == rank
  {
    seq(rank, a requires 0 <= a < rank => if a in axes then axes[form[Position(axes, a)]] else a)
  }

  lemma AxisPermutationAt(shape: Shape, axes: seq<nat>, form: seq<nat>, i: nat)
    requires ValidForm(shape, axes, form) && i < |axes|
    ensures AxisPermutation(|shape|, axes, form)[axes[i]] == axes[form[i]]
  {
    assert Position(axes, axes[i]) == i;
  }

  lemma AxisPermutationKeepsShape(shape: Shape, axes: seq<nat>, form: seq<nat>)
    requires ValidForm(shape, axes, form)
    ensures KeepsShape(shape, AxisPermutation(|shape|, axes, form))
  {
    var perm := AxisPermutation(|shape|, axes, form);
    forall a | 0 <= a < |perm| ensures perm[a] < |perm| && shape[perm[a]] == shape[a] {
      if a in axes { AxisPermutationAt(shape, axes, form, Position(axes, a)); }
    }
    forall a, b | 0 <= a < |perm| && 0 <= b < |perm| && perm[a] == perm[b] ensures a == b {
      AxisPermutationInjective(shape, axes, form, a, b);
    }
  }

  lemma AxisPermutationInjective(shape: Shape, axes: seq<nat>, form: seq<nat>, a: nat, b: nat)
    requires ValidForm(shape, axes, form) && a < |shape| && b < |shape|
    requires AxisPermutation(|shape|, axes, form)[a] == AxisPermutation(|shape|, axes, form)[b]
    ensures a == b
  {
    if a in axes && b in axes {
      var i, j := Position(axes, a), Position(axes, b);
      assert axes[form[i]] == axes[form[j]];
      assert form[i] == form[j];
    }
  }
}
