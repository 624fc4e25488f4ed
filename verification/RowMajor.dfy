/** C-order (row-major) layout: flat index <-> tensor index, and the order the two share. */
module RowMajor {
  import opened Arithmetic

  type Shape = seq<nat>
  type Index = seq<nat>

  /** `int(np.prod(shape))`; the empty shape has one cell. */
  function Size(shape: Shape): nat {
    if shape == [] then 1 else shape[0] * Size(shape[1..])
  }

  ghost predicate InBounds(shape: Shape, index: Index) {
    |index| == |shape| && forall a :: 0 <= a < |shape| ==> index[a] < shape[a]
  }

  function Encode(shape: Shape, index: Index): nat
    requires |index| == |shape|
  {
    if shape == [] then 0 else index[0] * Size(shape[1..]) + Encode(shape[1..], index[1..])
  }

  function Decode(shape: Shape, k: nat): (index: Index)
    requires k < Size(shape)
    ensures |index| == |shape|
  {
    if shape == [] then []
    else
      DecodeStep(shape[0], Size(shape[1..]), k);
      [k / Size(shape[1..])] + Decode(shape[1..], k % Size(shape[1..]))
  }

  lemma DecodeStep(extent: nat, block: nat, k: nat)
    requires k < extent * block
    ensures block > 0 && 0 <= k / block < extent && 0 <= k % block < block
    ensures k == (k / block) * block + k % block
  {
    assert block != 0;
    ProductOrder(extent, k / block, block);
  }

  lemma BlockDivision(block: nat, q: nat, r: nat)
    requires r < block
    ensures (q * block + r) / block == q && (q * block + r) % block == r
  {
    DivisionIs(q * block + r, block, q, r);
  }

  lemma TailInBounds(shape: Shape, index: Index)
    requires InBounds(shape, index) && shape != []
    ensures InBounds(shape[1..], index[1..])
  {
  }

  /** Digits compare before remainders. */
  lemma BlockOrder(q: nat, r: nat, q': nat, r': nat, block: nat)
    requires r < block && r' < block
    ensures q * block + r < q' * block + r' <==> q < q' || (q == q' && r < r')
  {
    ProductOrder(q + 1, q', block);
    ProductOrder(q' + 1, q, block);
  }

  lemma BlockBound(q: nat, r: nat, extent: nat, block: nat)
    requires q < extent && r < block
    ensures q * block + r < extent * block
  {
    ProductOrder(q + 1, extent, block);
  }

  lemma {:induction false} EncodeInRange(shape: Shape, index: Index)
    requires InBounds(shape, index)
    ensures Encode(shape, index) < Size(shape)
  {
    if shape != [] {
      TailInBounds(shape, index);
      EncodeInRange(shape[1..], index[1..]);
      BlockBound(index[0], Encode(shape[1..], index[1..]), shape[0], Size(shape[1..]));
    }
  }

  lemma {:induction false} DecodeInBounds(shape: Shape, k: nat)
    requires k < Size(shape)
    ensures InBounds(shape, Decode(shape, k))
  {
    if shape != [] {
      var block := Size(shape[1..]);
      DecodeStep(shape[0], block, k);
      DecodeInBounds(shape[1..], k % block);
      var index := Decode(shape, k);
      forall a | 0 <= a < |shape| ensures index[a] < shape[a] {
        if a > 0 { assert index[a] == index[1..][a - 1] && shape[a] == shape[1..][a - 1]; }
      }
    }
  }

  lemma {:induction false} EncodeDecode(shape: Shape, k: nat)
    requires k < Size(shape)
    ensures Encode(shape, Decode(shape, k)) == k
  {
    if shape != [] {
      var block := Size(shape[1..]);
      DecodeStep(shape[0], block, k);
      EncodeDecode(shape[1..], k % block);
      assert Decode(shape, k)[1..] == Decode(shape[1..], k % block);
    }
  }

  lemma {:induction false} DecodeEncode(shape: Shape, index: Index)
    requires InBounds(shape, index)
    ensures Encode(shape, index) < Size(shape)
    ensures Decode(shape, Encode(shape, index)) == index
  {
    EncodeInRange(shape, index);
    if shape != [] {
      EncodeInRange(shape[1..], index[1..]);
      DecodeEncode(shape[1..], index[1..]);
      BlockDivision(Size(shape[1..]), index[0], Encode(shape[1..], index[1..]));
    }
  }

  /** Strict lexicographic order on tensor indices. */
  predicate LexLess(a: Index, b: Index)
    requires |a| == |b|
  {
    a != [] && (a[0] < b[0] || (a[0] == b[0] && LexLess(a[1..], b[1..])))
  }

  /** Row-major encoding is an order isomorphism. */
  lemma {:induction false} EncodeIsMonotone(shape: Shape, a: Index, b: Index)
    requires InBounds(shape, a) && InBounds(shape, b)
    ensures LexLess(a, b) <==> Encode(shape, a) < Encode(shape, b)
  {
    if shape != [] {
      TailInBounds(shape, a);
      TailInBounds(shape, b);
      EncodeInRange(shape[1..], a[1..]);
      EncodeInRange(shape[1..], b[1..]);
      EncodeIsMonotone(shape[1..], a[1..], b[1..]);
      BlockOrder(a[0], Encode(shape[1..], a[1..]), b[0], Encode(shape[1..], b[1..]), Size(shape[1..]));
    }
  }

  /** C-order: stepping along the last axis steps through the buffer. */
  lemma {:induction false} LastAxisIsContiguous(shape: Shape, index: Index, next: Index)
    requires |index| == |next| == |shape| > 0
    requires next == index[|shape| - 1 := index[|shape| - 1] + 1]
    ensures Encode(shape, next) == Encode(shape, index) + 1
  {
    if |shape| == 1 {
      assert shape[1..] == [];
      assert Size(shape[1..]) == 1;
    } else {
      var last := |shape| - 1;
      assert next[1..] == index[1..][last - 1 := index[1..][last - 1] + 1];
      LastAxisIsContiguous(shape[1..], index[1..], next[1..]);
    }
  }
}
