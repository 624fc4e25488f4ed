/**
 * Tensor indices whose entries do not decrease along each block of axes, and how many there are: a
 * product of multiset coefficients, times the extents of the axes in no block.
 */
module BlockTuples {
  import opened Arithmetic
  import opened FiniteSets
  import opened Permutations
  import opened RowMajor
  import opened AxisActions
  import opened Combinatorics
  import opened Representatives

  type Blocks = seq<seq<nat>>

  function Flat(blocks: Blocks): seq<nat> {
    if blocks == [] then [] else blocks[0] + Flat(blocks[1..])
  }

  ghost predicate Inside(s: seq<nat>, n: nat) { forall i :: 0 <= i < |s| ==> s[i] < n }

  lemma InsideParts(s: seq<nat>, t: seq<nat>, n: nat)
    ensures Inside(s + t, n) <==> Inside(s, n) && Inside(t, n)
  {
    if Inside(s + t, n) {
      forall i | 0 <= i < |s| ensures s[i] < n { assert (s + t)[i] == s[i]; }
      forall i | 0 <= i < |t| ensures t[i] < n { assert (s + t)[|s| + i] == t[i]; }
    }
  }

  ghost predicate OneExtent(shape: Shape, block: seq<nat>) {
    forall a, b :: a in block && b in block ==> a < |shape| && b < |shape| && shape[a] == shape[b]
  }

  ghost predicate BlockSorted(block: seq<nat>, x: seq<nat>) {
    forall a, b :: a in block && b in block && a < b < |x| ==> x[a] <= x[b]
  }

  /** Disjoint blocks of distinct axes, of one extent inside each block. */
  ghost predicate ValidBlocks(shape: Shape, blocks: Blocks) {
    && Distinct(Flat(blocks))
    && Inside(Flat(blocks), |shape|)
    && forall p :: 0 <= p < |blocks| ==> OneExtent(shape, blocks[p])
  }

  /** Along each block, in the order of the axes, the entries do not decrease. */
  ghost predicate SortedInBlocks(blocks: Blocks, x: seq<nat>) {
    forall p :: 0 <= p < |blocks| ==> BlockSorted(blocks[p], x)
  }

  lemma {:induction false} FlatMember(blocks: Blocks, a: nat)
    ensures a in Flat(blocks) <==> exists p :: 0 <= p < |blocks| && a in blocks[p]
  {
    if blocks != [] {
      FlatMember(blocks[1..], a);
      if p :| 0 <= p < |blocks[1..]| && a in blocks[1..][p] { assert a in blocks[p + 1]; }
      if p :| 0 <= p < |blocks| && a in blocks[p] && p > 0 { assert a in blocks[1..][p - 1]; }
    }
  }

  /** Disjoint blocks of distinct axes are distinct when flattened, and only then. */
  lemma {:induction false} FlatIsDistinct(blocks: Blocks)
    ensures Distinct(Flat(blocks))
       <==> (forall p :: 0 <= p < |blocks| ==> Distinct(blocks[p]))
            && (forall p, q :: 0 <= p < q < |blocks| ==> Disjoint(blocks[p], blocks[q]))
  {
    if blocks != [] {
      hide Distinct, Disjoint;
      var tail := blocks[1..];
      FlatIsDistinct(tail);
      if Distinct(Flat(blocks)) { DistinctParts(blocks[0], Flat(tail)); }
      if Distinct(blocks[0]) && Distinct(Flat(tail)) && Disjoint(blocks[0], Flat(tail)) {
        DistinctTogether(blocks[0], Flat(tail));
      }
      DisjointFromFlat(blocks[0], tail);
      assert forall p :: 0 <= p < |tail| ==> tail[p] == blocks[p + 1];
      assert forall p :: 1 <= p < |blocks| ==> blocks[p] == tail[p - 1];
    }
  }

  lemma DisjointFromFlat(s: seq<nat>, blocks: Blocks)
    ensures Disjoint(s, Flat(blocks)) <==> forall p :: 0 <= p < |blocks| ==> Disjoint(s, blocks[p])
  {
    forall a: nat ensures a in Flat(blocks) <==> exists p :: 0 <= p < |blocks| && a in blocks[p] {
      FlatMember(blocks, a);
    }
  }

  // ---- Tuples block by block ----

  ghost function Joined(s: set<seq<nat>>, t: set<seq<nat>>): set<seq<nat>> {
    set u, v | u in s && v in t :: u + v
  }

  ghost predicate OfLength(s: set<seq<nat>>, k: nat) { forall x :: x in s ==> |x| == k }

  lemma JoinedMember(s: set<seq<nat>>, t: set<seq<nat>>, k: nat, u: seq<nat>, v: seq<nat>)
    requires |u| == k && OfLength(s, k)
    ensures u + v in Joined(s, t) <==> u in s && v in t
  {
    if u + v in Joined(s, t) {
      var x, y :| x in s && y in t && x + y == u + v;
      assert x == (x + y)[..k] == (u + v)[..k] == u;
      assert y == (x + y)[k..] == (u + v)[k..] == v;
    }
  }

  ghost function JoinedRow(u: seq<nat>, t: set<seq<nat>>): (row: set<seq<nat>>)
    ensures |row| == |t|
  {
    var f := (v: seq<nat>) => u + v;
    var row := set v | v in t :: f(v);
    assert InjectiveOn(f, t) by {
      forall x, y {:trigger f(x), f(y)} | x in t && y in t && f(x) == f(y) ensures x == y {
        assert x == f(x)[|u|..] && y == f(y)[|u|..];
      }
    }
    ImageCardinality(f, t, row);
    row
  }

  lemma JoinedSplits(s: set<seq<nat>>, t: set<seq<nat>>, k: nat, u: seq<nat>)
    requires u in s && OfLength(s, k)
    ensures Joined(s, t) == Joined(s - {u}, t) + JoinedRow(u, t)
    ensures Joined(s - {u}, t) !! JoinedRow(u, t)
  {
    forall z | z in JoinedRow(u, t) ensures z !in Joined(s - {u}, t) {
      JoinedMember(s - {u}, t, k, u, z[k..]);
    }
  }

  lemma JoinedStep(s: set<seq<nat>>, t: set<seq<nat>>, k: nat, u: seq<nat>)
    requires u in s && OfLength(s, k)
    ensures |Joined(s, t)| == |Joined(s - {u}, t)| + |t|
  {
    hide Joined, JoinedRow, OfLength;
    JoinedSplits(s, t, k, u);
  }

  lemma {:induction false} JoinedCount(s: set<seq<nat>>, t: set<seq<nat>>, k: nat)
    requires OfLength(s, k)
    ensures |Joined(s, t)| == |s| * |t|
  {
    if s == {} {
      assert Joined(s, t) == {};
    } else {
      var u :| u in s;
      assert OfLength(s - {u}, k);
      hide Joined, OfLength;
      JoinedCount(s - {u}, t, k);
      JoinedStep(s, t, k, u);
      OneMore(|s| - 1, |t|);
    }
  }

  function Extent(shape: Shape, block: seq<nat>): nat {
    if block != [] && block[0] < |shape| then shape[block[0]] else 0
  }

  /** What the blocks can hold: for each block a non-decreasing tuple, one after the other. */
  ghost function Tuples(shape: Shape, blocks: Blocks): set<seq<nat>> {
    if blocks == [] then {[]}
    else Joined(SortedTuples(Extent(shape, blocks[0]), |blocks[0]|, 0), Tuples(shape, blocks[1..]))
  }

  function BlockProduct(shape: Shape, blocks: Blocks): nat {
    if blocks == [] then 1
    else Multiset(Extent(shape, blocks[0]), |blocks[0]|) * BlockProduct(shape, blocks[1..])
  }

  lemma SortedTuplesLength(n: nat, k: nat)
    ensures OfLength(SortedTuples(n, k, 0), k)
  {
    hide SortedTuples;
    forall t | t in SortedTuples(n, k, 0) ensures |t| == k { SortedTuplesMembers(n, k, 0, t); }
  }

  lemma {:induction false} TuplesCount(shape: Shape, blocks: Blocks)
    ensures |Tuples(shape, blocks)| == BlockProduct(shape, blocks)
  {
    if blocks != [] {
      hide SortedTuples, Joined, Multiset;
      var n, k := Extent(shape, blocks[0]), |blocks[0]|;
      SortedTuplesLength(n, k);
      JoinedCount(SortedTuples(n, k, 0), Tuples(shape, blocks[1..]), k);
      SortedTuplesCount(n, k, 0);
      TuplesCount(shape, blocks[1..]);
    }
  }

  lemma {:induction false} TuplesLength(shape: Shape, blocks: Blocks, z: seq<nat>)
    requires z in Tuples(shape, blocks)
    ensures |z| == |Flat(blocks)|
  {
    if blocks != [] {
      hide SortedTuples;
      var n, k := Extent(shape, blocks[0]), |blocks[0]|;
      var u, v :| u in SortedTuples(n, k, 0) && v in Tuples(shape, blocks[1..]) && z == u + v;
      SortedTuplesLength(n, k);
      TuplesLength(shape, blocks[1..], v);
    }
  }

  ghost predicate BlockHolds(shape: Shape, block: seq<nat>, x: seq<nat>)
    requires Inside(block, |x|)
  {
    SortedTuple(Extent(shape, block), |block|, 0, Rearrange(x, block))
  }

  /** Reading an index block by block gives one of the tuples exactly when every block is sorted and in bounds. */
  lemma {:induction false} TuplesMember(shape: Shape, blocks: Blocks, x: seq<nat>)
    requires Inside(Flat(blocks), |x|) && forall p :: 0 <= p < |blocks| ==> Inside(blocks[p], |x|)
    ensures Rearrange(x, Flat(blocks)) in Tuples(shape, blocks)
       <==> forall p :: 0 <= p < |blocks| ==> BlockHolds(shape, blocks[p], x)
  {
    if blocks == [] {
      assert Rearrange(x, Flat(blocks)) == [];
    } else {
      hide SortedTuples, Joined, SortedTuple;
      var head, tail := blocks[0], blocks[1..];
      var n, k := Extent(shape, head), |head|;
      InsideParts(head, Flat(tail), |x|);
      var u, v := Rearrange(x, head), Rearrange(x, Flat(tail));
      assert Rearrange(x, Flat(blocks)) == u + v;
      SortedTuplesLength(n, k);
      JoinedMember(SortedTuples(n, k, 0), Tuples(shape, tail), k, u, v);
      SortedTuplesMembers(n, k, 0, u);
      TuplesMember(shape, tail, x);
      assert forall p :: 0 <= p < |tail| ==> tail[p] == blocks[p + 1];
      assert forall p :: 1 <= p < |blocks| ==> blocks[p] == tail[p - 1];
    }
  }

  // ---- Every axis in a block, every block ascending ----

  ghost predicate Ascending(s: seq<nat>) { forall i, j :: 0 <= i < j < |s| ==> s[i] < s[j] }

  /** The members of a set in increasing order. */
  ghost function Ascend(s: set<nat>): (r: seq<nat>)
    ensures |r| == |s| && Ascending(r) && forall a :: a in r <==> a in s
    decreases |s|
  {
    if s == {} then [] else [Least(s)] + Ascend(s - {Least(s)})
  }

  ghost function AscendAll(blocks: Blocks): (r: Blocks)
    ensures |r| == |blocks| && forall p :: 0 <= p < |r| ==> r[p] == Ascend(Members(blocks[p]))
  {
    if blocks == [] then [] else [Ascend(Members(blocks[0]))] + AscendAll(blocks[1..])
  }

  ghost function Singles(axes: seq<nat>): (r: Blocks)
    ensures |r| == |axes| && forall p :: 0 <= p < |r| ==> r[p] == [axes[p]]
  {
    if axes == [] then [] else [[axes[0]]] + Singles(axes[1..])
  }

  /** The axes in no block. */
  ghost function Unmoved(rank: nat, blocks: Blocks): (axes: seq<nat>)
    ensures Ascending(axes) && Inside(axes, rank)
    ensures forall a: nat :: a in axes <==> a < rank && a !in Flat(blocks)
  {
    var axes := Ascend(set a | a in Indices(rank) && a !in Flat(blocks));
    assert forall i :: 0 <= i < |axes| ==> axes[i] in axes;
    axes
  }

  ghost function Cover(rank: nat, blocks: Blocks): Blocks { AscendAll(blocks) + Singles(Unmoved(rank, blocks)) }

  lemma CoverMember(rank: nat, blocks: Blocks, a: nat)
    requires Inside(Flat(blocks), rank)
    ensures a in Flat(Cover(rank, blocks)) <==> a < rank
  {
    hide Flat, Unmoved, AscendAll, Singles, Inside;
    var axes, cover := Unmoved(rank, blocks), Cover(rank, blocks);
    FlatMember(cover, a);
    FlatMember(blocks, a);
    if a in axes {
      var i :| 0 <= i < |axes| && axes[i] == a;
      assert a in cover[|blocks| + i];
    }
    if p :| 0 <= p < |blocks| && a in blocks[p] { assert a in cover[p]; }
    if p :| 0 <= p < |cover| && a in cover[p] {
      if p < |blocks| {
        assert a in blocks[p];
        MemberInside(Flat(blocks), rank, a);
      } else {
        assert a == axes[p - |blocks|];
      }
    }
  }

  lemma MemberInside(s: seq<nat>, n: nat, a: nat)
    requires Inside(s, n) && a in s
    ensures a < n
  {
  }

  lemma AscendingIsDistinct(s: seq<nat>)
    ensures Ascending(s) ==> Distinct(s)
  {
  }

  lemma DisjointMembers(s: seq<nat>, t: seq<nat>, u: seq<nat>, v: seq<nat>)
    requires Disjoint(s, t) && (forall a :: a in u ==> a in s) && (forall a :: a in v ==> a in t)
    ensures Disjoint(u, v)
  {
  }

  lemma CoverPairIsDisjoint(rank: nat, blocks: Blocks, p: nat, q: nat)
    requires p < q < |Cover(rank, blocks)|
    requires q < |blocks| ==> Disjoint(blocks[p], blocks[q])
    ensures Disjoint(Cover(rank, blocks)[p], Cover(rank, blocks)[q])
  {
    hide Flat, Inside, Unmoved, AscendAll, Singles, Ascend;
    var axes, cover, m := Unmoved(rank, blocks), Cover(rank, blocks), |blocks|;
    if q < m {
      DisjointMembers(blocks[p], blocks[q], cover[p], cover[q]);
    } else if p < m {
      var b := axes[q - m];
      FlatMember(blocks, b);
      assert b in axes && cover[q] == [b];
      forall a | a in cover[p] ensures a !in cover[q] { assert a in blocks[p]; }
    } else {
      assert axes[p - m] < axes[q - m];
    }
  }

  lemma CoverIsDistinct(rank: nat, blocks: Blocks)
    requires Distinct(Flat(blocks))
    ensures Distinct(Flat(Cover(rank, blocks)))
  {
    hide Flat, Unmoved, Distinct, Disjoint, Ascending, Inside;
    var cover := Cover(rank, blocks);
    FlatIsDistinct(blocks);
    FlatIsDistinct(cover);
    forall p | 0 <= p < |cover| ensures Distinct(cover[p]) {
      AscendingIsDistinct(cover[p]);
      if p >= |blocks| { SingleIsAscending(cover[p]); }
    }
    forall p, q | 0 <= p < q < |cover| ensures Disjoint(cover[p], cover[q]) {
      CoverPairIsDisjoint(rank, blocks, p, q);
    }
  }

  lemma SingleIsAscending(c: seq<nat>)
    requires |c| <= 1
    ensures Ascending(c)
  {
  }

  /** Block after block, the cover lists every axis once. */
  lemma CoverIsPermutation(rank: nat, blocks: Blocks)
    requires Distinct(Flat(blocks)) && Inside(Flat(blocks), rank)
    ensures |Flat(Cover(rank, blocks))| == rank && IsPermutation(Flat(Cover(rank, blocks)))
  {
    hide Cover, Flat;
    var order := Flat(Cover(rank, blocks));
    CoverIsDistinct(rank, blocks);
    forall a: nat ensures a in order <==> a < rank { CoverMember(rank, blocks, a); }
    DistinctCount(order);
    assert Members(order) == Indices(rank);
    assert forall i :: 0 <= i < |order| ==> order[i] in order;
  }

  // ---- Sorted in the blocks, or sorted along the cover ----

  ghost predicate BlockInBounds(shape: Shape, block: seq<nat>, x: seq<nat>) {
    forall a :: a in block && a < |x| && a < |shape| ==> x[a] < shape[a]
  }

  lemma AscendedIsSorted(c: seq<nat>, x: seq<nat>)
    requires Ascending(c) && Inside(c, |x|)
    ensures NonDecreasing(Rearrange(x, c)) <==> BlockSorted(c, x)
  {
    var t := Rearrange(x, c);
    if NonDecreasing(t) {
      forall a, b | a in c && b in c && a < b < |x| ensures x[a] <= x[b] {
        var i :| 0 <= i < |c| && c[i] == a;
        var j :| 0 <= j < |c| && c[j] == b;
        assert i < j && t[i] <= t[j];
      }
    }
    if BlockSorted(c, x) {
      forall i, j | 0 <= i < j < |t| ensures t[i] <= t[j] { assert c[i] in c && c[j] in c; }
    }
  }

  lemma AscendedInBounds(shape: Shape, c: seq<nat>, x: seq<nat>)
    requires |x| == |shape| && OneExtent(shape, c) && Inside(c, |x|)
    ensures (forall i :: 0 <= i < |c| ==> 0 <= Rearrange(x, c)[i] < Extent(shape, c)) <==> BlockInBounds(shape, c, x)
  {
    var t := Rearrange(x, c);
    forall i | 0 <= i < |c| ensures t[i] == x[c[i]] && shape[c[i]] == Extent(shape, c) {
      assert c[i] in c && c[0] in c;
    }
    if forall i :: 0 <= i < |c| ==> 0 <= t[i] < Extent(shape, c) {
      forall a | a in c && a < |x| ensures x[a] < shape[a] {
        var i :| 0 <= i < |c| && c[i] == a;
        assert t[i] < Extent(shape, c);
      }
    }
    if BlockInBounds(shape, c, x) {
      forall i | 0 <= i < |c| ensures t[i] < Extent(shape, c) { assert c[i] in c; }
    }
  }

  lemma AscendedHolds(shape: Shape, c: seq<nat>, x: seq<nat>)
    requires |x| == |shape| && OneExtent(shape, c) && Ascending(c) && Inside(c, |x|)
    ensures BlockHolds(shape, c, x) <==> BlockSorted(c, x) && BlockInBounds(shape, c, x)
  {
    hide BlockSorted, BlockInBounds, NonDecreasing, Ascending, OneExtent, Extent;
    AscendedIsSorted(c, x);
    AscendedInBounds(shape, c, x);
  }

  ghost predicate AllHold(shape: Shape, blocks: Blocks, x: seq<nat>) {
    forall p :: 0 <= p < |blocks| ==> Inside(blocks[p], |x|) && BlockHolds(shape, blocks[p], x)
  }

  lemma CoverInside(rank: nat, blocks: Blocks, p: nat)
    requires Inside(Flat(blocks), rank) && p < |Cover(rank, blocks)|
    ensures Inside(Cover(rank, blocks)[p], rank) && Ascending(Cover(rank, blocks)[p])
  {
    var c := Cover(rank, blocks)[p];
    forall i | 0 <= i < |c| ensures c[i] < rank {
      FlatMember(Cover(rank, blocks), c[i]);
      CoverMember(rank, blocks, c[i]);
    }
  }

  lemma SubBlockOneExtent(shape: Shape, block: seq<nat>, c: seq<nat>)
    requires OneExtent(shape, block) && forall a :: a in c ==> a in block
    ensures OneExtent(shape, c)
  {
  }

  lemma SingleOneExtent(shape: Shape, c: seq<nat>)
    requires |c| == 1 && Inside(c, |shape|)
    ensures OneExtent(shape, c)
  {
  }

  lemma CoverOneExtent(shape: Shape, blocks: Blocks, p: nat)
    requires ValidBlocks(shape, blocks) && p < |Cover(|shape|, blocks)|
    ensures OneExtent(shape, Cover(|shape|, blocks)[p])
  {
    hide Distinct, Inside, Flat, OneExtent;
    if p < |blocks| {
      SubBlockOneExtent(shape, blocks[p], Cover(|shape|, blocks)[p]);
    } else {
      CoverInside(|shape|, blocks, p);
      SingleOneExtent(shape, Cover(|shape|, blocks)[p]);
    }
  }

  /** In bounds and sorted in the blocks, exactly when every block of the cover holds such a tuple. */
  lemma SortedIffAllHold(shape: Shape, blocks: Blocks, x: seq<nat>)
    requires ValidBlocks(shape, blocks) && |x| == |shape|
    ensures AllHold(shape, Cover(|shape|, blocks), x) <==> SortedInBlocks(blocks, x) && InBounds(shape, x)
  {
    hide ValidBlocks, Ascending, OneExtent, BlockHolds, Inside, Flat, Distinct, Cover;
    var cover := Cover(|shape|, blocks);
    forall p | 0 <= p < |cover|
      ensures Inside(cover[p], |x|)
      ensures BlockHolds(shape, cover[p], x) <==> BlockSorted(cover[p], x) && BlockInBounds(shape, cover[p], x)
    {
      ValidIsInside(shape, blocks);
      CoverInside(|shape|, blocks, p);
      CoverOneExtent(shape, blocks, p);
      AscendedHolds(shape, cover[p], x);
    }
    CoverSorted(|shape|, blocks, x);
    CoverInBounds(shape, blocks, x);
  }

  lemma ValidIsInside(shape: Shape, blocks: Blocks)
    requires ValidBlocks(shape, blocks)
    ensures Inside(Flat(blocks), |shape|) && Distinct(Flat(blocks))
  {
  }

  lemma CoverSorted(rank: nat, blocks: Blocks, x: seq<nat>)
    ensures SortedInBlocks(blocks, x) <==> SortedInBlocks(Cover(rank, blocks), x)
  {
    hide Flat, Inside;
    var cover := Cover(rank, blocks);
    forall p | 0 <= p < |blocks| ensures BlockSorted(blocks[p], x) <==> BlockSorted(cover[p], x) {
      assert forall a :: a in cover[p] <==> a in blocks[p];
    }
    forall p | |blocks| <= p < |cover| ensures BlockSorted(cover[p], x) {}
  }

  lemma CoverInBounds(shape: Shape, blocks: Blocks, x: seq<nat>)
    requires ValidBlocks(shape, blocks) && |x| == |shape|
    ensures InBounds(shape, x)
       <==> forall p :: 0 <= p < |Cover(|shape|, blocks)| ==> BlockInBounds(shape, Cover(|shape|, blocks)[p], x)
  {
    hide Cover, Flat, Inside, Distinct, OneExtent;
    var cover := Cover(|shape|, blocks);
    if forall p :: 0 <= p < |cover| ==> BlockInBounds(shape, cover[p], x) {
      forall a | 0 <= a < |shape| ensures x[a] < shape[a] {
        CoverMember(|shape|, blocks, a);
        FlatMember(cover, a);
      }
    }
  }

  // ---- The count as a product ----

  lemma {:induction false} BlockProductSplits(shape: Shape, first: Blocks, second: Blocks)
    ensures BlockProduct(shape, first + second) == BlockProduct(shape, first) * BlockProduct(shape, second)
  {
    if first == [] {
      assert first + second == second;
    } else {
      hide Multiset;
      assert (first + second)[1..] == first[1..] + second;
      BlockProductSplits(shape, first[1..], second);
      var head := Multiset(Extent(shape, first[0]), |first[0]|);
      Associate(head, BlockProduct(shape, first[1..]), BlockProduct(shape, second));
    }
  }

  lemma {:induction false} SinglesProduct(shape: Shape, axes: seq<nat>)
    requires Inside(axes, |shape|)
    ensures BlockProduct(shape, Singles(axes)) == Size(Rearrange(shape, axes))
  {
    if axes != [] {
      hide Multiset;
      SinglesProduct(shape, axes[1..]);
      assert Rearrange(shape, axes)[1..] == Rearrange(shape, axes[1..]);
      MultisetOne(shape[axes[0]]);
      assert Singles(axes)[1..] == Singles(axes[1..]);
    }
  }

  lemma AscendedExtent(shape: Shape, block: seq<nat>)
    requires OneExtent(shape, block) && Distinct(block)
    ensures |Ascend(Members(block))| == |block| && Extent(shape, Ascend(Members(block))) == Extent(shape, block)
  {
    hide Ascend;
    var c := Ascend(Members(block));
    DistinctCount(block);
    hide Distinct;
    if block != [] { assert c[0] in c && block[0] in block; }
  }

  lemma {:induction false} AscendedProduct(shape: Shape, blocks: Blocks)
    requires forall p :: 0 <= p < |blocks| ==> OneExtent(shape, blocks[p]) && Distinct(blocks[p])
    ensures BlockProduct(shape, AscendAll(blocks)) == BlockProduct(shape, blocks)
  {
    if blocks != [] {
      hide Multiset, Distinct, OneExtent, Extent, Ascend;
      AscendedProduct(shape, blocks[1..]);
      AscendedExtent(shape, blocks[0]);
      assert AscendAll(blocks)[1..] == AscendAll(blocks[1..]);
    }
  }

  lemma CoverProduct(shape: Shape, blocks: Blocks)
    requires ValidBlocks(shape, blocks)
    ensures BlockProduct(shape, Cover(|shape|, blocks))
         == BlockProduct(shape, blocks) * Size(Rearrange(shape, Unmoved(|shape|, blocks)))
  {
    hide BlockProduct, Size, Flat, Singles, AscendAll, Unmoved;
    FlatIsDistinct(blocks);
    AscendedProduct(shape, blocks);
    SinglesProduct(shape, Unmoved(|shape|, blocks));
    BlockProductSplits(shape, AscendAll(blocks), Singles(Unmoved(|shape|, blocks)));
  }
}
