/**
 * Separately symmetric blocks of axes, in any order and next to axes that no generator moves: the
 * representatives the orbit map leaves are the indices sorted in each block, and their number is
 * what the library's flop count charges for.
 */
module BlockRepresentatives {
  import opened Arithmetic
  import opened FiniteSets
  import opened Permutations
  import opened Orbits
  import opened Propagation
  import opened RowMajor
  import opened AxisActions
  import opened SymmetryGroups
  import opened CanonicalMap
  import opened Combinatorics
  import opened Representatives
  import opened BlockTuples
  import opened ContractionCosts

  /** Exchanges of neighbours in a block of `size` axes that starts at `offset`. */
  function BlockSwaps(degree: nat, offset: nat, size: nat): seq<seq<nat>>
    requires offset + size <= degree
  {
    seq(if size == 0 then 0 else size - 1, i requires 0 <= i < size - 1 => Swap(degree, offset + i))
  }

  function YoungForms(degree: nat, offset: nat, blocks: Blocks): seq<seq<nat>>
    requires offset + |Flat(blocks)| <= degree
    decreases |blocks|
  {
    if blocks == [] then []
    else BlockSwaps(degree, offset, |blocks[0]|) + YoungForms(degree, offset + |blocks[0]|, blocks[1..])
  }

  /** `SymmetryGroup.young(blocks)` without its identity generators: each block symmetric on its own. */
  function YoungAction(blocks: Blocks): Action {
    Action(Flat(blocks), |Flat(blocks)|, YoungForms(|Flat(blocks)|, 0, blocks))
  }

  /** Positions `j` and `j + 1` of the flattened blocks hold neighbours `i`, `i + 1` of block `p`. */
  ghost predicate Neighbours(blocks: Blocks, p: nat, i: nat, j: nat) {
    && p < |blocks| && i + 1 < |blocks[p]| && j + 1 < |Flat(blocks)|
    && Flat(blocks)[j] == blocks[p][i] && Flat(blocks)[j + 1] == blocks[p][i + 1]
  }

  lemma NeighboursFurther(blocks: Blocks, p: nat, i: nat, j: nat)
    requires blocks != [] && Neighbours(blocks[1..], p, i, j)
    ensures Neighbours(blocks, p + 1, i, |blocks[0]| + j)
  {
  }

  /** Every form exchanges neighbours of one block. */
  lemma {:induction false} FormIsSwap(degree: nat, offset: nat, blocks: Blocks, g: nat)
    returns (p: nat, i: nat, j: nat)
    requires offset + |Flat(blocks)| <= degree && g < |YoungForms(degree, offset, blocks)|
    ensures Neighbours(blocks, p, i, j) && YoungForms(degree, offset, blocks)[g] == Swap(degree, offset + j)
    decreases |blocks|
  {
    var first := BlockSwaps(degree, offset, |blocks[0]|);
    if g < |first| {
      p, i, j := 0, g, g;
    } else {
      hide Neighbours, Swap;
      p, i, j := FormIsSwap(degree, offset + |blocks[0]|, blocks[1..], g - |first|);
      NeighboursFurther(blocks, p, i, j);
      p, j := p + 1, |blocks[0]| + j;
    }
  }

  /** Neighbours of every block are exchanged by some form. */
  lemma {:induction false} SwapIsForm(degree: nat, offset: nat, blocks: Blocks, p: nat, i: nat)
    returns (g: nat, j: nat)
    requires offset + |Flat(blocks)| <= degree && p < |blocks| && i + 1 < |blocks[p]|
    ensures g < |YoungForms(degree, offset, blocks)| && Neighbours(blocks, p, i, j)
    ensures YoungForms(degree, offset, blocks)[g] == Swap(degree, offset + j)
    decreases |blocks|
  {
    var first := BlockSwaps(degree, offset, |blocks[0]|);
    if p == 0 {
      g, j := i, i;
    } else {
      hide Neighbours, Swap;
      g, j := SwapIsForm(degree, offset + |blocks[0]|, blocks[1..], p - 1, i);
      NeighboursFurther(blocks, p - 1, i, j);
      g, j := |first| + g, |blocks[0]| + j;
    }
  }

  lemma SwapIsValid(shape: Shape, blocks: Blocks, p: nat, i: nat, j: nat)
    requires ValidBlocks(shape, blocks) && Neighbours(blocks, p, i, j)
    ensures ValidForm(shape, Flat(blocks), Swap(|Flat(blocks)|, j))
  {
    hide Flat;
    SwapIsPermutation(|Flat(blocks)|, j);
    assert OneExtent(shape, blocks[p]);
    assert blocks[p][i] in blocks[p] && blocks[p][i + 1] in blocks[p];
  }

  lemma YoungActionIsValid(shape: Shape, blocks: Blocks)
    requires ValidBlocks(shape, blocks)
    ensures ValidAction(shape, YoungAction(blocks))
  {
    hide Flat, YoungForms, ValidForm, Swap, Neighbours, OneExtent;
    var action := YoungAction(blocks);
    forall g | 0 <= g < |action.forms| ensures ValidForm(shape, action.axes, action.forms[g]) {
      var p, i, j := FormIsSwap(action.degree, 0, blocks, g);
      SwapIsValid(shape, blocks, p, i, j);
    }
  }

  // ---- What a generator does to a tensor index ----

  function Exchange(x: seq<nat>, a: nat, b: nat): (y: seq<nat>)
    requires a < |x| && b < |x|
    ensures |y| == |x| && y[a] == x[b] && y[b] == x[a] && forall c :: 0 <= c < |x| && c != a && c != b ==> y[c] == x[c]
  {
    x[a := x[b]][b := x[a]]
  }

  lemma SwapPermutation(shape: Shape, axes: seq<nat>, j: nat, c: nat)
    requires j + 1 < |axes| && ValidForm(shape, axes, Swap(|axes|, j)) && c < |shape|
    ensures var perm := AxisPermutation(|shape|, axes, Swap(|axes|, j));
            perm[c] == if c == axes[j] then axes[j + 1] else if c == axes[j + 1] then axes[j] else c
  {
    var form := Swap(|axes|, j);
    if c in axes { AxisPermutationAt(shape, axes, form, Position(axes, c)); }
  }

  lemma RearrangedIsExchange(x: seq<nat>, y: seq<nat>, perm: seq<nat>, a: nat, b: nat)
    requires |x| == |y| == |perm| && a < |x| && b < |x|
    requires forall c: nat :: c < |perm| ==> perm[c] == if c == a then b else if c == b then a else c
    requires Rearrange(y, perm) == x
    ensures y == Exchange(x, a, b)
  {
    forall c: nat | c < |x| ensures x[c] == y[perm[c]] {}
    assert x[a] == y[b] && x[b] == y[a];
  }

  lemma SwapExchanges(shape: Shape, axes: seq<nat>, j: nat, k: nat)
    requires j + 1 < |axes| && ValidForm(shape, axes, Swap(|axes|, j)) && k < Size(shape)
    ensures axes[j] < |shape| && axes[j + 1] < |shape|
    ensures Decode(shape, FormImage(shape, axes, Swap(|axes|, j))[k])
         == Exchange(Decode(shape, k), axes[j], axes[j + 1])
  {
    var perm := AxisPermutation(|shape|, axes, Swap(|axes|, j));
    AxisPermutationKeepsShape(shape, axes, Swap(|axes|, j));
    FlatImageIndex(shape, perm, k);
    hide Decode, FlatImage, ValidForm, AxisPermutation, Exchange, Rearrange, IsPermutation;
    forall c: nat | c < |shape|
      ensures perm[c] == if c == axes[j] then axes[j + 1] else if c == axes[j + 1] then axes[j] else c
    {
      SwapPermutation(shape, axes, j, c);
    }
    RearrangedIsExchange(Decode(shape, k), Decode(shape, FlatImage(shape, perm)[k]), perm, axes[j], axes[j + 1]);
  }

  // ---- Blocks keep their entries ----

  /** Axes of the block whose entry is at most `v`. */
  ghost function AtMost(block: seq<nat>, x: seq<nat>, v: nat): set<nat> {
    set a | a in block && a < |x| && x[a] <= v
  }

  /** The same entries in every block, as often, and the same entries outside. */
  ghost predicate SameEntries(blocks: Blocks, x: seq<nat>, y: seq<nat>) {
    && |x| == |y|
    && (forall p, v :: 0 <= p < |blocks| ==> |AtMost(blocks[p], x, v)| == |AtMost(blocks[p], y, v)|)
    && forall a: nat :: a < |x| && a !in Flat(blocks) ==> x[a] == y[a]
  }

  lemma ExchangeKeepsCount(block: seq<nat>, x: seq<nat>, a: nat, b: nat, v: nat)
    requires a < |x| && b < |x| && (a in block <==> b in block)
    ensures |AtMost(block, Exchange(x, a, b), v)| == |AtMost(block, x, v)|
  {
    var y := Exchange(x, a, b);
    var f := (c: nat) => if c == a then b else if c == b then a else c;
    var from, to := AtMost(block, x, v), AtMost(block, y, v);
    forall c | c in from ensures f(c) in to {}
    forall c | c in to ensures exists d :: d in from && f(d) == c { assert f(c) in from && f(f(c)) == c; }
    ImageCardinality(f, from, to);
  }

  lemma OneBlockOnly(blocks: Blocks, p: nat, q: nat, a: nat)
    requires Distinct(Flat(blocks)) && p < |blocks| && q < |blocks| && a in blocks[p] && a in blocks[q]
    ensures p == q
  {
    hide Distinct, Flat;
    FlatIsDistinct(blocks);
  }

  lemma ExchangeKeepsEntries(blocks: Blocks, p: nat, x: seq<nat>, a: nat, b: nat)
    requires Distinct(Flat(blocks)) && p < |blocks| && a in blocks[p] && b in blocks[p] && a < |x| && b < |x|
    ensures SameEntries(blocks, x, Exchange(x, a, b))
  {
    hide AtMost, Distinct, Flat;
    var y := Exchange(x, a, b);
    forall q, v | 0 <= q < |blocks| ensures |AtMost(blocks[q], x, v)| == |AtMost(blocks[q], y, v)| {
      if a in blocks[q] { OneBlockOnly(blocks, p, q, a); }
      if b in blocks[q] { OneBlockOnly(blocks, p, q, b); }
      ExchangeKeepsCount(blocks[q], x, a, b, v);
    }
    FlatMember(blocks, a);
    FlatMember(blocks, b);
  }

  lemma SameEntriesTransitive(blocks: Blocks, x: seq<nat>, y: seq<nat>, z: seq<nat>)
    requires SameEntries(blocks, x, y) && SameEntries(blocks, y, z)
    ensures SameEntries(blocks, x, z)
  {
    hide AtMost, Flat;
    forall p, v | 0 <= p < |blocks| ensures |AtMost(blocks[p], x, v)| == |AtMost(blocks[p], z, v)| {
      assert |AtMost(blocks[p], x, v)| == |AtMost(blocks[p], y, v)|;
    }
  }

  /** Flat positions whose tensor index has the same entries as `i` in each block. */
  ghost function EntryClass(shape: Shape, blocks: Blocks, i: nat): (c: set<nat>)
    requires i < Size(shape)
    ensures Below(c, Size(shape))
  {
    set k | k in Indices(Size(shape)) && SameEntries(blocks, Decode(shape, i), Decode(shape, k))
  }

  lemma GeneratorExchanges(shape: Shape, blocks: Blocks, g: nat, k: nat) returns (p: nat, i: nat)
    requires ValidBlocks(shape, blocks) && g < |YoungAction(blocks).forms| && k < Size(shape)
    ensures ValidAction(shape, YoungAction(blocks))
    ensures p < |blocks| && i + 1 < |blocks[p]| && blocks[p][i] < |shape| && blocks[p][i + 1] < |shape|
    ensures Decode(shape, Images(shape, YoungAction(blocks))[g][k])
         == Exchange(Decode(shape, k), blocks[p][i], blocks[p][i + 1])
  {
    hide Flat, Decode, FormImage, ValidBlocks, ValidForm, Swap, YoungForms, Exchange;
    var j;
    YoungActionIsValid(shape, blocks);
    p, i, j := FormIsSwap(|Flat(blocks)|, 0, blocks, g);
    SwapIsValid(shape, blocks, p, i, j);
    SwapExchanges(shape, Flat(blocks), j, k);
  }

  lemma EntryClassIsClosed(shape: Shape, blocks: Blocks, i: nat)
    requires ValidBlocks(shape, blocks) && i < Size(shape) && ValidAction(shape, YoungAction(blocks))
    ensures ClosedUnderSteps(Images(shape, YoungAction(blocks)), Size(shape), EntryClass(shape, blocks, i))
  {
    hide ValidBlocks, ValidAction, Decode, SameEntries, YoungAction, Images, IsPermutation;
    var images, c := Images(shape, YoungAction(blocks)), EntryClass(shape, blocks, i);
    forall g | 0 <= g < |images| ensures ForwardClosed(images[g], c) {
      forall k {:trigger images[g][k]} | k in c ensures images[g][k] in c {
        EntryClassStep(shape, blocks, i, g, k);
      }
    }
  }

  lemma EntryClassStep(shape: Shape, blocks: Blocks, i: nat, g: nat, k: nat)
    requires ValidBlocks(shape, blocks) && i < Size(shape) && ValidAction(shape, YoungAction(blocks))
    requires g < |YoungAction(blocks).forms| && k in EntryClass(shape, blocks, i)
    ensures Images(shape, YoungAction(blocks))[g][k] in EntryClass(shape, blocks, i)
  {
    hide ValidAction, Decode, SameEntries, Exchange, YoungAction;
    var x := Decode(shape, k);
    var p, t := GeneratorExchanges(shape, blocks, g, k);
    var y := Exchange(x, blocks[p][t], blocks[p][t + 1]);
    ExchangeKeepsEntries(blocks, p, x, blocks[p][t], blocks[p][t + 1]);
    SameEntriesTransitive(blocks, Decode(shape, i), x, y);
  }

  lemma OrbitKeepsEntries(shape: Shape, blocks: Blocks, i: nat, j: nat)
    requires ValidBlocks(shape, blocks) && i < Size(shape) && ValidAction(shape, YoungAction(blocks))
    requires SameOrbit(Images(shape, YoungAction(blocks)), Size(shape), i, j)
    ensures j < Size(shape) && SameEntries(blocks, Decode(shape, i), Decode(shape, j))
  {
    var images, c := Images(shape, YoungAction(blocks)), EntryClass(shape, blocks, i);
    EntryClassIsClosed(shape, blocks, i);
    hide ValidBlocks, ValidAction, Decode, YoungAction, Images;
    assert SameEntries(blocks, Decode(shape, i), Decode(shape, i));
    var w :| ValidWord(|images|, w) && Act(images, Size(shape), w, i) == j;
    ClosedContainsOrbit(images, Size(shape), c, w, i);
  }

  // ---- Sorted in the blocks means least ----

  lemma {:induction false} FirstDifference(y: seq<nat>, x: seq<nat>) returns (q: nat)
    requires |x| == |y| && LexLess(y, x)
    ensures q < |x| && y[..q] == x[..q] && y[q] < x[q]
  {
    if y[0] < x[0] {
      q := 0;
    } else {
      q := FirstDifference(y[1..], x[1..]);
      assert y[..q + 1] == [y[0]] + y[1..][..q] && x[..q + 1] == [x[0]] + x[1..][..q];
      q := q + 1;
    }
  }

  lemma SortedBlockMissesEntry(block: seq<nat>, x: seq<nat>, y: seq<nat>, q: nat)
    requires |x| == |y| && q < |x| && q in block && BlockSorted(block, x) && y[..q] == x[..q] && y[q] < x[q]
    ensures |AtMost(block, x, y[q])| < |AtMost(block, y, y[q])|
  {
    var v := y[q];
    var fewer, more := AtMost(block, x, v), AtMost(block, y, v);
    assert forall a :: a in block && q <= a < |x| ==> x[q] <= x[a];
    forall a | a in fewer ensures a in more && a != q {
      assert y[..q][a] == x[..q][a];
    }
    SubsetCardinality(fewer, more - {q});
  }

  lemma SortedInBlocksIsLexLeast(blocks: Blocks, x: seq<nat>, y: seq<nat>)
    requires SortedInBlocks(blocks, x) && SameEntries(blocks, x, y)
    ensures !LexLess(y, x)
  {
    if LexLess(y, x) {
      hide Flat, AtMost, BlockSorted;
      var q := FirstDifference(y, x);
      FlatMember(blocks, q);
      var p :| 0 <= p < |blocks| && q in blocks[p];
      SortedBlockMissesEntry(blocks[p], x, y, q);
      assert false;
    }
  }

  lemma SortedIsOwnRepresentative(shape: Shape, blocks: Blocks, i: nat)
    requires ValidBlocks(shape, blocks) && ValidAction(shape, YoungAction(blocks)) && i < Size(shape)
    ensures SortedInBlocks(blocks, Decode(shape, i)) ==> OrbitMap(shape, YoungAction(blocks))[i] == i
  {
    hide ValidBlocks, ValidAction, Decode, YoungAction, SortedInBlocks, SameEntries;
    var m := OrbitMap(shape, YoungAction(blocks))[i];
    LabelsAreRepresentatives(Images(shape, YoungAction(blocks)), Size(shape), i);
    if SortedInBlocks(blocks, Decode(shape, i)) {
      OrbitKeepsEntries(shape, blocks, i, m);
      SortedInBlocksIsLexLeast(blocks, Decode(shape, i), Decode(shape, m));
      NotLexLessNotLess(shape, m, i);
    }
  }

  lemma NotLexLessNotLess(shape: Shape, m: nat, i: nat)
    requires m < Size(shape) && i < Size(shape) && !LexLess(Decode(shape, m), Decode(shape, i))
    ensures m >= i
  {
    DecodeInBounds(shape, i);
    DecodeInBounds(shape, m);
    EncodeDecode(shape, i);
    EncodeDecode(shape, m);
    EncodeIsMonotone(shape, Decode(shape, m), Decode(shape, i));
  }

  // ---- Any two axes of a block can be exchanged ----

  /** Positions `i` and `k` share an orbit, and `k` holds index `i` with axes `a` and `b` exchanged. */
  ghost predicate Exchanged(shape: Shape, blocks: Blocks, i: nat, k: nat, a: nat, b: nat)
    requires ValidAction(shape, YoungAction(blocks)) && i < Size(shape) && a < |shape| && b < |shape|
  {
    && k < Size(shape) && SameOrbit(Images(shape, YoungAction(blocks)), Size(shape), i, k)
    && Decode(shape, k) == Exchange(Decode(shape, i), a, b)
  }

  lemma NeighboursExchange(shape: Shape, blocks: Blocks, i: nat, p: nat, s: nat) returns (k: nat)
    requires ValidBlocks(shape, blocks) && ValidAction(shape, YoungAction(blocks)) && i < Size(shape)
    requires p < |blocks| && s + 1 < |blocks[p]| && blocks[p][s] < |shape| && blocks[p][s + 1] < |shape|
    ensures Exchanged(shape, blocks, i, k, blocks[p][s], blocks[p][s + 1])
  {
    hide Flat, Decode, FormImage, ValidBlocks, ValidForm, Swap, YoungForms, Exchange;
    var images := Images(shape, YoungAction(blocks));
    var g, j := SwapIsForm(|Flat(blocks)|, 0, blocks, p, s);
    k := images[g][i];
    SwapIsValid(shape, blocks, p, s, j);
    SwapExchanges(shape, Flat(blocks), j, i);
    SameOrbitStep(images, Size(shape), i, g);
  }

  lemma {:induction false} AnyTwoExchange(shape: Shape, blocks: Blocks, i: nat, p: nat, s: nat, t: nat) returns (k: nat)
    requires ValidBlocks(shape, blocks) && ValidAction(shape, YoungAction(blocks)) && i < Size(shape)
    requires p < |blocks| && s < t < |blocks[p]| && Inside(blocks[p], |shape|) && Distinct(blocks[p])
    ensures Exchanged(shape, blocks, i, k, blocks[p][s], blocks[p][t])
    decreases t - s
  {
    hide ValidBlocks, ValidAction, Decode, YoungAction, SameOrbit, Images, ValidImages, Exchange;
    if t == s + 1 {
      k := NeighboursExchange(shape, blocks, i, p, s);
    } else {
      var images, n := Images(shape, YoungAction(blocks)), Size(shape);
      var k1 := NeighboursExchange(shape, blocks, i, p, t - 1);
      var k2 := AnyTwoExchange(shape, blocks, k1, p, s, t - 1);
      k := NeighboursExchange(shape, blocks, k2, p, t - 1);
      SameOrbitTransitive(images, n, i, k1, k2);
      SameOrbitTransitive(images, n, i, k2, k);
      ThreeExchanges(Decode(shape, i), blocks[p][s], blocks[p][t - 1], blocks[p][t]);
    }
  }

  lemma ThreeExchanges(x: seq<nat>, a: nat, b: nat, c: nat)
    requires a < |x| && b < |x| && c < |x| && a != b && b != c && a != c
    ensures Exchange(Exchange(Exchange(x, b, c), a, b), b, c) == Exchange(x, a, c)
  {
  }

  lemma ExchangeDescends(x: seq<nat>, a: nat, b: nat)
    requires a < b < |x| && x[a] > x[b]
    ensures LexLess(Exchange(x, a, b), x)
  {
    SwapDescends(x, Exchange(x, a, b), a);
  }

  lemma UnsortedIsNotRepresentative(shape: Shape, blocks: Blocks, i: nat)
    requires ValidBlocks(shape, blocks) && ValidAction(shape, YoungAction(blocks)) && i < Size(shape)
    ensures !SortedInBlocks(blocks, Decode(shape, i)) ==> OrbitMap(shape, YoungAction(blocks))[i] < i
  {
    var x := Decode(shape, i);
    if !SortedInBlocks(blocks, x) {
      var p, a, b :| 0 <= p < |blocks| && a in blocks[p] && b in blocks[p] && a < b < |x| && x[a] > x[b];
      var k := OutOfOrder(shape, blocks, i, p, a, b);
      DecodeInBounds(shape, i);
      DecodeInBounds(shape, k);
      EncodeDecode(shape, i);
      EncodeDecode(shape, k);
      ExchangeDescends(x, a, b);
      EncodeIsMonotone(shape, Decode(shape, k), x);
      LabelsAreRepresentatives(Images(shape, YoungAction(blocks)), Size(shape), i);
    }
  }

  lemma OutOfOrder(shape: Shape, blocks: Blocks, i: nat, p: nat, a: nat, b: nat) returns (k: nat)
    requires ValidBlocks(shape, blocks) && ValidAction(shape, YoungAction(blocks)) && i < Size(shape)
    requires p < |blocks| && a in blocks[p] && b in blocks[p] && a < b < |shape|
    ensures Exchanged(shape, blocks, i, k, a, b)
  {
    hide ValidAction, YoungAction, Images, SameOrbit, Decode;
    FlatIsDistinct(blocks);
    var s :| 0 <= s < |blocks[p]| && blocks[p][s] == a;
    var t :| 0 <= t < |blocks[p]| && blocks[p][t] == b;
    assert OneExtent(shape, blocks[p]);
    forall c | 0 <= c < |blocks[p]| ensures blocks[p][c] < |shape| { assert blocks[p][c] in blocks[p]; }
    if s < t {
      k := AnyTwoExchange(shape, blocks, i, p, s, t);
    } else {
      k := AnyTwoExchange(shape, blocks, i, p, t, s);
    }
  }

  /** With symmetric blocks the fixed points of the map are the indices sorted in each block. */
  lemma {:induction false} RepresentativeIffSortedInBlocks(shape: Shape, blocks: Blocks, i: nat)
    requires ValidBlocks(shape, blocks) && i < Size(shape)
    ensures ValidAction(shape, YoungAction(blocks))
    ensures OrbitMap(shape, YoungAction(blocks))[i] == i <==> SortedInBlocks(blocks, Decode(shape, i))
  {
    YoungActionIsValid(shape, blocks);
    SortedIsOwnRepresentative(shape, blocks, i);
    UnsortedIsNotRepresentative(shape, blocks, i);
  }

  // ---- Counting them ----

  ghost function ReadAlong(shape: Shape, order: seq<nat>, i: nat): seq<nat>
    requires Inside(order, |shape|)
  {
    if i < Size(shape) then Rearrange(Decode(shape, i), order) else []
  }

  /** Read along the cover, the representatives are exactly the tuples the blocks can hold. */
  lemma RepresentativeReads(shape: Shape, blocks: Blocks, order: seq<nat>, i: nat)
    requires ValidBlocks(shape, blocks) && ValidAction(shape, YoungAction(blocks))
    requires order == Flat(Cover(|shape|, blocks)) && Inside(order, |shape|) && i < Size(shape)
    ensures i in RepresentativesOf(shape, YoungAction(blocks))
       <==> ReadAlong(shape, order, i) in Tuples(shape, Cover(|shape|, blocks))
  {
    hide ValidBlocks, ValidAction, Decode, YoungAction, SortedInBlocks, Cover, Tuples, OrbitMap;
    var cover, x := Cover(|shape|, blocks), Decode(shape, i);
    RepresentativeIffSortedInBlocks(shape, blocks, i);
    DecodeInBounds(shape, i);
    SortedIffAllHold(shape, blocks, x);
    CoverHolds(shape, blocks, x);
  }

  lemma CoverHolds(shape: Shape, blocks: Blocks, x: seq<nat>)
    requires ValidBlocks(shape, blocks) && |x| == |shape| && Inside(Flat(Cover(|shape|, blocks)), |x|)
    ensures Rearrange(x, Flat(Cover(|shape|, blocks))) in Tuples(shape, Cover(|shape|, blocks))
       <==> AllHold(shape, Cover(|shape|, blocks), x)
  {
    hide Inside, Flat, Distinct, OneExtent, Cover, Ascending, Tuples, BlockHolds;
    var cover := Cover(|shape|, blocks);
    forall p | 0 <= p < |cover| ensures Inside(cover[p], |x|) { CoverInside(|shape|, blocks, p); }
    TuplesMember(shape, cover, x);
  }

  lemma TupleIsRead(shape: Shape, blocks: Blocks, order: seq<nat>, z: seq<nat>) returns (i: nat)
    requires ValidBlocks(shape, blocks)
    requires order == Flat(Cover(|shape|, blocks)) && Inside(order, |shape|)
    requires |order| == |shape| && IsPermutation(order) && z in Tuples(shape, Cover(|shape|, blocks))
    ensures i < Size(shape) && ReadAlong(shape, order, i) == z
  {
    hide ValidBlocks, Cover, Tuples, Decode, Encode, AllHold, Flat;
    TuplesLength(shape, Cover(|shape|, blocks), z);
    var x := Rearrange(z, Inverse(order));
    RearrangeInverse(z, order);
    CoverHolds(shape, blocks, x);
    SortedIffAllHold(shape, blocks, x);
    DecodeEncode(shape, x);
    i := Encode(shape, x);
  }

  /**
   * The blocks leave one representative per non-decreasing tuple in each block and per entry on each
   * axis outside: the product of the multiset coefficients, times the extents of the other axes.
   */
  lemma YoungRepresentativeCount(shape: Shape, blocks: Blocks)
    requires ValidBlocks(shape, blocks)
    ensures ValidAction(shape, YoungAction(blocks))
    ensures |RepresentativesOf(shape, YoungAction(blocks))|
         == BlockProduct(shape, blocks) * Size(Rearrange(shape, Unmoved(|shape|, blocks)))
  {
    YoungActionIsValid(shape, blocks);
    ValidIsInside(shape, blocks);
    CoverIsPermutation(|shape|, blocks);
    hide ValidBlocks, ValidAction, YoungAction, Cover, Tuples, Flat, RepresentativesOf, BlockProduct, Size, Unmoved;
    hide ReadAlong;
    var cover, order := Cover(|shape|, blocks), Flat(Cover(|shape|, blocks));
    var reps, tuples := RepresentativesOf(shape, YoungAction(blocks)), Tuples(shape, cover);
    var f := (i: nat) => ReadAlong(shape, order, i);
    forall i | i in reps ensures f(i) in tuples { RepresentativeReads(shape, blocks, order, i); }
    forall z | z in tuples ensures exists i :: i in reps && f(i) == z {
      var i := TupleIsRead(shape, blocks, order, z);
      RepresentativeReads(shape, blocks, order, i);
      assert i in reps && f(i) == z;
    }
    assert InjectiveOn(f, reps) by {
      forall i, j {:trigger f(i), f(j)} | i in reps && j in reps && f(i) == f(j) ensures i == j {
        ReadsDiffer(shape, order, i, j);
      }
    }
    ImageCardinality(f, reps, tuples);
    TuplesCount(shape, cover);
    CoverProduct(shape, blocks);
  }

  lemma ReadsDiffer(shape: Shape, order: seq<nat>, i: nat, j: nat)
    requires Inside(order, |shape|) && |order| == |shape| && IsPermutation(order)
    requires i < Size(shape) && j < Size(shape) && ReadAlong(shape, order, i) == ReadAlong(shape, order, j)
    ensures i == j
  {
    hide Decode;
    RearrangeCancels(Decode(shape, i), Decode(shape, j), order);
    EncodeDecode(shape, i);
    EncodeDecode(shape, j);
  }

  // ---- What the library charges for ----

  /** The axes from `lo` on, `k` of them. */
  function Axes(lo: nat, k: nat): seq<nat> { seq(k, i => lo + i) }

  lemma CubeBlocksAreValid(n: nat, k: nat, blocks: Blocks)
    requires Distinct(Flat(blocks)) && Inside(Flat(blocks), k)
    ensures ValidBlocks(Cube(n, k), blocks)
  {
    hide Distinct, Flat, Inside;
    forall p | 0 <= p < |blocks| ensures OneExtent(Cube(n, k), blocks[p]) {
      forall a | a in blocks[p] ensures a < k {
        FlatMember(blocks, a);
        MemberInside(Flat(blocks), k, a);
      }
    }
  }

  lemma UnmovedCount(rank: nat, blocks: Blocks)
    requires Distinct(Flat(blocks)) && Inside(Flat(blocks), rank)
    ensures |Unmoved(rank, blocks)| + |Flat(blocks)| == rank
  {
    var axes, moved := Unmoved(rank, blocks), Members(Flat(blocks));
    AscendingIsDistinct(axes);
    DistinctCount(axes);
    DistinctCount(Flat(blocks));
    hide Unmoved, Flat, Distinct, Ascending;
    forall a | a in moved ensures a in Indices(rank) { MemberInside(Flat(blocks), rank, a); }
    assert Members(axes) == Indices(rank) - moved;
  }

  lemma UnmovedOfCube(n: nat, k: nat, blocks: Blocks)
    requires Distinct(Flat(blocks)) && Inside(Flat(blocks), k)
    ensures |Flat(blocks)| <= k
    ensures Size(Rearrange(Cube(n, k), Unmoved(k, blocks))) == Power(n, k - |Flat(blocks)|)
  {
    hide Unmoved, Flat, Distinct, Ascending, Size, Power;
    UnmovedCount(k, blocks);
    assert Rearrange(Cube(n, k), Unmoved(k, blocks)) == Cube(n, k - |Flat(blocks)|);
    CubeSize(n, k - |Flat(blocks)|);
  }

  lemma BlockOfCube(n: nat, k: nat, block: seq<nat>)
    requires Inside(block, k)
    ensures Multiset(Extent(Cube(n, k), block), |block|) == Multiset(n, |block|)
  {
  }

  /** Two blocks side by side that take every axis. */
  function TwoBlocks(s: nat, t: nat): Blocks { [Axes(0, s), Axes(s, t)] }

  lemma TwoBlocksFlat(s: nat, t: nat)
    ensures Flat(TwoBlocks(s, t)) == Axes(0, s + t)
  {
    var blocks := TwoBlocks(s, t);
    var rest: Blocks := blocks[1..];
    assert rest == [Axes(s, t)] && rest[1..] == [];
    assert Flat(rest) == Axes(s, t);
    assert Axes(0, s) + Axes(s, t) == Axes(0, s + t);
  }

  lemma TwoBlocksProduct(n: nat, s: nat, t: nat)
    ensures BlockProduct(Cube(n, s + t), TwoBlocks(s, t)) == Multiset(n, s) * Multiset(n, t)
  {
    hide Multiset, Extent;
    var shape, blocks := Cube(n, s + t), TwoBlocks(s, t);
    var rest: Blocks := blocks[1..];
    assert rest == [Axes(s, t)] && rest[1..] == [];
    assert BlockProduct(shape, rest) == Multiset(Extent(shape, Axes(s, t)), t);
    BlockOfCube(n, s + t, Axes(0, s));
    BlockOfCube(n, s + t, Axes(s, t));
  }

  /** On an n x ... x n tensor of k axes: the product over the blocks, times n to the number of other axes. */
  lemma CubeRepresentativeCount(n: nat, k: nat, blocks: Blocks)
    requires Distinct(Flat(blocks)) && Inside(Flat(blocks), k)
    ensures ValidAction(Cube(n, k), YoungAction(blocks)) && |Flat(blocks)| <= k
    ensures |RepresentativesOf(Cube(n, k), YoungAction(blocks))|
         == BlockProduct(Cube(n, k), blocks) * Power(n, k - |Flat(blocks)|)
  {
    assert |Cube(n, k)| == k;
    hide Cube, Flat, Distinct, Inside, RepresentativesOf, ValidAction, YoungAction, BlockProduct, Size, Unmoved, Power;
    hide ValidBlocks, Rearrange;
    CubeBlocksAreValid(n, k, blocks);
    YoungRepresentativeCount(Cube(n, k), blocks);
    UnmovedOfCube(n, k, blocks);
  }

  lemma AxesFill(k: nat)
    ensures Distinct(Axes(0, k)) && Inside(Axes(0, k), k) && |Axes(0, k)| == k
  {
  }

  /** Blocks that take every axis leave the product over the blocks. */
  lemma FullBlocksCount(n: nat, k: nat, blocks: Blocks)
    requires Distinct(Flat(blocks)) && Inside(Flat(blocks), k) && |Flat(blocks)| == k
    ensures ValidAction(Cube(n, k), YoungAction(blocks))
    ensures |RepresentativesOf(Cube(n, k), YoungAction(blocks))| == BlockProduct(Cube(n, k), blocks)
  {
    hide *;
    CubeRepresentativeCount(n, k, blocks);
    PowerOfNone(n);
  }

  lemma TwoBlocksCount(n: nat, s: nat, t: nat)
    ensures ValidAction(Cube(n, s + t), YoungAction(TwoBlocks(s, t)))
    ensures |RepresentativesOf(Cube(n, s + t), YoungAction(TwoBlocks(s, t)))| == Multiset(n, s) * Multiset(n, t)
  {
    hide *;
    TwoBlocksFlat(s, t);
    AxesFill(s + t);
    FullBlocksCount(n, s + t, TwoBlocks(s, t));
    TwoBlocksProduct(n, s, t);
  }

  lemma NoBlocks(shape: Shape, k: nat)
    ensures Distinct(Flat([])) && Inside(Flat([]), k) && |Flat([])| == 0 && BlockProduct(shape, []) == 1
  {
  }

  lemma NoBlocksCount(n: nat, k: nat)
    ensures ValidAction(Cube(n, k), YoungAction([]))
    ensures |RepresentativesOf(Cube(n, k), YoungAction([]))| == Power(n, k)
  {
    hide *;
    NoBlocks(Cube(n, k), k);
    CubeRepresentativeCount(n, k, []);
  }

  /** The group the oracle assumes on the free indices. */
  function OutputAction(s: nat, t: nat, sameObject: bool): Action {
    if sameObject && s + t >= 2 then SymmetricAction(s + t) else YoungAction(TwoBlocks(s, t))
  }

  function InnerAction(v: nat, innerSymmetry: bool): Action {
    if innerSymmetry && v >= 2 then SymmetricAction(v) else YoungAction([])
  }

  lemma OutputRepresentatives(n: nat, s: nat, t: nat, sameObject: bool)
    ensures ValidAction(Cube(n, s + t), OutputAction(s, t, sameObject))
    ensures |RepresentativesOf(Cube(n, s + t), OutputAction(s, t, sameObject))| == UniqueOutputs(n, s, t, sameObject)
  {
    hide RepresentativesOf, ValidAction, SymmetricAction, YoungAction, TwoBlocks, Multiset;
    SymmetricRepresentativeCount(n, s + t);
    TwoBlocksCount(n, s, t);
  }

  lemma InnerRepresentatives(n: nat, v: nat, innerSymmetry: bool)
    ensures ValidAction(Cube(n, v), InnerAction(v, innerSymmetry))
    ensures |RepresentativesOf(Cube(n, v), InnerAction(v, innerSymmetry))| == UniqueInner(n, v, innerSymmetry)
  {
    hide RepresentativesOf, ValidAction, SymmetricAction, YoungAction, Multiset, Power;
    SymmetricRepresentativeCount(n, v);
    NoBlocksCount(n, v);
  }

  /**
   * On every input and option the library charges the op factor once per representative the orbit
   * map leaves in the output and representative it leaves in the inner indices.
   */
  lemma FCodeChargesRepresentatives(n: nat, s: nat, t: nat, v: nat, sameObject: bool, innerSymmetry: bool)
    ensures ValidAction(Cube(n, s + t), OutputAction(s, t, sameObject))
    ensures ValidAction(Cube(n, v), InnerAction(v, innerSymmetry))
    ensures FCode(n, s, t, v, sameObject, innerSymmetry)
         == Max(OpFactor(v)
                * |RepresentativesOf(Cube(n, s + t), OutputAction(s, t, sameObject))|
                * |RepresentativesOf(Cube(n, v), InnerAction(v, innerSymmetry))|, 1)
  {
    hide RepresentativesOf, ValidAction, OutputAction, InnerAction, FCode, OpFactor;
    OutputRepresentatives(n, s, t, sameObject);
    InnerRepresentatives(n, v, innerSymmetry);
    FCodeCountsUniques(n, s, t, v, sameObject, innerSymmetry);
  }
}
