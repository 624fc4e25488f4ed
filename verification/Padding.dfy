/** What `np.pad` is charged: width normalisation, output size, and the axis-by-axis statistics. */
module Padding {
  import opened Arithmetic
  import opened FiniteSets
  import opened Options
  import opened RowMajor

  type Pair = (int, int)

  /** A `pad_width` or `stat_length` argument, already an integer array. */
  datatype WidthArray = WidthArray(shape: Shape, data: seq<int>)

  ghost predicate ValidWidths(x: WidthArray) { |x.data| == Size(x.shape) }

  datatype Error = CannotBroadcast

  /** `np.broadcast_to(x, (ndim, 2))`, read row by row. */
  function BroadcastPairs(x: WidthArray, ndim: nat): (r: Result<seq<Pair>, Error>)
    requires ValidWidths(x)
    ensures r.Ok? ==> |r.value| == ndim
  {
    if |x.shape| > 2 then Err(CannotBroadcast)
    else
      var rows, cols := Rows(x.shape), Cols(x.shape);
      if (rows != 1 && rows != ndim) || (cols != 1 && cols != 2) then Err(CannotBroadcast)
      else
        SizeOfRank(x.shape);
        Ok(seq(ndim, i requires 0 <= i < ndim =>
          var row := if rows == 1 then 0 else i;
          RowBound(row, rows, cols);
          (x.data[row * cols], x.data[row * cols + (cols - 1)])))
  }

  lemma SizeOfRank(shape: Shape)
    requires |shape| <= 2
    ensures Size(shape) == Rows(shape) * Cols(shape)
  {
    if |shape| == 1 {
      assert Size(shape[1..]) == 1;
    } else if |shape| == 2 {
      assert shape[1..][1..] == [];
      assert Size(shape[1..]) == shape[1] * Size(shape[1..][1..]) == shape[1];
    }
  }

  lemma RowBound(row: nat, rows: nat, cols: nat)
    requires row < rows && cols > 0
    ensures row * cols + cols <= rows * cols
  {
    ProductOrder(row + 1, rows, cols);
  }

  /** Normalise an argument to one pair per axis: two fast paths, then the broadcast. */
  function PadPairs(x: WidthArray, ndim: nat): Result<seq<Pair>, Error>
    requires ValidWidths(x)
  {
    if |x.shape| < 3 && |x.data| == 1 then Ok(seq(ndim, _ => (x.data[0], x.data[0])))
    else if |x.shape| < 3 && |x.data| == 2 && x.shape != [2, 1] then Ok(seq(ndim, _ => (x.data[0], x.data[1])))
    else BroadcastPairs(x, ndim)
  }

  lemma SmallFactors(a: nat, b: nat)
    ensures a * b == 1 ==> a == 1 && b == 1
    ensures a * b == 2 ==> (a == 1 && b == 2) || (a == 2 && b == 1)
  {
    ProductOrder(3, a, b);
    ProductOrder(2, a, b);
    ProductOrder(3, b, a);
    ProductOrder(2, b, a);
  }

  function Rows(shape: Shape): nat { if |shape| == 2 then shape[0] else 1 }
  function Cols(shape: Shape): nat { if |shape| == 0 then 1 else shape[|shape| - 1] }

  lemma OneRowBroadcast(x: WidthArray, ndim: nat)
    requires ValidWidths(x) && |x.shape| <= 2 && Rows(x.shape) == 1 && 1 <= Cols(x.shape) <= 2
    ensures |x.data| == Cols(x.shape)
    ensures BroadcastPairs(x, ndim) == Ok(seq(ndim, _ => (x.data[0], x.data[Cols(x.shape) - 1])))
  {
    SizeOfRank(x.shape);
    var expected := seq(ndim, _ => (x.data[0], x.data[Cols(x.shape) - 1]));
    assert BroadcastPairs(x, ndim).Ok?;
    assert BroadcastPairs(x, ndim).value == expected;
  }

  /** The fast paths never accept, reject or normalise anything differently from the broadcast. */
  lemma PadPairsIsBroadcast(x: WidthArray, ndim: nat)
    requires ValidWidths(x)
    ensures PadPairs(x, ndim) == BroadcastPairs(x, ndim)
  {
    if |x.shape| < 3 && (|x.data| == 1 || (|x.data| == 2 && x.shape != [2, 1])) {
      SizeOfRank(x.shape);
      SmallFactors(Rows(x.shape), Cols(x.shape));
      if |x.shape| == 2 { assert x.shape == [x.shape[0], x.shape[1]]; }
      OneRowBroadcast(x, ndim);
    }
  }

  /** One row for every axis: a single number, or a single pair. */
  predicate IsOneRow(shape: Shape) {
    shape == [] || shape == [1] || shape == [2] || shape == [1, 1] || shape == [1, 2]
  }

  lemma DataLength(x: WidthArray)
    requires ValidWidths(x)
    ensures |x.shape| == 0 ==> |x.data| == 1
    ensures |x.shape| == 1 ==> |x.data| == x.shape[0]
    ensures |x.shape| == 2 ==> |x.data| == x.shape[0] * x.shape[1]
  {
    if |x.shape| <= 2 { SizeOfRank(x.shape); }
  }

  /**
   * What an argument normalises to, shape by shape: a pair per axis is taken axis by axis, a column doubles its
   * entries, a single row serves every axis, and nothing else is accepted.
   */
  lemma PadPairsAre(x: WidthArray, ndim: nat)
    requires ValidWidths(x)
    ensures x.shape == [ndim, 2] ==>
              && |x.data| == 2 * ndim && PadPairs(x, ndim).Ok? && |PadPairs(x, ndim).value| == ndim
              && forall i: nat :: i < ndim ==> PadPairs(x, ndim).value[i] == (x.data[2 * i], x.data[2 * i + 1])
    ensures x.shape == [ndim, 1] ==>
              && |x.data| == ndim && PadPairs(x, ndim).Ok? && |PadPairs(x, ndim).value| == ndim
              && forall i: nat :: i < ndim ==> PadPairs(x, ndim).value[i] == (x.data[i], x.data[i])
    ensures IsOneRow(x.shape) ==>
              && 1 <= |x.data| <= 2 && PadPairs(x, ndim).Ok? && |PadPairs(x, ndim).value| == ndim
              && forall i: nat :: i < ndim ==> PadPairs(x, ndim).value[i] == (x.data[0], x.data[|x.data| - 1])
    ensures x.shape != [ndim, 2] && x.shape != [ndim, 1] && !IsOneRow(x.shape) ==>
              PadPairs(x, ndim) == Err(CannotBroadcast)
  {
    DataLength(x);
    PadPairsIsBroadcast(x, ndim);
    hide PadPairs;
    if |x.shape| == 2 { assert x.shape == [x.shape[0], x.shape[1]]; }
    if |x.shape| == 1 { assert x.shape == [x.shape[0]]; }
  }

  // ---- Products of extents ----

  function Product(s: seq<int>): int { if s == [] then 1 else s[0] * Product(s[1..]) }

  lemma {:induction false} ProductConcat(a: seq<int>, b: seq<int>)
    ensures Product(a + b) == Product(a) * Product(b)
  {
    if a == [] {
      assert a + b == b;
    } else {
      assert (a + b)[1..] == a[1..] + b;
      ProductConcat(a[1..], b);
      assert a[0] * (Product(a[1..]) * Product(b)) == (a[0] * Product(a[1..])) * Product(b);
    }
  }

  lemma ProductPrefix(s: seq<int>, i: nat)
    requires i < |s|
    ensures Product(s[..i + 1]) == Product(s[..i]) * s[i]
  {
    assert s[..i + 1] == s[..i] + [s[i]];
    assert [s[i]][1..] == [];
    assert Product([s[i]]) == s[i];
    ProductConcat(s[..i], [s[i]]);
  }

  lemma {:induction false} ProductIsSize(shape: Shape)
    ensures Product(shape) == Size(shape)
  {
    if shape != [] { ProductIsSize(shape[1..]); }
  }

  lemma {:induction false} ProductAtLeast(a: seq<int>, b: seq<int>)
    requires |a| == |b| && forall i :: 0 <= i < |a| ==> 0 <= a[i] <= b[i]
    ensures 0 <= Product(a) <= Product(b)
  {
    if a != [] {
      ProductAtLeast(a[1..], b[1..]);
      ProductOrder(a[0], b[0], Product(a[1..]));
      ProductOrder(Product(a[1..]), Product(b[1..]), b[0]);
      ProductOrder(0, a[0], Product(a[1..]));
    }
  }

  // ---- The axis-by-axis procedure ----

  function Padded(inShape: Shape, pads: seq<Pair>): seq<int>
    requires |pads| == |inShape|
  {
    seq(|inShape|, i requires 0 <= i < |inShape| => inShape[i] + pads[i].0 + pads[i].1)
  }

  /** Extents of the valid region when axis `i` comes up: padded before it, original from it on. */
  function Grown(inShape: Shape, pads: seq<Pair>, i: nat): seq<int>
    requires |pads| == |inShape| && i <= |inShape|
  {
    Padded(inShape, pads)[..i] + inShape[i..]
  }

  /** Cells of that region. */
  function Stage(inShape: Shape, pads: seq<Pair>, i: nat): int
    requires |pads| == |inShape| && i <= |inShape|
  {
    Product(Grown(inShape, pads, i))
  }

  function Cross(inShape: Shape, pads: seq<Pair>, i: nat): int
    requires |pads| == |inShape| && i < |inShape|
  {
    Product(Padded(inShape, pads)[..i]) * Product(inShape[i + 1..])
  }

  /** Lengths of the reductions axis `i` performs: one if both sides read the whole axis, else two. */
  function StatLengths(extent: nat, stat: Pair): seq<int> {
    var before, after := Min(stat.0, extent), Min(stat.1, extent);
    if before == after == extent then [extent] else [before, after]
  }

  function Sum(s: seq<int>): int { if s == [] then 0 else s[0] + Sum(s[1..]) }

  function AxisCost(inShape: Shape, pads: seq<Pair>, stats: seq<Pair>, mean: bool, i: nat): int
    requires |stats| == |pads| == |inShape| && i < |inShape|
  {
    var lengths := StatLengths(inShape[i], stats[i]);
    Cross(inShape, pads, i) * (Sum(lengths) + if mean then |lengths| else 0)
  }

  function StatCost(inShape: Shape, pads: seq<Pair>, stats: seq<Pair>, mean: bool, i: nat): int
    requires |stats| == |pads| == |inShape| && i <= |inShape|
  {
    if i == 0 then 0 else StatCost(inShape, pads, stats, mean, i - 1) + AxisCost(inShape, pads, stats, mean, i - 1)
  }

  lemma StageBefore(inShape: Shape, pads: seq<Pair>, i: nat)
    requires |pads| == |inShape| && i < |inShape|
    ensures Stage(inShape, pads, i) == Cross(inShape, pads, i) * inShape[i]
  {
    var left, right := Padded(inShape, pads)[..i], inShape[i..];
    ProductConcat(left, right);
    assert right[1..] == inShape[i + 1..];
    SwapFactors(Product(left), inShape[i], Product(inShape[i + 1..]));
  }

  lemma StageAfter(inShape: Shape, pads: seq<Pair>, i: nat)
    requires |pads| == |inShape| && i < |inShape|
    ensures Stage(inShape, pads, i + 1) == Cross(inShape, pads, i) * Padded(inShape, pads)[i]
  {
    var padded := Padded(inShape, pads);
    ProductConcat(padded[..i + 1], inShape[i + 1..]);
    ProductPrefix(padded, i);
    SwapFactors(Product(padded[..i]), padded[i], Product(inShape[i + 1..]));
  }

  lemma SwapFactors(a: int, b: int, c: int)
    ensures a * (b * c) == (a * c) * b && (a * b) * c == (a * c) * b
  {
  }

  lemma GrowAxis(inShape: Shape, pads: seq<Pair>, i: nat)
    requires |pads| == |inShape| && i < |inShape|
    ensures Grown(inShape, pads, i)[i := Padded(inShape, pads)[i]] == Grown(inShape, pads, i + 1)
    ensures Grown(inShape, pads, i)[..i] == Padded(inShape, pads)[..i]
  {
  }

  /** One axis: its reductions, and for `mean` one division per output cell. */
  method AxisStep(inShape: Shape, pads: seq<Pair>, stats: seq<Pair>, mean: bool, i: nat, grown: seq<int>)
    returns (charge: int)
    requires |stats| == |pads| == |inShape| && i < |inShape| && grown == Grown(inShape, pads, i)
    ensures charge == AxisCost(inShape, pads, stats, mean, i)
  {
    GrowAxis(inShape, pads, i);
    var cross := Product(grown[..i]) * Product(inShape[i + 1..]);
    var lengths := StatLengths(inShape[i], stats[i]);
    charge := cross * Sum(lengths);
    if mean { charge := charge + cross * |lengths|; }
  }

  /** The statistics loop over a growing buffer. */
  method PadStatCost(inShape: Shape, pads: seq<Pair>, stats: seq<Pair>, mean: bool)
    returns (cost: int, grown: seq<int>)
    requires |stats| == |pads| == |inShape|
    ensures cost == StatCost(inShape, pads, stats, mean, |inShape|)
    ensures grown == Padded(inShape, pads)
  {
    hide AxisCost, StatLengths, Product;
    cost, grown := 0, inShape;
    assert grown == Grown(inShape, pads, 0);
    for i := 0 to |inShape|
      invariant grown == Grown(inShape, pads, i)
      invariant cost == StatCost(inShape, pads, stats, mean, i)
    {
      var charge := AxisStep(inShape, pads, stats, mean, i, grown);
      cost := cost + charge;
      GrowAxis(inShape, pads, i);
      grown := grown[i := inShape[i] + pads[i].0 + pads[i].1];
    }
  }

  // ---- The charge is the number of cells the procedure reads ----

  /** Index tuples of a box: corner `lo`, extents `ext`. */
  ghost function Box(lo: seq<nat>, ext: seq<nat>): (r: set<seq<nat>>)
    requires |lo| == |ext|
    decreases |ext|
  {
    if ext == [] then {[]} else Slabs(lo[0], ext[0], Box(lo[1..], ext[1..]))
  }

  ghost function Slabs(lo: nat, count: nat, inner: set<seq<nat>>): (r: set<seq<nat>>)
  {
    if count == 0 then {} else Slabs(lo, count - 1, inner) + Prefixed(lo + count - 1, inner)
  }

  lemma {:induction false} SlabsMember(lo: nat, count: nat, inner: set<seq<nat>>, t: seq<nat>)
    ensures t in Slabs(lo, count, inner) <==> t != [] && lo <= t[0] < lo + count && t[1..] in inner
  {
    if count > 0 {
      SlabsMember(lo, count - 1, inner, t);
      PrefixedMember(lo + count - 1, inner, t);
    }
  }

  lemma {:induction false} SlabsCount(lo: nat, count: nat, inner: set<seq<nat>>)
    ensures |Slabs(lo, count, inner)| == count * |inner|
  {
    hide Prefixed;
    if count > 0 {
      SlabsCount(lo, count - 1, inner);
      LastSlabIsNew(lo, count - 1, inner);
      OneMore(count - 1, |inner|);
    }
  }

  lemma LastSlabIsNew(lo: nat, count: nat, inner: set<seq<nat>>)
    ensures Slabs(lo, count, inner) !! Prefixed(lo + count, inner)
  {
    forall t | t in Prefixed(lo + count, inner) ensures t !in Slabs(lo, count, inner) {
      SlabsMember(lo, count, inner, t);
      PrefixedMember(lo + count, inner, t);
    }
  }

  ghost predicate InBox(lo: seq<nat>, ext: seq<nat>, t: seq<nat>)
    requires |lo| == |ext|
  {
    |t| == |ext| && forall a :: 0 <= a < |ext| ==> lo[a] <= t[a] < lo[a] + ext[a]
  }

  lemma BoxSplit(lo: seq<nat>, ext: seq<nat>, t: seq<nat>)
    requires |lo| == |ext| && ext != [] && t != []
    ensures InBox(lo, ext, t) <==> lo[0] <= t[0] < lo[0] + ext[0] && InBox(lo[1..], ext[1..], t[1..])
  {
    if lo[0] <= t[0] < lo[0] + ext[0] && InBox(lo[1..], ext[1..], t[1..]) {
      forall a | 0 <= a < |ext| ensures lo[a] <= t[a] < lo[a] + ext[a] {
        if a > 0 { assert lo[1..][a - 1] <= t[1..][a - 1] < lo[1..][a - 1] + ext[1..][a - 1]; }
      }
    }
  }

  lemma {:induction false} BoxMember(lo: seq<nat>, ext: seq<nat>, t: seq<nat>)
    requires |lo| == |ext|
    ensures t in Box(lo, ext) <==> InBox(lo, ext, t)
    decreases |ext|
  {
    if ext != [] {
      SlabsMember(lo[0], ext[0], Box(lo[1..], ext[1..]), t);
      if t != [] {
        BoxMember(lo[1..], ext[1..], t[1..]);
        BoxSplit(lo, ext, t);
      }
    }
  }

  lemma {:induction false} BoxCount(lo: seq<nat>, ext: seq<nat>)
    requires |lo| == |ext|
    ensures |Box(lo, ext)| == Product(ext)
    decreases |ext|
  {
    if ext != [] {
      BoxCount(lo[1..], ext[1..]);
      SlabsCount(lo[0], ext[0], Box(lo[1..], ext[1..]));
    }
  }

  /** Cell `t` of the output lies in the valid region when axis `i` comes up, within [from, to) on axis `i`. */
  ghost predicate ReadAt(inShape: Shape, pads: seq<Pair>, i: nat, from: int, to: int, t: seq<nat>)
    requires |pads| == |inShape|
  {
    |t| == |inShape| && forall a :: 0 <= a < |inShape| ==>
      if a < i then t[a] < inShape[a] + pads[a].0 + pads[a].1
      else if a == i then from <= t[a] < to
      else pads[a].0 <= t[a] < pads[a].0 + inShape[a]
  }

  ghost predicate NonNegative(pairs: seq<Pair>) {
    forall a :: 0 <= a < |pairs| ==> pairs[a].0 >= 0 && pairs[a].1 >= 0
  }

  /** The cells one reduction along axis `i` reads. */
  ghost function Reads(inShape: Shape, pads: seq<Pair>, i: nat, from: nat, length: nat): (r: set<seq<nat>>)
    requires |pads| == |inShape| && NonNegative(pads) && i < |inShape|
  {
    Box(ReadCorner(inShape, pads, i, from), ReadExtents(inShape, pads, i, length))
  }

  ghost function ReadCorner(inShape: Shape, pads: seq<Pair>, i: nat, from: nat): (lo: seq<nat>)
    requires |pads| == |inShape| && NonNegative(pads) && i < |inShape|
    ensures |lo| == |inShape|
  {
    seq(|inShape|, a requires 0 <= a < |inShape| => if a < i then 0 else if a == i then from else pads[a].0)
  }

  ghost function ReadExtents(inShape: Shape, pads: seq<Pair>, i: nat, length: nat): (ext: seq<nat>)
    requires |pads| == |inShape| && NonNegative(pads) && i < |inShape|
    ensures |ext| == |inShape|
  {
    seq(|inShape|, a requires 0 <= a < |inShape| =>
      if a < i then inShape[a] + pads[a].0 + pads[a].1 else if a == i then length else inShape[a])
  }

  lemma ReadsAre(inShape: Shape, pads: seq<Pair>, i: nat, from: nat, length: nat, t: seq<nat>)
    requires |pads| == |inShape| && NonNegative(pads) && i < |inShape|
    ensures t in Reads(inShape, pads, i, from, length) <==> ReadAt(inShape, pads, i, from, from + length, t)
  {
    BoxMember(ReadCorner(inShape, pads, i, from), ReadExtents(inShape, pads, i, length), t);
  }

  lemma ReadsCount(inShape: Shape, pads: seq<Pair>, i: nat, from: nat, length: nat)
    requires |pads| == |inShape| && NonNegative(pads) && i < |inShape|
    ensures |Reads(inShape, pads, i, from, length)| == Cross(inShape, pads, i) * length
  {
    var ext: seq<int> := ReadExtents(inShape, pads, i, length);
    BoxCount(ReadCorner(inShape, pads, i, from), ReadExtents(inShape, pads, i, length));
    var left, right: seq<int> := Padded(inShape, pads)[..i], inShape[i + 1..];
    assert ext == left + ([length] + right);
    ProductConcat(left, [length] + right);
    assert ([length] + right)[1..] == right;
    SwapFactors(Product(left), length, Product(right));
  }

  /**
   * The reads numpy performs for axis `i`: the leading statistic over the first cells of the
   * original axis, the trailing one over the last, shared when both cover the whole axis.
   */
  ghost function AxisReads(inShape: Shape, pads: seq<Pair>, stats: seq<Pair>, i: nat): int
    requires |stats| == |pads| == |inShape| && NonNegative(pads) && NonNegative(stats) && i < |inShape|
  {
    var extent, start := inShape[i], pads[i].0;
    var before, after: nat := Min(stats[i].0, extent), Min(stats[i].1, extent);
    var leading := |Reads(inShape, pads, i, start, before)|;
    if before == extent && after == extent then leading
    else leading + |Reads(inShape, pads, i, start + extent - after, after)|
  }

  /** Each axis is charged one unit per cell its reductions read. */
  lemma AxisCostCountsReads(inShape: Shape, pads: seq<Pair>, stats: seq<Pair>, i: nat)
    requires |stats| == |pads| == |inShape| && NonNegative(pads) && NonNegative(stats) && i < |inShape|
    ensures AxisCost(inShape, pads, stats, false, i) == AxisReads(inShape, pads, stats, i)
  {
    hide Reads, Cross, Sum, Product, StatLengths;
    var extent, start := inShape[i], pads[i].0;
    var before, after: nat := Min(stats[i].0, extent), Min(stats[i].1, extent);
    ReadsCount(inShape, pads, i, start, before);
    ReadsCount(inShape, pads, i, start + extent - after, after);
    StatTotal(extent, stats[i]);
    Distribute(Cross(inShape, pads, i), before, after);
  }

  lemma StatTotal(extent: nat, stat: Pair)
    ensures var before, after := Min(stat.0, extent), Min(stat.1, extent);
            Sum(StatLengths(extent, stat)) + 0
            == if before == extent && after == extent then before else before + after
  {
    SumOfLengths(Min(stat.0, extent), Min(stat.1, extent));
  }

  /** Cells the reductions of axis `i` produce: one line of them when both sides read the whole axis, else two. */
  ghost function AxisOutputs(inShape: Shape, pads: seq<Pair>, stats: seq<Pair>, i: nat): nat
    requires |stats| == |pads| == |inShape| && NonNegative(pads) && i < |inShape|
  {
    (if stats[i].0 >= inShape[i] && stats[i].1 >= inShape[i] then 1 else 2) * |Reads(inShape, pads, i, pads[i].0, 1)|
  }

  /** `mean` adds one division per cell each reduction produces. */
  lemma MeanCountsOutputs(inShape: Shape, pads: seq<Pair>, stats: seq<Pair>, i: nat)
    requires |stats| == |pads| == |inShape| && NonNegative(pads) && NonNegative(stats) && i < |inShape|
    ensures AxisCost(inShape, pads, stats, true, i)
         == AxisReads(inShape, pads, stats, i) + AxisOutputs(inShape, pads, stats, i)
  {
    var lengths := StatLengths(inShape[i], stats[i]);
    assert |lengths| == if stats[i].0 >= inShape[i] && stats[i].1 >= inShape[i] then 1 else 2;
    hide Reads, Cross, Sum, Product, AxisReads, StatLengths;
    AxisCostCountsReads(inShape, pads, stats, i);
    ReadsCount(inShape, pads, i, pads[i].0, 1);
    OutputsOnTop(Cross(inShape, pads, i), Sum(lengths), |lengths|, |Reads(inShape, pads, i, pads[i].0, 1)|);
  }

  lemma OutputsOnTop(cross: int, sum: int, count: nat, cells: nat)
    requires cells == cross * 1
    ensures cross * (sum + count) == cross * (sum + 0) + count * cells
  {
  }

  ghost function TotalReads(inShape: Shape, pads: seq<Pair>, stats: seq<Pair>, i: nat): int
    requires |stats| == |pads| == |inShape| && NonNegative(pads) && NonNegative(stats) && i <= |inShape|
  {
    if i == 0 then 0 else TotalReads(inShape, pads, stats, i - 1) + AxisReads(inShape, pads, stats, i - 1)
  }

  /** The whole statistics charge is the number of cells read, axis by axis, from the growing buffer. */
  lemma {:induction false} StatCostCountsReads(inShape: Shape, pads: seq<Pair>, stats: seq<Pair>, i: nat)
    requires |stats| == |pads| == |inShape| && NonNegative(pads) && NonNegative(stats) && i <= |inShape|
    ensures StatCost(inShape, pads, stats, false, i) == TotalReads(inShape, pads, stats, i)
  {
    hide AxisCost, AxisReads;
    if i > 0 {
      StatCostCountsReads(inShape, pads, stats, i - 1);
      AxisCostCountsReads(inShape, pads, stats, i - 1);
    }
  }

  /** All reads, and for `mean` all divisions, axis by axis. */
  ghost function TotalWork(inShape: Shape, pads: seq<Pair>, stats: seq<Pair>, mean: bool, i: nat): int
    requires |stats| == |pads| == |inShape| && NonNegative(pads) && NonNegative(stats) && i <= |inShape|
  {
    if i == 0 then 0
    else
      TotalWork(inShape, pads, stats, mean, i - 1) + AxisReads(inShape, pads, stats, i - 1)
      + if mean then AxisOutputs(inShape, pads, stats, i - 1) else 0
  }

  lemma {:induction false} StatCostIsWork(inShape: Shape, pads: seq<Pair>, stats: seq<Pair>, mean: bool, i: nat)
    requires |stats| == |pads| == |inShape| && NonNegative(pads) && NonNegative(stats) && i <= |inShape|
    ensures StatCost(inShape, pads, stats, mean, i) == TotalWork(inShape, pads, stats, mean, i)
  {
    hide AxisCost, AxisReads, AxisOutputs;
    if i > 0 {
      StatCostIsWork(inShape, pads, stats, mean, i - 1);
      MeanCountsOutputs(inShape, pads, stats, i - 1);
      AxisCostCountsReads(inShape, pads, stats, i - 1);
    }
  }

  ghost predicate IsOutput(inShape: Shape, pads: seq<Pair>, t: seq<nat>)
    requires |pads| == |inShape|
  {
    |t| == |inShape| && forall a :: 0 <= a < |inShape| ==> t[a] < inShape[a] + pads[a].0 + pads[a].1
  }

  /** The cells of the output. */
  ghost function Outputs(inShape: Shape, pads: seq<Pair>): (cells: set<seq<nat>>)
    requires |pads| == |inShape| && NonNegative(pads)
    ensures forall t :: t in cells <==> IsOutput(inShape, pads, t)
  {
    var lo, ext := OutputCorner(inShape), OutputExtents(inShape, pads);
    forall t ensures t in Box(lo, ext) <==> InBox(lo, ext, t) { BoxMember(lo, ext, t); }
    Box(lo, ext)
  }

  ghost function OutputCorner(inShape: Shape): (lo: seq<nat>) { seq(|inShape|, _ => 0) }

  ghost function OutputExtents(inShape: Shape, pads: seq<Pair>): (ext: seq<nat>)
    requires |pads| == |inShape| && NonNegative(pads)
    ensures |ext| == |inShape|
  {
    seq(|inShape|, a requires 0 <= a < |inShape| => inShape[a] + pads[a].0 + pads[a].1)
  }

  lemma OutputsCount(inShape: Shape, pads: seq<Pair>)
    requires |pads| == |inShape| && NonNegative(pads)
    ensures |Outputs(inShape, pads)| == Product(Padded(inShape, pads))
  {
    var ext: seq<int> := OutputExtents(inShape, pads);
    BoxCount(OutputCorner(inShape), OutputExtents(inShape, pads));
    assert ext == Padded(inShape, pads);
  }

  lemma SumOfLengths(a: int, b: int)
    ensures Sum([a]) == a && Sum([a, b]) == a + b
  {
    assert [a][1..] == [] && [a, b][1..] == [b] && [b][1..] == [];
    assert Sum([b]) == b;
  }

  // ---- Bounds ----

  ghost function BorderCells(inShape: Shape, pads: seq<Pair>, i: nat): int
    requires |pads| == |inShape| && i <= |inShape|
  {
    if i == 0 then 0
    else BorderCells(inShape, pads, i - 1) + Cross(inShape, pads, i - 1) * (pads[i - 1].0 + pads[i - 1].1)
  }

  /** Cross sections times pad widths telescope to the cells each stage has added. */
  lemma {:induction false} BorderTelescopes(inShape: Shape, pads: seq<Pair>, i: nat)
    requires |pads| == |inShape| && i <= |inShape|
    ensures BorderCells(inShape, pads, i) == Stage(inShape, pads, i) - Stage(inShape, pads, 0)
  {
    if i > 0 {
      hide Stage, Cross;
      BorderTelescopes(inShape, pads, i - 1);
      StageBefore(inShape, pads, i - 1);
      StageAfter(inShape, pads, i - 1);
      Distribute(Cross(inShape, pads, i - 1), inShape[i - 1], pads[i - 1].0 + pads[i - 1].1);
    }
  }

  lemma EndStages(inShape: Shape, pads: seq<Pair>)
    requires |pads| == |inShape|
    ensures Stage(inShape, pads, 0) == Size(inShape)
    ensures Stage(inShape, pads, |inShape|) == Product(Padded(inShape, pads))
  {
    ProductIsSize(inShape);
    assert Grown(inShape, pads, 0) == inShape;
    assert Grown(inShape, pads, |inShape|) == Padded(inShape, pads);
  }

  /** The border written over all axes is what the output has more than the input. */
  lemma {:induction false} BorderIsDifference(inShape: Shape, pads: seq<Pair>)
    requires |pads| == |inShape|
    ensures BorderCells(inShape, pads, |inShape|) == Product(Padded(inShape, pads)) - Size(inShape)
  {
    BorderTelescopes(inShape, pads, |inShape|);
    EndStages(inShape, pads);
  }

  /** `stat_length=None`: both sides read the whole axis. */
  function DefaultStats(inShape: Shape): seq<Pair> {
    seq(|inShape|, i requires 0 <= i < |inShape| => (inShape[i], inShape[i]))
  }

  lemma StagesGrow(inShape: Shape, pads: seq<Pair>, i: nat)
    requires |pads| == |inShape| && i <= |inShape| && NonNegative(pads)
    ensures Size(inShape) <= Stage(inShape, pads, i) <= Product(Padded(inShape, pads))
  {
    ProductIsSize(inShape);
    ProductAtLeast(inShape, Grown(inShape, pads, i));
    ProductAtLeast(Grown(inShape, pads, i), Padded(inShape, pads));
  }

  /** With the default statistics, each axis reads the whole region that is valid when it comes up. */
  lemma {:induction false} DefaultStatCostBounds(inShape: Shape, pads: seq<Pair>, i: nat)
    requires |pads| == |inShape| && i <= |inShape| && NonNegative(pads)
    ensures var cost := StatCost(inShape, pads, DefaultStats(inShape), false, i);
            i * Size(inShape) <= cost <= i * Product(Padded(inShape, pads))
  {
    if i > 0 {
      DefaultStatCostBounds(inShape, pads, i - 1);
      StageBefore(inShape, pads, i - 1);
      StagesGrow(inShape, pads, i - 1);
      SumOfLengths(inShape[i - 1], inShape[i - 1]);
      assert AxisCost(inShape, pads, DefaultStats(inShape), false, i - 1) == Stage(inShape, pads, i - 1);
      OneMore(i - 1, Size(inShape));
      OneMore(i - 1, Product(Padded(inShape, pads)));
    }
  }

  // ---- The whole charge ----

  datatype Mode = Free | Reflecting(odd: bool) | LinearRamp | Statistic(mean: bool) | Unknown

  /** `_pad_flop_cost`, or the broadcast error numpy itself would raise. */
  method PadFlopCost(inShape: Shape, padWidth: WidthArray, mode: Mode, statLength: Option<WidthArray>)
    returns (cost: Result<int, Error>)
    requires ValidWidths(padWidth) && (statLength.Some? ==> ValidWidths(statLength.value))
    ensures cost == PadCharge(inShape, padWidth, mode, statLength)
  {
    var pairs := PadPairs(padWidth, |inShape|);
    if pairs.Err? { return Err(CannotBroadcast); }
    var pads := pairs.value;
    PadPairsIsBroadcast(padWidth, |inShape|);
    var numelIn, numelOut := Size(inShape), Product(Padded(inShape, pads));
    match mode {
      case Free => return Ok(Max(numelOut, 1));
      case Reflecting(odd) =>
        return Ok(Max(if odd then numelOut + (numelOut - numelIn) else numelOut, 1));
      case LinearRamp => return Ok(Max(numelOut + (numelOut - numelIn), 1));
      case Statistic(mean) =>
        if numelIn == 0 { return Ok(Max(numelOut, 1)); }
        var stats := DefaultStats(inShape);
        if statLength.Some? {
          PadPairsIsBroadcast(statLength.value, |inShape|);
          var lengths := PadPairs(statLength.value, |inShape|);
          if lengths.Err? { return Err(CannotBroadcast); }
          stats := lengths.value;
        }
        var statCost, grown := PadStatCost(inShape, pads, stats, mean);
        return Ok(Max(numelOut + statCost, 1));
      case Unknown => return Ok(Max(numelOut, 1));
    }
  }

  function StatPairs(inShape: Shape, statLength: Option<WidthArray>): Result<seq<Pair>, Error>
    requires statLength.Some? ==> ValidWidths(statLength.value)
  {
    if statLength.None? then Ok(DefaultStats(inShape)) else BroadcastPairs(statLength.value, |inShape|)
  }

  /**
   * The charge in numpy's own terms: plain broadcasting of the widths, every output cell once, and
   * what the mode adds.
   */
  function PadCharge(inShape: Shape, padWidth: WidthArray, mode: Mode, statLength: Option<WidthArray>)
    : Result<int, Error>
    requires ValidWidths(padWidth) && (statLength.Some? ==> ValidWidths(statLength.value))
  {
    var pads := BroadcastPairs(padWidth, |inShape|);
    if pads.Err? then Err(CannotBroadcast)
    else
      var out := Product(Padded(inShape, pads.value));
      if mode.Statistic? && Size(inShape) > 0 then
        var stats := StatPairs(inShape, statLength);
        if stats.Err? then Err(CannotBroadcast)
        else Ok(Max(out + StatCost(inShape, pads.value, stats.value, mode.mean, |inShape|), 1))
      else
        var secondPass := mode.LinearRamp? || (mode.Reflecting? && mode.odd);
        Ok(Max(if secondPass then out + (out - Size(inShape)) else out, 1))
  }

  /** A ramp, and an odd reflection, write the border a second time, axis by axis. */
  lemma {:induction false} SecondPassIsTheBorder(inShape: Shape, padWidth: WidthArray, mode: Mode)
    requires ValidWidths(padWidth) && BroadcastPairs(padWidth, |inShape|).Ok?
    requires mode == LinearRamp || mode == Reflecting(true)
    ensures var pads := BroadcastPairs(padWidth, |inShape|).value;
            PadCharge(inShape, padWidth, mode, None)
            == Ok(Max(Product(Padded(inShape, pads)) + BorderCells(inShape, pads, |inShape|), 1))
  {
    BorderIsDifference(inShape, BroadcastPairs(padWidth, |inShape|).value);
  }

  /** Maximum, minimum and median over non-empty input, default statistics: between d reads of the input
      and d reads of the output on top of the output itself. */
  lemma {:induction false} DefaultStatisticBounds(inShape: Shape, padWidth: WidthArray)
    requires ValidWidths(padWidth) && Size(inShape) > 0
    requires BroadcastPairs(padWidth, |inShape|).Ok? && NonNegative(BroadcastPairs(padWidth, |inShape|).value)
    ensures var out := Product(Padded(inShape, BroadcastPairs(padWidth, |inShape|).value));
            var cost := PadCharge(inShape, padWidth, Statistic(false), None);
            cost.Ok? && out + |inShape| * Size(inShape) <= cost.value <= (|inShape| + 1) * out
  {
    hide BroadcastPairs, Product, StatCost;
    var pads := BroadcastPairs(padWidth, |inShape|).value;
    DefaultStatCostBounds(inShape, pads, |inShape|);
    StagesGrow(inShape, pads, 0);
    OneMore(|inShape|, Product(Padded(inShape, pads)));
    ProductOrder(0, |inShape|, Size(inShape));
  }

  /** The lengths a statistic reads: the whole axis on both sides, or those given, normalised like widths. */
  ghost predicate StatsAre(inShape: Shape, statLength: Option<WidthArray>, stats: seq<Pair>)
    requires statLength.Some? ==> ValidWidths(statLength.value)
  {
    match statLength
    case None => |stats| == |inShape| && forall i :: 0 <= i < |inShape| ==> stats[i] == (inShape[i], inShape[i])
    case Some(lengths) => PadPairs(lengths, |inShape|) == Ok(stats)
  }

  lemma ChargeFromPairs(inShape: Shape, padWidth: WidthArray, mode: Mode, statLength: Option<WidthArray>,
                        pads: seq<Pair>)
    requires ValidWidths(padWidth) && (statLength.Some? ==> ValidWidths(statLength.value))
    requires BroadcastPairs(padWidth, |inShape|) == Ok(pads)
    ensures var out, charge := Product(Padded(inShape, pads)), PadCharge(inShape, padWidth, mode, statLength);
            match mode
            case Free => charge == Ok(Max(out, 1))
            case Unknown => charge == Ok(Max(out, 1))
            case LinearRamp => charge == Ok(Max(out + (out - Size(inShape)), 1))
            case Reflecting(odd) => charge == Ok(Max(if odd then out + (out - Size(inShape)) else out, 1))
            case Statistic(_) => Size(inShape) == 0 ==> charge == Ok(Max(out, 1))
  {
    hide BroadcastPairs, Product, Padded, Size, StatCost, StatPairs;
  }

  /**
   * The charge, mode by mode, in cells: every output cell once, and the border again for a ramp or an odd
   * reflection. A statistic over an empty input adds nothing.
   */
  lemma ChargeByMode(inShape: Shape, padWidth: WidthArray, mode: Mode, statLength: Option<WidthArray>,
                     pads: seq<Pair>)
    requires ValidWidths(padWidth) && (statLength.Some? ==> ValidWidths(statLength.value))
    requires PadPairs(padWidth, |inShape|) == Ok(pads) && NonNegative(pads)
    ensures |pads| == |inShape|
    ensures var out, charge := |Outputs(inShape, pads)|, PadCharge(inShape, padWidth, mode, statLength);
            match mode
            case Free => charge == Ok(Max(out, 1))
            case Unknown => charge == Ok(Max(out, 1))
            case LinearRamp => charge == Ok(Max(out + (out - Size(inShape)), 1))
            case Reflecting(odd) => charge == Ok(Max(if odd then out + (out - Size(inShape)) else out, 1))
            case Statistic(_) => Size(inShape) == 0 ==> charge == Ok(Max(out, 1))
  {
    hide *;
    PadPairsIsBroadcast(padWidth, |inShape|);
    OutputsCount(inShape, pads);
    ChargeFromPairs(inShape, padWidth, mode, statLength, pads);
  }

  lemma StatisticFromPairs(inShape: Shape, padWidth: WidthArray, mean: bool, statLength: Option<WidthArray>,
                           pads: seq<Pair>, stats: seq<Pair>)
    requires ValidWidths(padWidth) && (statLength.Some? ==> ValidWidths(statLength.value)) && Size(inShape) > 0
    requires BroadcastPairs(padWidth, |inShape|) == Ok(pads) && StatPairs(inShape, statLength) == Ok(stats)
    requires |pads| == |stats| == |inShape|
    ensures PadCharge(inShape, padWidth, Statistic(mean), statLength)
         == Ok(Max(Product(Padded(inShape, pads)) + StatCost(inShape, pads, stats, mean, |inShape|), 1))
  {
    hide BroadcastPairs, Product, Padded, Size, StatCost, StatPairs;
  }

  /** A statistic over a non-empty input adds what its reductions read, and for `mean` what they divide. */
  lemma StatisticCharge(inShape: Shape, padWidth: WidthArray, mean: bool, statLength: Option<WidthArray>,
                        pads: seq<Pair>, stats: seq<Pair>)
    requires ValidWidths(padWidth) && (statLength.Some? ==> ValidWidths(statLength.value)) && Size(inShape) > 0
    requires PadPairs(padWidth, |inShape|) == Ok(pads) && NonNegative(pads)
    requires StatsAre(inShape, statLength, stats) && NonNegative(stats)
    ensures |pads| == |stats| == |inShape|
    ensures PadCharge(inShape, padWidth, Statistic(mean), statLength)
         == Ok(Max(|Outputs(inShape, pads)| + TotalWork(inShape, pads, stats, mean, |inShape|), 1))
  {
    hide *;
    PadPairsIsBroadcast(padWidth, |inShape|);
    StatPairsAre(inShape, statLength, stats);
    OutputsCount(inShape, pads);
    StatCostIsWork(inShape, pads, stats, mean, |inShape|);
    StatisticFromPairs(inShape, padWidth, mean, statLength, pads, stats);
  }

  lemma StatPairsAre(inShape: Shape, statLength: Option<WidthArray>, stats: seq<Pair>)
    requires statLength.Some? ==> ValidWidths(statLength.value)
    requires StatsAre(inShape, statLength, stats)
    ensures StatPairs(inShape, statLength) == Ok(stats) && |stats| == |inShape|
  {
    if statLength.Some? {
      PadPairsIsBroadcast(statLength.value, |inShape|);
    } else {
      assert stats == DefaultStats(inShape);
    }
  }

  /** Widths that do not normalise are refused in every mode, lengths only where a statistic reads something. */
  lemma RefusedIff(inShape: Shape, padWidth: WidthArray, mode: Mode, statLength: Option<WidthArray>)
    requires ValidWidths(padWidth) && (statLength.Some? ==> ValidWidths(statLength.value))
    ensures PadCharge(inShape, padWidth, mode, statLength) == Err(CannotBroadcast)
       <==> PadPairs(padWidth, |inShape|).Err?
            || (mode.Statistic? && Size(inShape) > 0 && statLength.Some? && PadPairs(statLength.value, |inShape|).Err?)
  {
    PadPairsIsBroadcast(padWidth, |inShape|);
    if statLength.Some? { PadPairsIsBroadcast(statLength.value, |inShape|); }
  }
}
