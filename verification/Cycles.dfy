/**
 * The cycles of a permutation, fixed points included, and what they count: an axis permutation fixes
 * one cell for each way to choose an entry for every cycle.
 */
module Cycles {
  import opened FiniteSets
  import opened Permutations
  import opened RowMajor
  import opened AxisActions
  import opened BlockTuples

  /** `c` goes once round `p`. */
  ghost predicate IsCycle(p: seq<nat>, c: seq<nat>) {
    && c != [] && Inside(c, |p|)
    && (forall t, u :: 0 <= t < |c| && u == t + 1 && u < |c| ==> p[c[t]] == c[u])
    && p[c[|c| - 1]] == c[0]
  }

  /** Cycles that share out all positions. */
  ghost predicate AreCycles(p: seq<nat>, cycles: Blocks) {
    && (forall i :: 0 <= i < |cycles| ==> IsCycle(p, cycles[i]))
    && Distinct(Flat(cycles)) && forall a: nat :: a in Flat(cycles) <==> a < |p|
  }

  // ---- Finding them ----

  lemma {:induction false} FlatOfConcat(first: Blocks, second: Blocks)
    ensures Flat(first + second) == Flat(first) + Flat(second)
  {
    if first == [] {
      assert first + second == second;
    } else {
      assert (first + second)[1..] == first[1..] + second;
      FlatOfConcat(first[1..], second);
    }
  }

  lemma FlatOfOneMore(blocks: Blocks, last: seq<nat>)
    ensures Flat(blocks + [last]) == Flat(blocks) + last
  {
    FlatOfConcat(blocks, [last]);
    assert Flat([last]) == last + Flat([]);
  }

  /** A walk along `p` from `i`, about to visit `j`. */
  ghost predicate Walked(p: seq<nat>, i: nat, cycle: seq<nat>, j: nat) {
    && Inside(cycle, |p|) && Distinct(cycle) && j < |p|
    && (forall t, u :: 0 <= t < |cycle| && u == t + 1 && u < |cycle| ==> p[cycle[t]] == cycle[u])
    && if cycle == [] then j == i else cycle[0] == i && p[cycle[|cycle| - 1]] == j
  }

  /** A walk can only come back to where it started. */
  lemma WalkCloses(p: seq<nat>, i: nat, cycle: seq<nat>, j: nat)
    requires IsPermutation(p) && Walked(p, i, cycle, j) && j in cycle
    ensures j == i && IsCycle(p, cycle)
  {
    forall u | 0 < u < |cycle| ensures cycle[u] != j {
      var s := u - 1;
      assert p[cycle[s]] == cycle[u] && cycle[s] != cycle[|cycle| - 1];
    }
    var t :| 0 <= t < |cycle| && cycle[t] == j;
  }

  lemma WalkStaysOut(p: seq<nat>, i: nat, cycle: seq<nat>, j: nat, visited: set<nat>)
    requires IsPermutation(p) && Walked(p, i, cycle, j) && ForwardClosed(p, visited)
    requires i !in visited && forall a :: a in cycle ==> a !in visited
    ensures j !in visited
  {
    if cycle != [] {
      assert cycle[|cycle| - 1] in cycle;
      if j in visited { ForwardClosedIsBackwardClosed(p, visited, cycle[|cycle| - 1]); }
    }
  }

  lemma CycleIsClosed(p: seq<nat>, c: seq<nat>)
    requires IsCycle(p, c)
    ensures ForwardClosed(p, Members(c))
  {
    forall x | x in c ensures x < |p| && p[x] in c {
      var t :| 0 <= t < |c| && c[t] == x;
      var u := if t + 1 < |c| then t + 1 else 0;
      assert p[x] == c[u];
    }
  }

  lemma WalkStarts(p: seq<nat>, i: nat)
    requires i < |p|
    ensures Walked(p, i, [], i)
  {
  }

  lemma WalkGoesOn(p: seq<nat>, i: nat, cycle: seq<nat>, j: nat)
    requires IsPermutation(p) && Walked(p, i, cycle, j) && j !in cycle
    ensures j < |p| && p[j] < |p| && Walked(p, i, cycle + [j], p[j])
  {
  }

  lemma WalkIsDistinct(p: seq<nat>, i: nat, cycle: seq<nat>, j: nat)
    requires Walked(p, i, cycle, j)
    ensures Distinct(cycle) && (cycle != [] ==> cycle[0] == i && i in cycle)
  {
  }

  lemma ClosedTogether(p: seq<nat>, s: set<nat>, t: set<nat>)
    requires ForwardClosed(p, s) && ForwardClosed(p, t)
    ensures ForwardClosed(p, s + t)
  {
  }

  /** One cycle: follow the permutation until a visited position comes up. */
  method FollowCycle(p: seq<nat>, i: nat, visited: set<nat>) returns (cycle: seq<nat>, visited': set<nat>)
    requires IsPermutation(p) && i < |p| && i !in visited && ForwardClosed(p, visited)
    ensures IsCycle(p, cycle) && Distinct(cycle) && cycle[0] == i && visited' == visited + Members(cycle)
    ensures i in visited' && forall a :: a in cycle ==> a !in visited
  {
    hide IsCycle, ForwardClosed, IsPermutation, Walked;
    WalkStarts(p, i);
    cycle, visited' := [], visited;
    var j: nat := i;
    while j !in visited'
      invariant j < |p| && Walked(p, i, cycle, j)
      invariant visited' == visited + Members(cycle) && forall a :: a in cycle ==> a !in visited
      decreases Indices(|p|) - visited'
    {
      WalkGoesOn(p, i, cycle, j);
      cycle := cycle + [j];
      visited' := visited' + {j};
      j := p[j];
    }
    WalkStaysOut(p, i, cycle, j, visited);
    WalkIsDistinct(p, i, cycle, j);
    WalkCloses(p, i, cycle, j);
  }

  /** `full_cyclic_form`: every position is in exactly one cycle. */
  method FullCyclicForm(p: seq<nat>) returns (cycles: Blocks)
    requires IsPermutation(p)
    ensures AreCycles(p, cycles)
  {
    hide IsCycle, Flat, IsPermutation;
    var visited: set<nat> := {};
    cycles := [];
    NothingFlat();
    for i := 0 to |p|
      invariant forall c :: 0 <= c < |cycles| ==> IsCycle(p, cycles[c])
      invariant Distinct(Flat(cycles)) && visited == Members(Flat(cycles)) && ForwardClosed(p, visited)
      invariant forall a: nat :: a < i ==> a in visited
    {
      if i !in visited {
        ghost var before := Flat(cycles);
        var cycle;
        cycle, visited := FollowCycle(p, i, visited);
        CycleIsClosed(p, cycle);
        ClosedTogether(p, Members(before), Members(cycle));
        FlatOfOneMore(cycles, cycle);
        DistinctTogether(before, cycle);
        cycles := cycles + [cycle];
      }
    }
  }

  lemma NothingFlat()
    ensures Flat([]) == []
  {
  }

  // ---- Cells an axis permutation fixes ----

  /** Entries that `p` does not tell apart. */
  ghost predicate Unchanged(p: seq<nat>, x: seq<nat>) {
    |x| == |p| && forall a :: 0 <= a < |p| ==> p[a] < |x| && x[p[a]] == x[a]
  }

  lemma {:induction false} ConstantOnCycle(p: seq<nat>, x: seq<nat>, c: seq<nat>, t: nat)
    requires Unchanged(p, x) && IsCycle(p, c) && t < |c|
    ensures x[c[t]] == x[c[0]]
  {
    if t > 0 {
      var s := t - 1;
      ConstantOnCycle(p, x, c, s);
      assert p[c[s]] == c[t];
    }
  }

  function Leaders(cycles: Blocks): (r: seq<nat>)
    ensures |r| == |cycles|
  {
    seq(|cycles|, i requires 0 <= i < |cycles| => if cycles[i] == [] then 0 else cycles[i][0])
  }

  lemma CycleOf(p: seq<nat>, cycles: Blocks, a: nat) returns (i: nat)
    requires AreCycles(p, cycles) && a < |p|
    ensures i < |cycles| && a in cycles[i]
  {
    FlatMember(cycles, a);
    i :| 0 <= i < |cycles| && a in cycles[i];
  }

  lemma OneCycleOnly(p: seq<nat>, cycles: Blocks, i: nat, j: nat, a: nat)
    requires AreCycles(p, cycles) && i < |cycles| && j < |cycles| && a in cycles[i] && a in cycles[j]
    ensures i == j
  {
    hide Distinct, IsCycle;
    FlatIsDistinct(cycles);
  }

  /** Entries `p` does not tell apart are determined by those at the leaders. */
  lemma LeadersDetermine(p: seq<nat>, cycles: Blocks, x: seq<nat>, y: seq<nat>)
    requires AreCycles(p, cycles) && Unchanged(p, x) && Unchanged(p, y)
    requires forall i :: 0 <= i < |cycles| ==> cycles[i][0] < |p| && x[cycles[i][0]] == y[cycles[i][0]]
    ensures x == y
  {
    forall a | 0 <= a < |p| ensures x[a] == y[a] {
      var i := CycleOf(p, cycles, a);
      var t :| 0 <= t < |cycles[i]| && cycles[i][t] == a;
      ConstantOnCycle(p, x, cycles[i], t);
      ConstantOnCycle(p, y, cycles[i], t);
    }
  }

  /** Give every cycle its entry. */
  ghost function Spread(p: seq<nat>, cycles: Blocks, y: seq<nat>): (x: seq<nat>)
    requires AreCycles(p, cycles) && |y| == |cycles|
    ensures |x| == |p|
    ensures forall i, a :: 0 <= i < |cycles| && a in cycles[i] ==> a < |p| && x[a] == y[i]
  {
    var x := seq(|p|, a requires 0 <= a < |p| => EntryAt(p, cycles, y, a));
    forall i, a | 0 <= i < |cycles| && a in cycles[i] ensures a < |p| && x[a] == y[i] { FlatMember(cycles, a); }
    x
  }

  ghost function EntryAt(p: seq<nat>, cycles: Blocks, y: seq<nat>, a: nat): (e: nat)
    requires AreCycles(p, cycles) && |y| == |cycles| && a < |p|
    ensures forall i :: 0 <= i < |cycles| && a in cycles[i] ==> e == y[i]
  {
    FlatMember(cycles, a);
    var j :| 0 <= j < |cycles| && a in cycles[j];
    forall i | 0 <= i < |cycles| && a in cycles[i] ensures i == j { OneCycleOnly(p, cycles, i, j, a); }
    y[j]
  }

  lemma SpreadIsUnchanged(p: seq<nat>, cycles: Blocks, y: seq<nat>)
    requires AreCycles(p, cycles) && |y| == |cycles|
    ensures Unchanged(p, Spread(p, cycles, y))
  {
    var x := Spread(p, cycles, y);
    forall a | 0 <= a < |p| ensures p[a] < |x| && x[p[a]] == x[a] {
      var i := CycleOf(p, cycles, a);
      CycleIsClosed(p, cycles[i]);
      assert a in Members(cycles[i]) && p[a] in cycles[i];
    }
  }

  ghost function FixedCells(shape: Shape, perm: seq<nat>): (cells: set<nat>)
    requires KeepsShape(shape, perm)
    ensures Below(cells, Size(shape))
  {
    set k | k in Indices(Size(shape)) && FlatImage(shape, perm)[k] == k
  }

  lemma FixedIffUnchanged(shape: Shape, perm: seq<nat>, k: nat)
    requires KeepsShape(shape, perm) && k < Size(shape)
    ensures k in FixedCells(shape, perm) <==> Unchanged(perm, Decode(shape, k))
  {
    var x, y := Decode(shape, k), Decode(shape, FlatImage(shape, perm)[k]);
    FlatImageIndex(shape, perm, k);
    if Unchanged(perm, x) {
      assert Rearrange(x, perm) == x;
      RearrangeCancels(x, y, perm);
      EncodeDecode(shape, k);
      EncodeDecode(shape, FlatImage(shape, perm)[k]);
    }
    if k in FixedCells(shape, perm) {
      forall a | 0 <= a < |perm| ensures x[perm[a]] == x[a] { assert Rearrange(x, perm)[a] == x[a]; }
    }
  }

  lemma LeadersInside(shape: Shape, perm: seq<nat>, cycles: Blocks)
    requires KeepsShape(shape, perm) && AreCycles(perm, cycles)
    ensures Inside(Leaders(cycles), |shape|)
  {
  }

  /** Where the entries at the leaders of a fixed cell's index stand among all such choices. */
  ghost function LeaderCode(shape: Shape, leaders: seq<nat>, k: nat): nat
    requires Inside(leaders, |shape|)
  {
    if k < Size(shape) then Encode(Rearrange(shape, leaders), Rearrange(Decode(shape, k), leaders)) else 0
  }

  lemma LeaderCodeDecodes(shape: Shape, leaders: seq<nat>, k: nat)
    requires Inside(leaders, |shape|) && k < Size(shape)
    ensures var inner := Rearrange(shape, leaders);
            && LeaderCode(shape, leaders, k) < Size(inner)
            && Decode(inner, LeaderCode(shape, leaders, k)) == Rearrange(Decode(shape, k), leaders)
  {
    var inner, y := Rearrange(shape, leaders), Rearrange(Decode(shape, k), leaders);
    DecodeInBounds(shape, k);
    assert InBounds(inner, y);
    DecodeEncode(inner, y);
  }

  lemma LeaderCodesDiffer(shape: Shape, perm: seq<nat>, cycles: Blocks, j: nat, k: nat)
    requires KeepsShape(shape, perm) && AreCycles(perm, cycles) && Inside(Leaders(cycles), |shape|)
    requires j in FixedCells(shape, perm) && k in FixedCells(shape, perm)
    requires LeaderCode(shape, Leaders(cycles), j) == LeaderCode(shape, Leaders(cycles), k)
    ensures j == k
  {
    hide KeepsShape, Decode, LeaderCode, FlatImage;
    var leaders, x, y := Leaders(cycles), Decode(shape, j), Decode(shape, k);
    FixedIffUnchanged(shape, perm, j);
    FixedIffUnchanged(shape, perm, k);
    LeaderCodeDecodes(shape, leaders, j);
    LeaderCodeDecodes(shape, leaders, k);
    forall i | 0 <= i < |cycles| ensures x[cycles[i][0]] == y[cycles[i][0]] {
      assert Rearrange(x, leaders)[i] == Rearrange(y, leaders)[i];
    }
    LeadersDetermine(perm, cycles, x, y);
    EncodeDecode(shape, j);
    EncodeDecode(shape, k);
  }

  lemma LeaderCodeIsReached(shape: Shape, perm: seq<nat>, cycles: Blocks, m: nat) returns (k: nat)
    requires KeepsShape(shape, perm) && AreCycles(perm, cycles) && Inside(Leaders(cycles), |shape|)
    requires m < Size(Rearrange(shape, Leaders(cycles)))
    ensures k in FixedCells(shape, perm) && LeaderCode(shape, Leaders(cycles), k) == m
  {
    var leaders := Leaders(cycles);
    var inner := Rearrange(shape, leaders);
    var y := Decode(inner, m);
    var x := Spread(perm, cycles, y);
    SpreadIsUnchanged(perm, cycles, y);
    DecodeInBounds(inner, m);
    ShapeIsUnchanged(shape, perm);
    SpreadInBounds(shape, perm, cycles, y);
    k := Encode(shape, x);
    hide KeepsShape, Decode, Encode, FlatImage, Spread;
    DecodeEncode(shape, x);
    FixedIffUnchanged(shape, perm, k);
    SpreadAtLeaders(perm, cycles, y);
    EncodeDecode(inner, m);
  }

  lemma ShapeIsUnchanged(shape: Shape, perm: seq<nat>)
    requires KeepsShape(shape, perm)
    ensures Unchanged(perm, shape)
  {
    forall a | 0 <= a < |perm| ensures shape[perm[a]] == shape[a] { assert Rearrange(shape, perm)[a] == shape[a]; }
  }

  lemma SpreadAtLeaders(p: seq<nat>, cycles: Blocks, y: seq<nat>)
    requires AreCycles(p, cycles) && |y| == |cycles| && Inside(Leaders(cycles), |p|)
    ensures Rearrange(Spread(p, cycles, y), Leaders(cycles)) == y
  {
    forall i | 0 <= i < |cycles| ensures Spread(p, cycles, y)[Leaders(cycles)[i]] == y[i] {
      assert cycles[i][0] in cycles[i];
    }
  }

  lemma SpreadInBounds(shape: Shape, p: seq<nat>, cycles: Blocks, y: seq<nat>)
    requires AreCycles(p, cycles) && Unchanged(p, shape) && Inside(Leaders(cycles), |shape|)
    requires InBounds(Rearrange(shape, Leaders(cycles)), y)
    ensures InBounds(shape, Spread(p, cycles, y))
  {
    forall a | 0 <= a < |shape| ensures Spread(p, cycles, y)[a] < shape[a] {
      var i := CycleOf(p, cycles, a);
      var t :| 0 <= t < |cycles[i]| && cycles[i][t] == a;
      ConstantOnCycle(p, shape, cycles[i], t);
      assert Rearrange(shape, Leaders(cycles))[i] == shape[a];
    }
  }

  /** An axis permutation fixes as many cells as there are choices of an entry for every cycle. */
  lemma FixedCellCount(shape: Shape, perm: seq<nat>, cycles: Blocks)
    requires KeepsShape(shape, perm) && AreCycles(perm, cycles)
    ensures Inside(Leaders(cycles), |shape|)
    ensures |FixedCells(shape, perm)| == Size(Rearrange(shape, Leaders(cycles)))
  {
    hide KeepsShape, AreCycles, FixedCells, LeaderCode, Leaders, Size, Decode, Encode;
    LeadersInside(shape, perm, cycles);
    var leaders := Leaders(cycles);
    var cells, codes := FixedCells(shape, perm), Indices(Size(Rearrange(shape, leaders)));
    var f := (k: nat) => LeaderCode(shape, leaders, k);
    forall k | k in cells ensures f(k) in codes { LeaderCodeDecodes(shape, leaders, k); }
    forall m | m in codes ensures exists k :: k in cells && f(k) == m {
      var k := LeaderCodeIsReached(shape, perm, cycles, m);
      assert k in cells && f(k) == m;
    }
    assert InjectiveOn(f, cells) by {
      forall j, k {:trigger f(j), f(k)} | j in cells && k in cells && f(j) == f(k) ensures j == k {
        LeaderCodesDiffer(shape, perm, cycles, j, k);
      }
    }
    ImageCardinality(f, cells, codes);
  }
}
