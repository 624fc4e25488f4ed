/**
 * What a symmetric tensor is billed for: the average number of cells a group element fixes, times the
 * extents of the other axes. It is the number of representatives the orbit map leaves.
 */
module UniqueElements {
  import opened Arithmetic
  import opened FiniteSets
  import opened Permutations
  import opened Orbits
  import opened RowMajor
  import opened AxisActions
  import opened SymmetryGroups
  import opened CanonicalMap
  import opened Representatives
  import opened BlockTuples
  import opened GroupElements
  import opened Cycles

  // ---- Counting a relation by rows and by columns ----

  ghost function InRow<T>(rel: (T, nat) -> bool, a: T, n: nat): (s: set<nat>)
    ensures forall k: nat :: k in s <==> k < n && rel(a, k)
  {
    set k | k in Indices(n) && rel(a, k)
  }

  ghost function InColumn<T(!new)>(rel: (T, nat) -> bool, rows: seq<T>, k: nat): (s: set<T>)
    ensures forall a :: a in s <==> a in rows && rel(a, k)
  {
    set a | a in rows && rel(a, k)
  }

  ghost function RowSum<T>(rel: (T, nat) -> bool, rows: seq<T>, n: nat): nat {
    if rows == [] then 0
    else RowSum(rel, rows[..|rows| - 1], n) + |InRow(rel, rows[|rows| - 1], n)|
  }

  ghost function ColumnSum<T(!new)>(rel: (T, nat) -> bool, rows: seq<T>, n: nat): nat {
    if n == 0 then 0 else ColumnSum(rel, rows, n - 1) + |InColumn(rel, rows, n - 1)|
  }

  lemma ColumnOfOneMore<T(!new)>(rel: (T, nat) -> bool, rows: seq<T>, a: T, k: nat)
    requires a !in rows
    ensures |InColumn(rel, rows + [a], k)| == |InColumn(rel, rows, k)| + (if rel(a, k) then 1 else 0)
  {
    var before, after := InColumn(rel, rows, k), InColumn(rel, rows + [a], k);
    if rel(a, k) {
      assert after == before + {a};
    } else {
      assert after == before;
    }
  }

  lemma RowOfOneMore<T>(rel: (T, nat) -> bool, a: T, n: nat)
    requires n > 0
    ensures |InRow(rel, a, n)| == |InRow(rel, a, n - 1)| + (if rel(a, n - 1) then 1 else 0)
  {
    var before, after := InRow(rel, a, n - 1), InRow(rel, a, n);
    if rel(a, n - 1) {
      assert after == before + {n - 1};
    } else {
      assert after == before;
    }
  }

  lemma {:induction false} ColumnsOfOneMore<T(!new)>(rel: (T, nat) -> bool, rows: seq<T>, a: T, n: nat)
    requires a !in rows
    ensures ColumnSum(rel, rows + [a], n) == ColumnSum(rel, rows, n) + |InRow(rel, a, n)|
  {
    if n == 0 {
      assert InRow(rel, a, 0) == {};
    } else {
      hide InRow, InColumn;
      ColumnsOfOneMore(rel, rows, a, n - 1);
      ColumnOfOneMore(rel, rows, a, n - 1);
      RowOfOneMore(rel, a, n);
    }
  }

  /** Counted by rows or by columns, a relation has as many pairs. */
  lemma {:induction false} RowsAreColumns<T(!new)>(rel: (T, nat) -> bool, rows: seq<T>, n: nat)
    requires Distinct(rows)
    ensures RowSum(rel, rows, n) == ColumnSum(rel, rows, n)
  {
    if rows == [] {
      NoColumns(rel, n);
    } else {
      var init, last := rows[..|rows| - 1], rows[|rows| - 1];
      assert rows == init + [last];
      RowsAreColumns(rel, init, n);
      ColumnsOfOneMore(rel, init, last, n);
    }
  }

  lemma {:induction false} NoColumns<T(!new)>(rel: (T, nat) -> bool, n: nat)
    ensures ColumnSum(rel, [], n) == 0
  {
    if n > 0 {
      NoColumns(rel, n - 1);
      assert InColumn(rel, [], n - 1) == {};
    }
  }

  lemma {:induction false} SameColumns<T(!new)>(rel: (T, nat) -> bool, other: (T, nat) -> bool, rows: seq<T>, n: nat)
    requires forall k :: 0 <= k < n ==> |InColumn(rel, rows, k)| == |InColumn(other, rows, k)|
    ensures ColumnSum(rel, rows, n) == ColumnSum(other, rows, n)
  {
    if n > 0 { SameColumns(rel, other, rows, n - 1); }
  }

  lemma {:induction false} EvenRows<T>(rel: (T, nat) -> bool, rows: seq<T>, n: nat, m: nat)
    requires forall i :: 0 <= i < |rows| ==> |InRow(rel, rows[i], n)| == m
    ensures RowSum(rel, rows, n) == |rows| * m
  {
    if rows != [] {
      var init := rows[..|rows| - 1];
      EvenRows(rel, init, n, m);
      OneMore(|init|, m);
    }
  }

  // ---- Elements and the cells they move ----

  /** The group element `form` carries position `i` to `k`. */
  ghost predicate Carries(shape: Shape, axes: seq<nat>, form: Form, i: nat, k: nat) {
    ValidForm(shape, axes, form) && i < Size(shape) && FormImage(shape, axes, form)[i] == k
  }

  /** `h` first, then `g`. */
  lemma CarriesFurther(shape: Shape, axes: seq<nat>, g: Form, h: Form, i: nat, j: nat, k: nat)
    requires Carries(shape, axes, h, i, j) && Carries(shape, axes, g, j, k)
    ensures Carries(shape, axes, Compose(g, h), i, k)
  {
    FormImageComposes(shape, axes, g, h, i);
  }

  ghost function Fixing(shape: Shape, axes: seq<nat>): (Form, nat) -> bool {
    (g: Form, k: nat) => Carries(shape, axes, g, k, k)
  }

  /** `g` carries the representative of `k` to `k`. */
  ghost function FromRepresentative(shape: Shape, action: Action): (Form, nat) -> bool
    requires ValidAction(shape, action)
  {
    var labels := OrbitMap(shape, action);
    (g: Form, k: nat) => k < |labels| && Carries(shape, action.axes, g, labels[k], k)
  }

  /** Composing with an element that carries `j` to `i` takes what carries `i` to `k` to what carries `j` to `k`. */
  lemma CarryingFrom(shape: Shape, action: Action, elements: seq<Form>, rel: (Form, nat) -> bool,
                     other: (Form, nat) -> bool, h: Form, i: nat, j: nat, k: nat)
    requires ValidAction(shape, action) && ListsGroup(shape, action, elements)
    requires InGroup(shape, action, h) && Carries(shape, action.axes, h, j, i)
    requires forall g :: rel(g, k) <==> Carries(shape, action.axes, g, i, k)
    requires forall g :: other(g, k) <==> Carries(shape, action.axes, g, j, k)
    ensures |InColumn(rel, elements, k)| <= |InColumn(other, elements, k)|
  {
    hide Carries, ValidAction, InGroup;
    var s, t := InColumn(rel, elements, k), InColumn(other, elements, k);
    forall g | g in s ensures TimesRight(h)(g) in t {
      ProductInGroup(shape, action, g, h);
      CarriesFurther(shape, action.axes, g, h, j, i, k);
    }
    forall g | g in s ensures |g| == action.degree && IsPermutation(g) { ProductInGroup(shape, action, g, h); }
    ProductInGroup(shape, action, h, h);
    TimesRightIsInjective(s, action.degree, h);
    InjectionCardinality(TimesRight(h), s, t);
  }

  lemma ElementBetween(shape: Shape, action: Action, i: nat, j: nat) returns (h: Form)
    requires ValidAction(shape, action) && i < Size(shape) && Related(shape, action, i, j)
    ensures InGroup(shape, action, h) && Carries(shape, action.axes, h, i, j)
  {
    h :| InGroup(shape, action, h) && ValidForm(shape, action.axes, h) && FormImage(shape, action.axes, h)[i] == j;
  }

  /** As many elements fix a position as carry its representative to it. */
  lemma StabilisersAreTransporters(shape: Shape, action: Action, elements: seq<Form>, k: nat)
    requires ValidAction(shape, action) && ListsGroup(shape, action, elements) && k < Size(shape)
    ensures |InColumn(Fixing(shape, action.axes), elements, k)|
         == |InColumn(FromRepresentative(shape, action), elements, k)|
  {
    hide Carries, ValidAction, InGroup, OrbitMap, ListsGroup, Related;
    var i, fixing, from := OrbitMap(shape, action)[k], Fixing(shape, action.axes), FromRepresentative(shape, action);
    OrbitMapIsCanonical(shape, action, k, i);
    OrbitMapIsCanonical(shape, action, i, k);
    var there := ElementBetween(shape, action, k, i);
    var back := ElementBetween(shape, action, i, k);
    CarryingFrom(shape, action, elements, fixing, from, back, k, i, k);
    CarryingFrom(shape, action, elements, from, fixing, there, i, k, k);
  }

  /** Each element carries exactly one representative to each of as many positions. */
  lemma CarriedRepresentatives(shape: Shape, action: Action, g: Form)
    requires ValidAction(shape, action) && InGroup(shape, action, g)
    ensures |InRow(FromRepresentative(shape, action), g, Size(shape))| == |RepresentativesOf(shape, action)|
  {
    GroupFormIsValid(shape, action, g);
    hide ValidAction, InGroup, OrbitMap, FormImage, ValidForm, RepresentativesOf, Carries, IsPermutation;
    var labels, image, n := OrbitMap(shape, action), FormImage(shape, action.axes, g), Size(shape);
    var reps, reached := RepresentativesOf(shape, action), InRow(FromRepresentative(shape, action), g, n);
    var f := (i: nat) => if i < n then image[i] else 0;
    forall i | i in reps ensures f(i) in reached { LabelOfImage(shape, action, g, i); }
    forall k | k in reached ensures exists i :: i in reps && f(i) == k {
      LabelsAreOwn(shape, action, k);
      assert labels[k] in reps && f(labels[k]) == k;
    }
    ImageCardinality(f, reps, reached);
  }

  lemma LabelOfImage(shape: Shape, action: Action, g: Form, i: nat)
    requires ValidAction(shape, action) && InGroup(shape, action, g) && i in RepresentativesOf(shape, action)
    ensures ValidForm(shape, action.axes, g) && i < Size(shape)
    ensures FormImage(shape, action.axes, g)[i] < Size(shape)
    ensures OrbitMap(shape, action)[FormImage(shape, action.axes, g)[i]] == i
  {
    GroupFormIsValid(shape, action, g);
    var k := FormImage(shape, action.axes, g)[i];
    assert Related(shape, action, i, k);
    OrbitMapIsCanonical(shape, action, i, k);
  }

  lemma LabelsAreOwn(shape: Shape, action: Action, k: nat)
    requires ValidAction(shape, action) && k < Size(shape)
    ensures OrbitMap(shape, action)[k] in RepresentativesOf(shape, action)
  {
    OrbitMapIsCanonical(shape, action, k, k);
  }

  /** Burnside: over all elements, the fixed cells add up to the representatives, once for each element. */
  lemma FixedCellsAddUp(shape: Shape, action: Action, elements: seq<Form>)
    requires ValidAction(shape, action) && ListsGroup(shape, action, elements)
    ensures RowSum(Fixing(shape, action.axes), elements, Size(shape))
         == |elements| * |RepresentativesOf(shape, action)|
  {
    hide ValidAction, InGroup, OrbitMap, Fixing, FromRepresentative, InRow, InColumn, RepresentativesOf;
    var n, fixing, from := Size(shape), Fixing(shape, action.axes), FromRepresentative(shape, action);
    RowsAreColumns(fixing, elements, n);
    RowsAreColumns(from, elements, n);
    forall k | 0 <= k < n ensures |InColumn(fixing, elements, k)| == |InColumn(from, elements, k)| {
      StabilisersAreTransporters(shape, action, elements, k);
    }
    SameColumns(fixing, from, elements, n);
    forall i | 0 <= i < |elements| ensures |InRow(from, elements[i], n)| == |RepresentativesOf(shape, action)| {
      CarriedRepresentatives(shape, action, elements[i]);
    }
    EvenRows(from, elements, n, |RepresentativesOf(shape, action)|);
  }

  // ---- Fixed cells of a tensor whose other axes stand still ----

  lemma {:induction false} SizeOfConcat(s: Shape, t: Shape)
    ensures Size(s + t) == Size(s) * Size(t)
  {
    if s == [] {
      assert s + t == t;
    } else {
      assert (s + t)[1..] == s[1..] + t;
      SizeOfConcat(s[1..], t);
      Associate(s[0], Size(s[1..]), Size(t));
    }
  }

  lemma SizeOfOneMore(s: Shape, e: nat)
    ensures Size(s + [e]) == Size(s) * e
  {
    SizeOfConcat(s, [e]);
    assert Size([e]) == e * Size([]);
  }

  /** The cycles of a form, on the tensor axes it acts on. */
  ghost function Lifted(axes: seq<nat>, cycles: Blocks): (r: Blocks)
    ensures |r| == |cycles|
  {
    seq(|cycles|, i requires 0 <= i < |cycles| => LiftedCycle(axes, cycles[i]))
  }

  ghost function LiftedCycle(axes: seq<nat>, c: seq<nat>): (r: seq<nat>)
    ensures |r| == |c|
  {
    seq(|c|, t requires 0 <= t < |c| => if c[t] < |axes| then axes[c[t]] else 0)
  }

  lemma LiftedStep(shape: Shape, axes: seq<nat>, form: Form, i: nat)
    requires ValidForm(shape, axes, form) && i < |axes|
    ensures axes[i] < |shape| && form[i] < |axes|
    ensures AxisPermutation(|shape|, axes, form)[axes[i]] == axes[form[i]]
  {
    AxisPermutationAt(shape, axes, form, i);
  }

  lemma LiftedIsCycle(shape: Shape, axes: seq<nat>, form: Form, c: seq<nat>)
    requires ValidForm(shape, axes, form) && IsCycle(form, c)
    ensures IsCycle(AxisPermutation(|shape|, axes, form), LiftedCycle(axes, c))
  {
    assert |form| == |axes|;
    hide ValidForm, AxisPermutation;
    var perm, lifted := AxisPermutation(|shape|, axes, form), LiftedCycle(axes, c);
    forall t | 0 <= t < |c|
      ensures lifted[t] < |perm| && form[c[t]] < |axes| && perm[lifted[t]] == axes[form[c[t]]]
    {
      LiftedStep(shape, axes, form, c[t]);
    }
  }

  lemma SingleIsCycle(shape: Shape, axes: seq<nat>, form: Form, a: nat)
    requires ValidForm(shape, axes, form) && a < |shape| && a !in axes
    ensures IsCycle(AxisPermutation(|shape|, axes, form), [a])
  {
  }

  lemma {:induction false} FlatOfLifted(axes: seq<nat>, cycles: Blocks)
    ensures Flat(Lifted(axes, cycles)) == LiftedCycle(axes, Flat(cycles))
  {
    if cycles != [] {
      FlatOfLifted(axes, cycles[1..]);
      assert Lifted(axes, cycles)[1..] == Lifted(axes, cycles[1..]);
      assert LiftedCycle(axes, Flat(cycles)) == LiftedCycle(axes, cycles[0]) + LiftedCycle(axes, Flat(cycles[1..]));
    }
  }

  lemma {:induction false} FlatOfSingles(axes: seq<nat>)
    ensures Flat(Singles(axes)) == axes
  {
    if axes != [] {
      FlatOfSingles(axes[1..]);
      assert Singles(axes)[1..] == Singles(axes[1..]);
    }
  }

  /** The axes the group does not act on. */
  ghost function OtherAxes(rank: nat, axes: seq<nat>): (others: seq<nat>)
    ensures Ascending(others) && Inside(others, rank)
    ensures forall a: nat :: a in others <==> a < rank && a !in axes
  {
    assert Flat([axes]) == axes + Flat([]);
    Unmoved(rank, [axes])
  }

  /** The entries of a tensor index on those axes. */
  ghost function OtherCells(shape: Shape, axes: seq<nat>): nat { Size(Rearrange(shape, OtherAxes(|shape|, axes))) }

  ghost function TensorCycles(rank: nat, axes: seq<nat>, cycles: Blocks): Blocks {
    Lifted(axes, cycles) + Singles(OtherAxes(rank, axes))
  }

  lemma FlatOfTensorCycles(rank: nat, axes: seq<nat>, cycles: Blocks)
    ensures Flat(TensorCycles(rank, axes, cycles)) == LiftedCycle(axes, Flat(cycles)) + OtherAxes(rank, axes)
  {
    FlatOfConcat(Lifted(axes, cycles), Singles(OtherAxes(rank, axes)));
    FlatOfLifted(axes, cycles);
    FlatOfSingles(OtherAxes(rank, axes));
  }

  lemma LiftedMembers(axes: seq<nat>, flat: seq<nat>)
    requires Distinct(axes) && Distinct(flat) && forall i: nat :: i in flat <==> i < |axes|
    ensures Distinct(LiftedCycle(axes, flat)) && forall a :: a in LiftedCycle(axes, flat) <==> a in axes
  {
    var lifted := LiftedCycle(axes, flat);
    forall t | 0 <= t < |flat| ensures flat[t] < |axes| && lifted[t] == axes[flat[t]] { assert flat[t] in flat; }
    forall a | a in axes ensures a in lifted {
      var i: nat :| i < |axes| && axes[i] == a;
      assert i in flat;
      var t :| 0 <= t < |flat| && flat[t] == i;
      assert lifted[t] == a;
    }
  }

  lemma TensorCyclesShareAxes(rank: nat, axes: seq<nat>, form: Form, cycles: Blocks)
    requires Distinct(axes) && (forall i :: 0 <= i < |axes| ==> axes[i] < rank)
    requires |form| == |axes| && AreCycles(form, cycles)
    ensures var flat := Flat(TensorCycles(rank, axes, cycles));
            Distinct(flat) && forall a: nat :: a in flat <==> a < rank
  {
    var lifted, others := LiftedCycle(axes, Flat(cycles)), OtherAxes(rank, axes);
    LiftedMembers(axes, Flat(cycles));
    FlatOfTensorCycles(rank, axes, cycles);
    AscendingIsDistinct(others);
    hide AreCycles, TensorCycles, LiftedCycle, OtherAxes, Flat, Inside, Ascending;
    DistinctTogether(lifted, others);
  }

  lemma TensorCycleAt(rank: nat, axes: seq<nat>, cycles: Blocks, i: nat)
    requires i < |TensorCycles(rank, axes, cycles)|
    ensures i < |cycles| ==> TensorCycles(rank, axes, cycles)[i] == LiftedCycle(axes, cycles[i])
    ensures i >= |cycles| ==>
              exists a: nat :: a < rank && a !in axes && TensorCycles(rank, axes, cycles)[i] == [a]
  {
    var others := OtherAxes(rank, axes);
    hide LiftedCycle, OtherAxes, Inside, Ascending;
    if i >= |cycles| { assert others[i - |cycles|] in others; }
  }

  lemma TensorCyclesGoRound(shape: Shape, axes: seq<nat>, form: Form, cycles: Blocks, i: nat)
    requires ValidForm(shape, axes, form) && i < |TensorCycles(|shape|, axes, cycles)|
    requires forall t :: 0 <= t < |cycles| ==> IsCycle(form, cycles[t])
    ensures IsCycle(AxisPermutation(|shape|, axes, form), TensorCycles(|shape|, axes, cycles)[i])
  {
    hide IsCycle, AxisPermutation, ValidForm, Inside, TensorCycles;
    TensorCycleAt(|shape|, axes, cycles, i);
    if i < |cycles| {
      LiftedIsCycle(shape, axes, form, cycles[i]);
    } else {
      var a: nat :| a < |shape| && a !in axes && TensorCycles(|shape|, axes, cycles)[i] == [a];
      SingleIsCycle(shape, axes, form, a);
    }
  }

  lemma TensorCyclesAreCycles(shape: Shape, axes: seq<nat>, form: Form, cycles: Blocks)
    requires ValidForm(shape, axes, form) && AreCycles(form, cycles)
    ensures AreCycles(AxisPermutation(|shape|, axes, form), TensorCycles(|shape|, axes, cycles))
  {
    var perm, all := AxisPermutation(|shape|, axes, form), TensorCycles(|shape|, axes, cycles);
    TensorCyclesShareAxes(|shape|, axes, form, cycles);
    EachIsCycle(form, cycles);
    forall i | 0 <= i < |all| ensures IsCycle(perm, all[i]) {
      hide *;
      TensorCyclesGoRound(shape, axes, form, cycles, i);
    }
    hide IsCycle, Distinct, Flat, TensorCycles, AxisPermutation, ValidForm;
  }

  lemma EachIsCycle(p: seq<nat>, cycles: Blocks)
    requires AreCycles(p, cycles)
    ensures forall i :: 0 <= i < |cycles| ==> IsCycle(p, cycles[i])
  {
    hide IsCycle, Distinct, Flat;
  }

  lemma FormKeepsSizes(shape: Shape, axes: seq<nat>, form: Form)
    requires ValidForm(shape, axes, form)
    ensures KeepsShape(Rearrange(shape, axes), form)
  {
    var sizes := Rearrange(shape, axes);
    assert Rearrange(sizes, form) == sizes;
  }

  lemma LeadersOfConcat(first: Blocks, second: Blocks)
    ensures Leaders(first + second) == Leaders(first) + Leaders(second)
  {
  }

  lemma LeadersOfLifted(axes: seq<nat>, cycles: Blocks)
    requires Inside(Leaders(cycles), |axes|) && forall i :: 0 <= i < |cycles| ==> cycles[i] != []
    ensures Leaders(Lifted(axes, cycles)) == Rearrange(axes, Leaders(cycles))
  {
  }

  lemma LeadersOfSingles(axes: seq<nat>)
    ensures Leaders(Singles(axes)) == axes
  {
  }

  lemma TensorLeadersSplit(rank: nat, axes: seq<nat>, cycles: Blocks)
    requires Inside(Leaders(cycles), |axes|) && forall i :: 0 <= i < |cycles| ==> cycles[i] != []
    ensures Leaders(TensorCycles(rank, axes, cycles)) == Rearrange(axes, Leaders(cycles)) + OtherAxes(rank, axes)
  {
    hide Leaders, OtherAxes, Ascending, Lifted, Singles;
    LeadersOfConcat(Lifted(axes, cycles), Singles(OtherAxes(rank, axes)));
    LeadersOfLifted(axes, cycles);
    LeadersOfSingles(OtherAxes(rank, axes));
  }

  lemma RearrangeParts(x: seq<nat>, s: seq<nat>, t: seq<nat>)
    requires Inside(s + t, |x|)
    ensures Inside(s, |x|) && Inside(t, |x|) && Rearrange(x, s + t) == Rearrange(x, s) + Rearrange(x, t)
  {
    InsideParts(s, t, |x|);
  }

  lemma RearrangeAlong(x: seq<nat>, p: seq<nat>, q: seq<nat>)
    requires Inside(p, |x|) && Inside(q, |p|)
    ensures Inside(Rearrange(p, q), |x|) && Rearrange(Rearrange(x, p), q) == Rearrange(x, Rearrange(p, q))
  {
  }

  lemma TensorLeaders(shape: Shape, axes: seq<nat>, cycles: Blocks)
    requires Inside(axes, |shape|) && forall i :: 0 <= i < |cycles| ==> cycles[i] != []
    requires Inside(Leaders(cycles), |axes|) && Inside(Leaders(TensorCycles(|shape|, axes, cycles)), |shape|)
    ensures Rearrange(shape, Leaders(TensorCycles(|shape|, axes, cycles)))
         == Rearrange(Rearrange(shape, axes), Leaders(cycles)) + Rearrange(shape, OtherAxes(|shape|, axes))
  {
    hide Leaders, TensorCycles, OtherAxes, Ascending;
    TensorLeadersSplit(|shape|, axes, cycles);
    RearrangeParts(shape, Rearrange(axes, Leaders(cycles)), OtherAxes(|shape|, axes));
    RearrangeAlong(shape, axes, Leaders(cycles));
  }

  lemma CyclesAreNotEmpty(p: seq<nat>, cycles: Blocks)
    requires AreCycles(p, cycles)
    ensures forall i :: 0 <= i < |cycles| ==> cycles[i] != []
  {
    hide Distinct, Flat;
    forall i | 0 <= i < |cycles| ensures cycles[i] != [] { assert IsCycle(p, cycles[i]); }
  }

  /** An element fixes the cells it would fix on its own axes, once for each entry of the other ones. */
  lemma TensorFixedCells(shape: Shape, axes: seq<nat>, form: Form, cycles: Blocks)
    requires ValidForm(shape, axes, form) && AreCycles(form, cycles)
    ensures KeepsShape(Rearrange(shape, axes), form) && KeepsShape(shape, AxisPermutation(|shape|, axes, form))
    ensures |FixedCells(shape, AxisPermutation(|shape|, axes, form))|
         == |FixedCells(Rearrange(shape, axes), form)| * OtherCells(shape, axes)
  {
    FormKeepsSizes(shape, axes, form);
    AxisPermutationKeepsShape(shape, axes, form);
    TensorCyclesAreCycles(shape, axes, form, cycles);
    CyclesAreNotEmpty(form, cycles);
    assert Inside(axes, |shape|);
    hide AreCycles, KeepsShape, FixedCells, AxisPermutation, TensorCycles, Leaders, Size, Inside;
    var sizes, all := Rearrange(shape, axes), TensorCycles(|shape|, axes, cycles);
    FixedCellCount(sizes, form, cycles);
    FixedCellCount(shape, AxisPermutation(|shape|, axes, form), all);
    TensorLeaders(shape, axes, cycles);
    SizeOfConcat(Rearrange(sizes, Leaders(cycles)), Rearrange(shape, OtherAxes(|shape|, axes)));
  }

  // ---- The group on its own axes ----

  function LocalAction(action: Action): Action { Action(Identity(action.degree), action.degree, action.forms) }

  lemma LocalIsValid(shape: Shape, action: Action)
    requires ValidAction(shape, action)
    ensures ValidAction(Rearrange(shape, action.axes), LocalAction(action))
  {
    var sizes := Rearrange(shape, action.axes);
    forall g | 0 <= g < |action.forms| ensures ValidForm(sizes, Identity(action.degree), action.forms[g]) {
      assert ValidForm(shape, action.axes, action.forms[g]);
    }
  }

  lemma {:induction false} SameWordForm(shape: Shape, action: Action, other: Shape, local: Action, w: Word)
    requires ValidAction(shape, action) && ValidAction(other, local)
    requires action.forms == local.forms && action.degree == local.degree && ValidWord(|action.forms|, w)
    ensures WordForm(shape, action, w) == WordForm(other, local, w)
    decreases |w|
  {
    hide ValidAction, ValidForm;
    if w != [] { SameWordForm(shape, action, other, local, w[1..]); }
  }

  /** The elements do not depend on the axes. */
  lemma SameElements(shape: Shape, action: Action, other: Shape, local: Action, form: Form)
    requires ValidAction(shape, action) && ValidAction(other, local)
    requires action.forms == local.forms && action.degree == local.degree
    requires InGroup(shape, action, form)
    ensures InGroup(other, local, form)
  {
    hide ValidAction, WordForm;
    var w :| ValidWord(|action.forms|, w) && WordForm(shape, action, w) == form;
    SameWordForm(shape, action, other, local, w);
  }

  lemma LocalListsGroup(shape: Shape, action: Action, elements: seq<Form>)
    requires ValidAction(shape, action) && ListsGroup(shape, action, elements)
    ensures ValidAction(Rearrange(shape, action.axes), LocalAction(action))
    ensures ListsGroup(Rearrange(shape, action.axes), LocalAction(action), elements)
  {
    LocalIsValid(shape, action);
    hide ValidAction, InGroup, Distinct;
    var sizes, local := Rearrange(shape, action.axes), LocalAction(action);
    forall form ensures form in elements <==> InGroup(sizes, local, form) {
      if InGroup(shape, action, form) { SameElements(shape, action, sizes, local, form); }
      if InGroup(sizes, local, form) { SameElements(sizes, local, shape, action, form); }
    }
  }

  // ---- The count ----

  /** The product over the cycles: one factor for each, read at its first position. */
  method LeaderProduct(sizes: seq<nat>, cycles: Blocks) returns (product: nat)
    requires Inside(Leaders(cycles), |sizes|) && forall i :: 0 <= i < |cycles| ==> cycles[i] != []
    ensures product == Size(Rearrange(sizes, Leaders(cycles)))
  {
    hide Size;
    product := 1;
    ghost var extents := Rearrange(sizes, Leaders(cycles));
    NoExtents();
    for i := 0 to |cycles|
      invariant product == Size(extents[..i])
    {
      assert Leaders(cycles)[i] == cycles[i][0];
      assert extents[..i + 1] == extents[..i] + [sizes[cycles[i][0]]];
      SizeOfOneMore(extents[..i], sizes[cycles[i][0]]);
      product := product * sizes[cycles[i][0]];
    }
    assert extents[..|cycles|] == extents;
  }

  lemma NoExtents()
    ensures Size([]) == 1
  {
  }

  /** The cells an element fixes, on its own axes and in the whole tensor. */
  method FixedAssignments(ghost shape: Shape, ghost axes: seq<nat>, sizes: seq<nat>, form: Form) returns (fixed: nat)
    requires ValidForm(shape, axes, form) && sizes == Rearrange(shape, axes)
    ensures KeepsShape(sizes, form) && KeepsShape(shape, AxisPermutation(|shape|, axes, form))
    ensures fixed == |FixedCells(sizes, form)|
    ensures |FixedCells(shape, AxisPermutation(|shape|, axes, form))|
         == fixed * OtherCells(shape, axes)
  {
    FormKeepsSizes(shape, axes, form);
    var cycles := FullCyclicForm(form);
    hide AreCycles, KeepsShape, FixedCells, AxisPermutation, Leaders, Size, OtherAxes;
    LeadersInside(sizes, form, cycles);
    CyclesAreNotEmpty(form, cycles);
    fixed := LeaderProduct(sizes, cycles);
    FixedCellCount(sizes, form, cycles);
    TensorFixedCells(shape, axes, form, cycles);
  }

  /** Cells fixed by the elements, on the whole tensor. */
  ghost function FixedTotal(shape: Shape, axes: seq<nat>, elements: seq<Form>): nat {
    RowSum(Fixing(shape, axes), elements, Size(shape))
  }

  lemma FixedRow(shape: Shape, axes: seq<nat>, form: Form)
    requires ValidForm(shape, axes, form)
    ensures KeepsShape(shape, AxisPermutation(|shape|, axes, form))
    ensures InRow(Fixing(shape, axes), form, Size(shape)) == FixedCells(shape, AxisPermutation(|shape|, axes, form))
  {
    AxisPermutationKeepsShape(shape, axes, form);
    hide ValidForm, AxisPermutation, KeepsShape, FlatImage;
    assert forall k: nat :: k < Size(shape) ==>
      (Fixing(shape, axes)(form, k) <==> FlatImage(shape, AxisPermutation(|shape|, axes, form))[k] == k);
  }

  lemma LocalFixedRow(sizes: Shape, form: Form)
    requires ValidForm(sizes, Identity(|sizes|), form)
    ensures KeepsShape(sizes, form)
    ensures InRow(Fixing(sizes, Identity(|sizes|)), form, Size(sizes)) == FixedCells(sizes, form)
  {
    OnAllAxes(sizes, form);
    FixedRow(sizes, Identity(|sizes|), form);
  }

  lemma OneMoreElement(shape: Shape, axes: seq<nat>, elements: seq<Form>, i: nat)
    requires i < |elements|
    ensures FixedTotal(shape, axes, elements[..i + 1])
         == FixedTotal(shape, axes, elements[..i]) + |InRow(Fixing(shape, axes), elements[i], Size(shape))|
  {
    hide Fixing, InRow, Size;
    var more := elements[..i + 1];
    assert more[..i] == elements[..i] && more[i] == elements[i];
  }

  lemma ElementIsValid(shape: Shape, action: Action, elements: seq<Form>, i: nat)
    requires ValidAction(shape, action) && ListsGroup(shape, action, elements) && i < |elements|
    ensures |Rearrange(shape, action.axes)| == action.degree
    ensures ValidForm(shape, action.axes, elements[i])
    ensures ValidForm(Rearrange(shape, action.axes), Identity(action.degree), elements[i])
  {
    hide ValidForm;
    GroupFormIsValid(shape, action, elements[i]);
    LocalListsGroup(shape, action, elements);
    GroupFormIsValid(Rearrange(shape, action.axes), LocalAction(action), elements[i]);
  }

  /** The sums of fixed cells after one more element, on the group's own axes and on the whole tensor. */
  lemma OneMoreFixes(shape: Shape, action: Action, elements: seq<Form>, i: nat, fixed: nat, others: nat)
    requires ValidAction(shape, action) && ListsGroup(shape, action, elements) && i < |elements|
    requires ValidForm(shape, action.axes, elements[i])
    requires KeepsShape(Rearrange(shape, action.axes), elements[i])
    requires KeepsShape(shape, AxisPermutation(|shape|, action.axes, elements[i]))
    requires fixed == |FixedCells(Rearrange(shape, action.axes), elements[i])|
    requires |FixedCells(shape, AxisPermutation(|shape|, action.axes, elements[i]))| == fixed * others
    ensures var sizes, axes := Rearrange(shape, action.axes), Identity(action.degree);
            FixedTotal(sizes, axes, elements[..i + 1]) == FixedTotal(sizes, axes, elements[..i]) + fixed
    ensures FixedTotal(shape, action.axes, elements[..i + 1])
         == FixedTotal(shape, action.axes, elements[..i]) + fixed * others
  {
    var sizes := Rearrange(shape, action.axes);
    ElementIsValid(shape, action, elements, i);
    hide *;
    FixedRow(shape, action.axes, elements[i]);
    LocalFixedRow(sizes, elements[i]);
    OneMoreElement(sizes, Identity(action.degree), elements, i);
    OneMoreElement(shape, action.axes, elements, i);
  }

  lemma WholeAverage(shape: Shape, action: Action, elements: seq<Form>, total: nat, others: nat)
    requires ValidAction(shape, action) && ListsGroup(shape, action, elements)
    requires total == FixedTotal(Rearrange(shape, action.axes), Identity(action.degree), elements)
    requires total * others == FixedTotal(shape, action.axes, elements)
    ensures var sizes, local := Rearrange(shape, action.axes), LocalAction(action);
            && |elements| > 0 && ValidAction(sizes, local)
            && total % |elements| == 0 && total / |elements| == |RepresentativesOf(sizes, local)|
            && |RepresentativesOf(shape, action)| == total / |elements| * others
  {
    var sizes, local := Rearrange(shape, action.axes), LocalAction(action);
    LocalListsGroup(shape, action, elements);
    IdentityInGroup(shape, action);
    assert Identity(action.degree) in elements;
    hide ValidAction, ListsGroup, RepresentativesOf, Fixing, RowSum;
    FixedCellsAddUp(sizes, local, elements);
    FixedCellsAddUp(shape, action, elements);
    var order, own, all := |elements|, |RepresentativesOf(sizes, local)|, |RepresentativesOf(shape, action)|;
    AverageIs(order, own, all, total, others);
  }

  lemma AverageIs(order: nat, own: nat, all: nat, total: nat, others: nat)
    requires order > 0 && total == order * own && total * others == order * all
    ensures total % order == 0 && total / order == own && all == own * others
  {
    DivisionIs(total, order, own, 0);
    Associate(order, own, others);
    CancelOrder(own * others, all, order);
    CancelOrder(all, own * others, order);
  }

  /**
   * `burnside_unique_count`: the average over the elements is a whole number, the number of representatives
   * of the group on its own axes, and a tensor with other axes has that many for each of their entries.
   */
  method BurnsideUniqueCount(ghost shape: Shape, action: Action, sizes: seq<nat>, elements: seq<Form>)
    returns (count: nat, remainder: nat)
    requires ValidAction(shape, action) && sizes == Rearrange(shape, action.axes)
    requires ListsGroup(shape, action, elements)
    ensures remainder == 0
    ensures ValidAction(sizes, LocalAction(action)) && count == |RepresentativesOf(sizes, LocalAction(action))|
    ensures |RepresentativesOf(shape, action)| == count * OtherCells(shape, action.axes)
  {
    ghost var local, others := Identity(action.degree), OtherCells(shape, action.axes);
    var total := 0;
    NoElements(sizes, local);
    NoElements(shape, action.axes);
    hide *;
    for i := 0 to |elements|
      invariant total == FixedTotal(sizes, local, elements[..i])
      invariant FixedTotal(shape, action.axes, elements[..i]) == total * others
    {
      ElementIsValid(shape, action, elements, i);
      var fixed := FixedAssignments(shape, action.axes, sizes, elements[i]);
      OneMoreFixes(shape, action, elements, i, fixed, others);
      Distribute(others, total, fixed);
      total := total + fixed;
    }
    assert elements[..|elements|] == elements;
    WholeAverage(shape, action, elements, total, others);
    count, remainder := total / |elements|, total % |elements|;
  }

  lemma NoElements(shape: Shape, axes: seq<nat>)
    ensures FixedTotal(shape, axes, []) == 0
  {
  }

  // ---- The bill ----

  lemma AscendingHead(s: seq<nat>)
    requires Ascending(s) && s != []
    ensures (forall a :: a in s ==> s[0] <= a) && (forall a :: a in s <==> a == s[0] || a in s[1..])
    ensures forall a :: a in s[1..] ==> s[0] < a
  {
  }

  lemma {:induction false} AscendingIsUnique(s: seq<nat>, t: seq<nat>)
    requires Ascending(s) && Ascending(t) && forall a :: a in s <==> a in t
    ensures s == t
  {
    assert (s != [] ==> s[0] in t) && (t != [] ==> t[0] in s);
    if s != [] && t != [] {
      AscendingHead(s);
      AscendingHead(t);
      assert s[0] == t[0];
      AscendingIsUnique(s[1..], t[1..]);
    }
  }

  lemma OtherAxesSoFar(axes: seq<nat>, k: nat)
    ensures k in axes ==> OtherAxes(k + 1, axes) == OtherAxes(k, axes)
    ensures k !in axes ==> OtherAxes(k + 1, axes) == OtherAxes(k, axes) + [k]
  {
    hide OtherAxes;
    var before, after := OtherAxes(k, axes), OtherAxes(k + 1, axes);
    AscendingFurther(before, k);
    AscendingIsUnique(after, if k in axes then before else before + [k]);
  }

  lemma AscendingFurther(s: seq<nat>, k: nat)
    requires Ascending(s) && Inside(s, k)
    ensures Ascending(s + [k])
  {
  }

  /** Multiply by the extents of the axes the group does not act on. */
  method TimesOtherExtents(shape: Shape, axes: seq<nat>, own: nat) returns (count: nat)
    ensures count == own * OtherCells(shape, axes)
  {
    hide Size, OtherAxes;
    count := own;
    NoOtherAxes(shape, axes);
    ghost var others := OtherAxes(0, axes);
    for a := 0 to |shape|
      invariant others == OtherAxes(a, axes) && Inside(others, |shape|)
      invariant count == own * Size(Rearrange(shape, others))
    {
      OtherAxesSoFar(axes, a);
      if a !in axes {
        assert Rearrange(shape, others + [a]) == Rearrange(shape, others) + [shape[a]];
        SizeOfOneMore(Rearrange(shape, others), shape[a]);
        Associate(own, Size(Rearrange(shape, others)), shape[a]);
        count := count * shape[a];
      }
      others := OtherAxes(a + 1, axes);
    }
  }

  lemma NoOtherAxes(shape: Shape, axes: seq<nat>)
    ensures OtherAxes(0, axes) == [] && Size(Rearrange(shape, [])) == 1
  {
    var none := OtherAxes(0, axes);
    AscendingIsDistinct(none);
    DistinctCount(none);
    hide OtherAxes;
    assert Members(none) == {};
  }

  lemma AtMostEveryCell(shape: Shape, action: Action)
    requires ValidAction(shape, action)
    ensures |RepresentativesOf(shape, action)| <= Size(shape)
  {
    hide ValidAction, OrbitMap;
    SubsetCardinality(RepresentativesOf(shape, action), Indices(Size(shape)));
  }

  function SizesOf(shape: Shape, action: Action): (sizes: seq<nat>) {
    seq(|action.axes|, i requires 0 <= i < |action.axes| =>
      if action.axes[i] < |shape| then shape[action.axes[i]] else 0)
  }

  lemma SizesAre(shape: Shape, action: Action)
    requires ValidAction(shape, action)
    ensures forall i :: 0 <= i < |action.axes| ==> action.axes[i] < |shape|
    ensures SizesOf(shape, action) == Rearrange(shape, action.axes)
  {
  }

  /**
   * What a tensor is billed for: the number of representatives the orbit map leaves, or every cell when the
   * group has more elements than may be listed. It is never less than the representatives.
   */
  method UniqueElementsForShape(shape: Shape, action: Action, budget: nat) returns (count: nat)
    requires ValidAction(shape, action)
    ensures count == |RepresentativesOf(shape, action)|
         || (OverBudget(shape, action, budget) && count == Size(shape))
    ensures |RepresentativesOf(shape, action)| <= count
  {
    AtMostEveryCell(shape, action);
    SizesAre(shape, action);
    var elements := Dimino(shape, action, budget);
    if elements.Err? { return Size(shape); }
    hide *;
    var own, remainder := BurnsideUniqueCount(shape, action, SizesOf(shape, action), elements.value);
    count := TimesOtherExtents(shape, action.axes, own);
  }
}
