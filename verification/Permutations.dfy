/** Permutations of [0, n) in array form, with the two finiteness facts the orbit map rests on. */
module Permutations {
  import opened FiniteSets

  ghost predicate IsPermutation(p: seq<nat>) {
    && (forall i :: 0 <= i < |p| ==> p[i] < |p|)
    && (forall i, j :: 0 <= i < |p| && 0 <= j < |p| && p[i] == p[j] ==> i == j)
  }

  function Identity(n: nat): seq<nat> { seq(n, i => i) }

  /** Apply `q` first, then `p`. */
  function Compose(p: seq<nat>, q: seq<nat>): seq<nat>
    requires |p| == |q|
    requires forall i :: 0 <= i < |q| ==> q[i] < |p|
  {
    seq(|q|, i requires 0 <= i < |q| => p[q[i]])
  }

  ghost predicate Below(c: set<nat>, n: nat) { forall i :: i in c ==> i < n }

  ghost predicate ForwardClosed(p: seq<nat>, c: set<nat>) {
    && Below(c, |p|)
    && forall x {:trigger p[x]} :: x in c ==> p[x] in c
  }

  lemma {:induction false} ImageOfForwardClosed(p: seq<nat>, c: set<nat>, j: nat)
    requires IsPermutation(p) && ForwardClosed(p, c)
    requires j in c
    ensures exists x :: x in c && p[x] == j
  {
    var f := (x: nat) => if x < |p| then p[x] else 0;
    var image := set x | x in c :: f(x);
    ImageCardinality(f, c, image) by { assert InjectiveOn(f, c); }
    assert image <= c;
    SubsetCardinality(image, c);
    var x :| x in c && f(x) == j;
    assert p[x] == j;
  }

  /**
   * A set that a permutation maps into itself is also closed under the inverse: a finite orbit
   * has no way to enter a forward-closed set from outside.
   */
  lemma ForwardClosedIsBackwardClosed(p: seq<nat>, c: set<nat>, i: nat)
    requires IsPermutation(p) && ForwardClosed(p, c)
    requires i < |p| && p[i] in c
    ensures i in c
  {
    ImageOfForwardClosed(p, c, p[i]);
    var x :| x in c && p[x] == p[i];
    assert x == i;
  }

  lemma Onto(p: seq<nat>, j: nat)
    requires IsPermutation(p) && j < |p|
    ensures exists i: nat :: i < |p| && p[i] == j
  {
    ImageOfForwardClosed(p, Indices(|p|), j);
    var x :| x in Indices(|p|) && p[x] == j;
  }

  function Preimage(p: seq<nat>, j: nat): (i: nat)
    requires IsPermutation(p) && j < |p|
    ensures i < |p| && p[i] == j
  {
    Onto(p, j);
    var i: nat :| i < |p| && p[i] == j;
    i
  }

  function Inverse(p: seq<nat>): (q: seq<nat>)
    requires IsPermutation(p)
    ensures |q| == |p| && IsPermutation(q)
    ensures forall i :: 0 <= i < |p| ==> q[p[i]] == i
    ensures forall j :: 0 <= j < |p| ==> p[q[j]] == j
  {
    var q := seq(|p|, j requires 0 <= j < |p| => Preimage(p, j));
    assert forall i {:trigger p[i]} :: 0 <= i < |p| ==> p[q[p[i]]] == p[i];
    q
  }

  /**
   * The cycle lemma: labels that never increase against the direction of a permutation step
   * (`labels[i] <= labels[p[i]]` everywhere) are constant along it.
   */
  lemma MonotoneLabelsAreConstant(p: seq<nat>, labels: seq<nat>, i: nat)
    requires IsPermutation(p) && |labels| == |p| && i < |p|
    requires forall k :: 0 <= k < |p| ==> labels[k] <= labels[p[k]]
    ensures labels[i] == labels[p[i]]
  {
    if labels[i] < labels[p[i]] {
      var above := set k | k in Indices(|p|) && labels[k] > labels[i];
      ForwardClosedIsBackwardClosed(p, above, i);
    }
  }

  lemma InverseIsUnique(p: seq<nat>, q: seq<nat>)
    requires IsPermutation(p) && |q| == |p|
    requires forall i :: 0 <= i < |p| ==> q[i] < |p| && p[q[i]] == i
    ensures q == Inverse(p)
  {
    var r := Inverse(p);
    forall i | 0 <= i < |p| ensures q[i] == r[i] {
      assert p[q[i]] == p[r[i]];
    }
  }

  lemma ComposeIsPermutation(p: seq<nat>, q: seq<nat>)
    requires IsPermutation(p) && IsPermutation(q) && |p| == |q|
    ensures IsPermutation(Compose(p, q))
  {
    var r := Compose(p, q);
    forall i, j | 0 <= i < |r| && 0 <= j < |r| && r[i] == r[j] ensures i == j {
      assert p[q[i]] == p[q[j]];
      assert q[i] == q[j];
    }
  }
}
