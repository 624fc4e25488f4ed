/**
 * Orbits of the group generated by permutations of [0, n).
 *
 * The group is given only by its generators; its elements are words in the generators and their
 * inverses. `Within` is what a generator walk can see: positions reached by forward steps alone.
 */
module Orbits {
  import opened FiniteSets
  import opened Permutations

  datatype Letter = Step(g: nat) | Back(g: nat)
  type Word = seq<Letter>

  ghost predicate ValidImages(images: seq<seq<nat>>, n: nat) {
    forall g :: 0 <= g < |images| ==> |images[g]| == n && IsPermutation(images[g])
  }

  ghost predicate ValidWord(count: nat, w: Word) {
    forall k :: 0 <= k < |w| ==> w[k].g < count
  }

  ghost function ActLetter(images: seq<seq<nat>>, n: nat, a: Letter, i: nat): (j: nat)
    requires ValidImages(images, n) && a.g < |images| && i < n
    ensures j < n
  {
    match a
    case Step(g) => images[g][i]
    case Back(g) => Inverse(images[g])[i]
  }

  /** The group element spelled by `w`, applied to position `i`; `w[0]` acts first. */
  ghost function Act(images: seq<seq<nat>>, n: nat, w: Word, i: nat): (j: nat)
    requires ValidImages(images, n) && ValidWord(|images|, w) && i < n
    ensures j < n
    decreases |w|
  {
    if w == [] then i else Act(images, n, w[1..], ActLetter(images, n, w[0], i))
  }

  /** `j` is the image of `i` under some element of the generated group. */
  ghost predicate SameOrbit(images: seq<seq<nat>>, n: nat, i: nat, j: nat)
    requires ValidImages(images, n) && i < n
  {
    exists w :: ValidWord(|images|, w) && Act(images, n, w, i) == j
  }

  ghost function Orbit(images: seq<seq<nat>>, n: nat, i: nat): (orbit: set<nat>)
    requires ValidImages(images, n) && i < n
    ensures i in orbit
  {
    SameOrbitReflexive(images, n, i);
    set j | j in Indices(n) && SameOrbit(images, n, i, j)
  }

  lemma OrbitMember(images: seq<seq<nat>>, n: nat, i: nat, j: nat)
    requires ValidImages(images, n) && i < n
    ensures j in Orbit(images, n, i) <==> SameOrbit(images, n, i, j)
  {
    if SameOrbit(images, n, i, j) {
      var w :| ValidWord(|images|, w) && Act(images, n, w, i) == j;
    }
  }

  // ---- SameOrbit is an equivalence ----

  lemma SameOrbitReflexive(images: seq<seq<nat>>, n: nat, i: nat)
    requires ValidImages(images, n) && i < n
    ensures SameOrbit(images, n, i, i)
  {
    assert ValidWord(|images|, []) && Act(images, n, [], i) == i;
  }

  lemma {:induction false} ActConcat(images: seq<seq<nat>>, n: nat, u: Word, w: Word, i: nat)
    requires ValidImages(images, n) && ValidWord(|images|, u) && ValidWord(|images|, w) && i < n
    ensures ValidWord(|images|, u + w)
    ensures Act(images, n, u + w, i) == Act(images, n, w, Act(images, n, u, i))
    decreases |u|
  {
    if u == [] {
      assert u + w == w;
    } else {
      assert (u + w)[1..] == u[1..] + w;
      ActConcat(images, n, u[1..], w, ActLetter(images, n, u[0], i));
    }
  }

  function Flip(a: Letter): Letter {
    match a
    case Step(g) => Back(g)
    case Back(g) => Step(g)
  }

  function InverseWord(w: Word): (r: Word)
    ensures |r| == |w|
  {
    if w == [] then [] else InverseWord(w[1..]) + [Flip(w[0])]
  }

  lemma {:induction false} InverseWordUndoes(images: seq<seq<nat>>, n: nat, w: Word, i: nat)
    requires ValidImages(images, n) && ValidWord(|images|, w) && i < n
    ensures ValidWord(|images|, InverseWord(w))
    ensures Act(images, n, InverseWord(w), Act(images, n, w, i)) == i
    decreases |w|
  {
    if w != [] {
      var j := ActLetter(images, n, w[0], i);
      InverseWordUndoes(images, n, w[1..], j);
      var last := [Flip(w[0])];
      ActConcat(images, n, InverseWord(w[1..]), last, Act(images, n, w, i));
      assert last[1..] == [];
      assert Act(images, n, last, j) == ActLetter(images, n, Flip(w[0]), j);
    }
  }

  lemma SameOrbitSymmetric(images: seq<seq<nat>>, n: nat, i: nat, j: nat)
    requires ValidImages(images, n) && i < n
    requires SameOrbit(images, n, i, j)
    ensures j < n && SameOrbit(images, n, j, i)
  {
    var w :| ValidWord(|images|, w) && Act(images, n, w, i) == j;
    InverseWordUndoes(images, n, w, i);
  }

  lemma SameOrbitTransitive(images: seq<seq<nat>>, n: nat, i: nat, j: nat, k: nat)
    requires ValidImages(images, n) && i < n && j < n
    requires SameOrbit(images, n, i, j) && SameOrbit(images, n, j, k)
    ensures SameOrbit(images, n, i, k)
  {
    var u :| ValidWord(|images|, u) && Act(images, n, u, i) == j;
    var w :| ValidWord(|images|, w) && Act(images, n, w, j) == k;
    ActConcat(images, n, u, w, i);
  }

  lemma SameOrbitStep(images: seq<seq<nat>>, n: nat, i: nat, g: nat)
    requires ValidImages(images, n) && i < n && g < |images|
    ensures SameOrbit(images, n, i, images[g][i])
  {
    var w := [Step(g)];
    assert w[1..] == [];
    assert ValidWord(|images|, w) && Act(images, n, w, i) == images[g][i];
  }

  lemma OrbitsCoincide(images: seq<seq<nat>>, n: nat, i: nat, j: nat)
    requires ValidImages(images, n) && i < n && j < n
    requires SameOrbit(images, n, i, j)
    ensures Orbit(images, n, i) == Orbit(images, n, j)
  {
    SameOrbitSymmetric(images, n, i, j);
    forall k | k in Orbit(images, n, i) ensures k in Orbit(images, n, j) {
      SameOrbitTransitive(images, n, j, i, k);
    }
    forall k | k in Orbit(images, n, j) ensures k in Orbit(images, n, i) {
      SameOrbitTransitive(images, n, i, j, k);
    }
  }

  // ---- Data that no generator changes ----

  /** `data` carries the same value one generator step further, everywhere. */
  ghost predicate StepInvariant<T>(images: seq<seq<nat>>, n: nat, data: seq<T>)
    requires ValidImages(images, n) && |data| == n
  {
    forall g, k {:trigger images[g][k]} :: 0 <= g < |images| && 0 <= k < n ==> data[k] == data[images[g][k]]
  }

  /** What no generator changes, no group element changes. */
  lemma {:induction false} StepInvariantFollowsWords<T>(images: seq<seq<nat>>, n: nat, data: seq<T>, w: Word, i: nat)
    requires ValidImages(images, n) && |data| == n && StepInvariant(images, n, data)
    requires ValidWord(|images|, w) && i < n
    ensures data[Act(images, n, w, i)] == data[i]
    decreases |w|
  {
    if w != [] {
      var j := ActLetter(images, n, w[0], i);
      assert data[i] == data[j] by {
        if w[0].Back? { assert images[w[0].g][j] == i; }
      }
      StepInvariantFollowsWords(images, n, data, w[1..], j);
    }
  }

  // ---- A set closed under every generator contains whole orbits ----

  ghost predicate ClosedUnderSteps(images: seq<seq<nat>>, n: nat, c: set<nat>)
    requires ValidImages(images, n)
  {
    forall g :: 0 <= g < |images| ==> ForwardClosed(images[g], c)
  }

  lemma {:induction false} ClosedContainsOrbit(images: seq<seq<nat>>, n: nat, c: set<nat>, w: Word, i: nat)
    requires ValidImages(images, n) && ClosedUnderSteps(images, n, c)
    requires ValidWord(|images|, w) && i < n && i in c
    ensures Act(images, n, w, i) in c
    decreases |w|
  {
    if w != [] {
      var g := w[0].g;
      var j := ActLetter(images, n, w[0], i);
      assert ForwardClosed(images[g], c);
      if w[0].Back? {
        assert images[g][j] == i;
        ForwardClosedIsBackwardClosed(images[g], c, j);
      }
      ClosedContainsOrbit(images, n, c, w[1..], j);
    }
  }

  // ---- Forward reachability ----

  /** A walk of at most `k` forward generator steps leads from `i` to `j`. */
  ghost predicate Reaches(images: seq<seq<nat>>, n: nat, i: nat, j: nat, k: nat)
    requires ValidImages(images, n) && i < n
    decreases k
  {
    i == j || (k > 0 && exists g: nat :: g < |images| && Reaches(images, n, images[g][i], j, k - 1))
  }

  lemma {:induction false} ReachesMonotone(images: seq<seq<nat>>, n: nat, i: nat, j: nat, k: nat, l: nat)
    requires ValidImages(images, n) && i < n && k <= l
    requires Reaches(images, n, i, j, k)
    ensures Reaches(images, n, i, j, l)
    decreases k
  {
    if i != j {
      var g: nat :| g < |images| && Reaches(images, n, images[g][i], j, k - 1);
      ReachesMonotone(images, n, images[g][i], j, k - 1, l - 1);
      ReachesAfterStep(images, n, i, j, l - 1, g);
    }
  }

  lemma ReachesAfterStep(images: seq<seq<nat>>, n: nat, i: nat, j: nat, k: nat, g: nat)
    requires ValidImages(images, n) && i < n && g < |images|
    requires Reaches(images, n, images[g][i], j, k)
    ensures Reaches(images, n, i, j, k + 1)
  {
  }

  /** A walk can be prolonged at its far end. */
  lemma {:induction false} ReachesExtends(images: seq<seq<nat>>, n: nat, i: nat, x: nat, g: nat, k: nat)
    requires ValidImages(images, n) && i < n && x < n && g < |images|
    requires Reaches(images, n, i, x, k)
    ensures Reaches(images, n, i, images[g][x], k + 1)
    decreases k
  {
    if i == x {
      assert Reaches(images, n, images[g][i], images[g][x], k);
    } else {
      var h: nat :| h < |images| && Reaches(images, n, images[h][i], x, k - 1);
      ReachesExtends(images, n, images[h][i], x, g, k - 1);
      ReachesAfterStep(images, n, i, images[g][x], k, h);
    }
  }

  lemma {:induction false} ReachesStaysInside(images: seq<seq<nat>>, n: nat, c: set<nat>, i: nat, j: nat, k: nat)
    requires ValidImages(images, n) && ClosedUnderSteps(images, n, c) && i < n && i in c
    requires Reaches(images, n, i, j, k)
    ensures j in c
    decreases k
  {
    if i != j {
      var g: nat :| g < |images| && Reaches(images, n, images[g][i], j, k - 1);
      assert ForwardClosed(images[g], c);
      ReachesStaysInside(images, n, c, images[g][i], j, k - 1);
    }
  }

  lemma OrbitIsClosed(images: seq<seq<nat>>, n: nat, i: nat)
    requires ValidImages(images, n) && i < n
    ensures ClosedUnderSteps(images, n, Orbit(images, n, i))
  {
    var orbit := Orbit(images, n, i);
    forall g | 0 <= g < |images| ensures ForwardClosed(images[g], orbit) {
      forall x {:trigger images[g][x]} | x in orbit ensures images[g][x] in orbit {
        SameOrbitStep(images, n, x, g);
        SameOrbitTransitive(images, n, i, x, images[g][x]);
      }
    }
  }

  /** Positions reached from `i` in at most `k` forward generator steps. */
  ghost function Within(images: seq<seq<nat>>, n: nat, i: nat, k: nat): (s: set<nat>)
    requires ValidImages(images, n) && i < n
    ensures i in s
  {
    set j | j in Indices(n) && Reaches(images, n, i, j, k)
  }

  lemma WithinNests(images: seq<seq<nat>>, n: nat, i: nat, k: nat, l: nat)
    requires ValidImages(images, n) && i < n && k <= l
    ensures Within(images, n, i, k) <= Within(images, n, i, l)
  {
    forall j | j in Within(images, n, i, k) ensures j in Within(images, n, i, l) {
      ReachesMonotone(images, n, i, j, k, l);
    }
  }

  lemma WithinStaysInside(images: seq<seq<nat>>, n: nat, c: set<nat>, i: nat, k: nat)
    requires ValidImages(images, n) && ClosedUnderSteps(images, n, c) && i < n && i in c
    ensures Within(images, n, i, k) <= c
  {
    forall j | j in Within(images, n, i, k) ensures j in c {
      ReachesStaysInside(images, n, c, i, j, k);
    }
  }

  /** Until the walk closes up, each further step discovers something new. */
  lemma {:induction false} WithinGrows(images: seq<seq<nat>>, n: nat, i: nat, k: nat)
    requires ValidImages(images, n) && i < n
    ensures ClosedUnderSteps(images, n, Within(images, n, i, k)) || |Within(images, n, i, k)| > k
  {
    if k > 0 {
      var inner, outer := Within(images, n, i, k - 1), Within(images, n, i, k);
      WithinGrows(images, n, i, k - 1);
      WithinNests(images, n, i, k - 1, k);
      if ClosedUnderSteps(images, n, inner) {
        WithinStaysInside(images, n, inner, i, k);
        assert inner == outer;
      } else {
        WithinDiscovers(images, n, i, k);
        SubsetCardinality(inner, outer);
      }
    }
  }

  lemma WithinDiscovers(images: seq<seq<nat>>, n: nat, i: nat, k: nat)
    requires ValidImages(images, n) && i < n && k > 0
    requires !ClosedUnderSteps(images, n, Within(images, n, i, k - 1))
    ensures Within(images, n, i, k) != Within(images, n, i, k - 1)
  {
    var g, x := EscapingStep(images, n, Within(images, n, i, k - 1));
    ReachesExtends(images, n, i, x, g, k - 1);
    assert images[g][x] in Within(images, n, i, k);
  }

  lemma EscapingStep(images: seq<seq<nat>>, n: nat, s: set<nat>) returns (g: nat, x: nat)
    requires ValidImages(images, n) && Below(s, n)
    requires !ClosedUnderSteps(images, n, s)
    ensures g < |images| && x in s && images[g][x] !in s
  {
    g :| g < |images| && !ForwardClosed(images[g], s);
    x :| x in s && images[g][x] !in s;
  }

  /**
   * The orbit under the whole group, inverses included, is already what forward generator steps
   * reach, and `|orbit| - 1` of them are enough.
   */
  lemma ForwardStepsReachOrbit(images: seq<seq<nat>>, n: nat, i: nat, k: nat)
    requires ValidImages(images, n) && i < n
    requires k + 1 >= |Orbit(images, n, i)|
    ensures Within(images, n, i, k) == Orbit(images, n, i)
  {
    var reached, orbit := Within(images, n, i, k), Orbit(images, n, i);
    OrbitIsClosed(images, n, i);
    WithinStaysInside(images, n, orbit, i, k);
    SubsetCardinality(reached, orbit);
    WithinGrows(images, n, i, k);
    if ClosedUnderSteps(images, n, reached) {
      forall j | j in orbit ensures j in reached {
        var w :| ValidWord(|images|, w) && Act(images, n, w, i) == j;
        ClosedContainsOrbit(images, n, reached, w, i);
      }
    }
  }
}
