/**
 * The linear bound on the propagation rounds is attained: turning m axes of extent two one way round
 * takes m - 1 rounds, because pointer jumping finds nothing to jump over.
 */
module LinearRounds {
  import opened Arithmetic
  import opened FiniteSets
  import opened Permutations
  import opened Orbits
  import opened Propagation
  import opened RowMajor
  import opened AxisActions
  import opened SymmetryGroups
  import opened Combinatorics
  import opened Representatives

  // ---- An orbit walked upwards ----

  /** `c` is a cycle of `p` whose positions increase until it closes. */
  ghost predicate Climbs(p: seq<nat>, c: seq<nat>) {
    && |c| >= 2
    && (forall j :: 0 <= j < |c| ==> c[j] < |p|)
    && (forall j, l :: 0 <= j < l < |c| ==> c[j] < c[l])
    && (forall j, l :: 0 <= j && l == j + 1 && l < |c| ==> p[c[j]] == c[l])
    && p[c[|c| - 1]] == c[0]
  }

  /** After `r` rounds only the last `r` positions of the cycle know its least one. */
  ghost predicate LastKnow(labels: Labels, c: seq<nat>, r: nat) {
    forall j :: 0 <= j < |c| ==> c[j] < |labels| && labels[c[j]] == if j + r >= |c| then c[0] else c[j]
  }

  lemma OneMoreKnows(p: seq<nat>, labels: Labels, c: seq<nat>, r: nat)
    requires |p| == |labels| && IsPermutation(p) && InRange(labels) && Climbs(p, c) && LastKnow(labels, c, r)
    requires InRange(MinStep(labels, p))
    ensures LastKnow(Jump(MinStep(labels, p)), c, r + 1)
  {
    var m, swept := |c|, MinStep(labels, p);
    assert labels[c[0]] == c[0];
    forall j | 0 <= j < m ensures swept[c[j]] == if j + r + 1 >= m then c[0] else c[j] {
      var next := if j + 1 < m then j + 1 else 0;
      assert p[c[j]] == c[next];
      assert swept[c[j]] == Min(labels[c[j]], labels[c[next]]);
    }
  }

  lemma RoundOfOne(p: seq<nat>, labels: Labels)
    requires |p| == |labels| && IsPermutation(p) && ValidImages([p], |labels|) && Sound([p], labels)
    ensures InRange(labels) && InRange(MinStep(labels, p)) && Round([p], labels) == Jump(MinStep(labels, p))
  {
    hide Jump, SameOrbit;
    SweepIsSound([p], labels, 1);
    assert Sweep([p], labels, 1) == MinStep(Sweep([p], labels, 0), p);
  }

  lemma NoneKnows(p: seq<nat>, c: seq<nat>)
    requires ValidImages([p], |p|) && Climbs(p, c)
    ensures LastKnow(Rounds([p], |p|, 0), c, 0)
  {
    hide ValidImages, Sound, Round;
    assert Rounds([p], |p|, 0) == Identity(|p|);
  }

  lemma OneImageIsValid(p: seq<nat>)
    requires IsPermutation(p)
    ensures ValidImages([p], |p|)
  {
  }

  lemma RoundsStep(images: seq<seq<nat>>, n: nat, r: nat)
    requires ValidImages(images, n)
    ensures Rounds(images, n, r + 1) == Round(images, Rounds(images, n, r))
  {
    hide Round, Sound, ValidImages;
  }

  lemma {:induction false} RoundsClimbSlowly(p: seq<nat>, c: seq<nat>, r: nat)
    requires IsPermutation(p) && Climbs(p, c)
    ensures ValidImages([p], |p|) && LastKnow(Rounds([p], |p|, r), c, r)
  {
    hide *;
    OneImageIsValid(p);
    if r == 0 {
      NoneKnows(p, c);
    } else {
      var before := Rounds([p], |p|, r - 1);
      RoundsClimbSlowly(p, c, r - 1);
      RoundsStep([p], |p|, r - 1);
      RoundOfOne(p, before);
      OneMoreKnows(p, before, c, r - 1);
    }
  }

  /** One round short of the length of the cycle, its second position is still on its own. */
  lemma CycleNeedsItsLength(p: seq<nat>, c: seq<nat>, r: nat)
    requires IsPermutation(p) && Climbs(p, c) && r + 2 <= |c|
    ensures ValidImages([p], |p|) && Rounds([p], |p|, r) != OrbitMinima([p], |p|)
  {
    var images, n := [p], |p|;
    RoundsClimbSlowly(p, c, r);
    assert Rounds(images, n, r)[c[1]] == c[1];
    SameOrbitStep(images, n, c[0], 0);
    assert images[0][c[0]] == c[1];
    SameOrbitSymmetric(images, n, c[0], c[1]);
    LabelsAreRepresentatives(images, n, c[1]);
  }

  // ---- Turning m axes ----

  /** Axis `a` goes to where axis `a - 1` was, and the first axis to where the last was. */
  function Turn(m: nat): seq<nat> { seq(m, a => if a == 0 && m > 0 then m - 1 else if a > 0 then a - 1 else 0) }

  function TurnAction(m: nat): Action { Action(Identity(m), m, [Turn(m)]) }

  lemma TurnActionIsValid(n: nat, m: nat)
    ensures ValidAction(Cube(n, m), TurnAction(m))
  {
    assert ValidForm(Cube(n, m), Identity(m), Turn(m));
  }

  function Turned(x: seq<nat>, t: nat): (y: seq<nat>)
    requires t <= |x|
    ensures |y| == |x|
  {
    x[t..] + x[..t]
  }

  ghost function TurnImages(m: nat): (images: seq<seq<nat>>)
    ensures |images| == 1 && |images[0]| == Size(Cube(2, m)) && IsPermutation(images[0])
    ensures ValidImages(images, Size(Cube(2, m)))
  {
    TurnActionIsValid(2, m);
    Images(Cube(2, m), TurnAction(m))
  }

  /** The generator's flat image drops the first entry of the index and puts it last. */
  lemma TurnMovesFirstEntry(m: nat, k: nat)
    requires m > 0 && k < Size(Cube(2, m))
    ensures Decode(Cube(2, m), TurnImages(m)[0][k]) == Turned(Decode(Cube(2, m), k), 1)
  {
    var shape, form := Cube(2, m), Turn(m);
    TurnActionIsValid(2, m);
    OnAllAxes(shape, form);
    AxisPermutationKeepsShape(shape, Identity(m), form);
    FlatImageIndex(shape, form, k);
    RearrangedIsTurned(Decode(shape, k), Decode(shape, FlatImage(shape, form)[k]));
  }

  lemma RearrangedIsTurned(x: seq<nat>, y: seq<nat>)
    requires |x| == |y| && |x| > 0 && Rearrange(y, Turn(|x|)) == x
    ensures y == Turned(x, 1)
  {
    forall a | 0 <= a < |x| ensures y[a] == Turned(x, 1)[a] {
      var b := if a + 1 < |x| then a + 1 else 0;
      assert Rearrange(y, Turn(|x|))[b] == y[a];
    }
  }

  // ---- The indices with a single one ----

  function OneHot(m: nat, a: nat): seq<nat> { seq(m, c => if c == a then 1 else 0) }

  lemma {:induction false} OneHotPosition(m: nat, a: nat)
    requires a < m
    ensures Encode(Cube(2, m), OneHot(m, a)) == Power(2, m - 1 - a)
  {
    var tail := Cube(2, m)[1..];
    assert tail == Cube(2, m - 1);
    if a == 0 {
      assert OneHot(m, a)[1..] == Zeros(m - 1);
      ZerosPosition(m - 1);
      CubeSize(2, m - 1);
    } else {
      assert OneHot(m, a)[1..] == OneHot(m - 1, a - 1);
      OneHotPosition(m - 1, a - 1);
    }
  }

  function Zeros(m: nat): seq<nat> { seq(m, c => 0) }

  lemma {:induction false} ZerosPosition(m: nat)
    ensures Encode(Cube(2, m), Zeros(m)) == 0
  {
    if m > 0 {
      assert Cube(2, m)[1..] == Cube(2, m - 1) && Zeros(m)[1..] == Zeros(m - 1);
      ZerosPosition(m - 1);
    }
  }

  lemma OneHotIsDecoded(m: nat, a: nat)
    requires a < m
    ensures Power(2, m - 1 - a) < Size(Cube(2, m))
    ensures Decode(Cube(2, m), Power(2, m - 1 - a)) == OneHot(m, a)
  {
    OneHotPosition(m, a);
    DecodeEncode(Cube(2, m), OneHot(m, a));
  }

  lemma TurnedOneHot(m: nat, a: nat)
    requires a < m
    ensures Turned(OneHot(m, a), 1) == OneHot(m, if a > 0 then a - 1 else m - 1)
  {
  }

  /** Position 2^j goes to 2^(j+1), and the highest such position back to 1. */
  lemma TurnDoubles(m: nat, j: nat)
    requires j < m
    ensures Power(2, j) < Size(Cube(2, m))
    ensures TurnImages(m)[0][Power(2, j)] == if j + 1 < m then Power(2, j + 1) else 1
  {
    PowerOfNone(2);
    hide Power, Size, Cube, Decode, Encode, TurnImages, Turned, OneHot, IsPermutation, ValidImages;
    var shape, a := Cube(2, m), m - 1 - j;
    OneHotIsDecoded(m, a);
    TurnMovesFirstEntry(m, Power(2, j));
    var b := if a > 0 then a - 1 else m - 1;
    TurnedOneHot(m, a);
    OneHotIsDecoded(m, b);
    EncodeDecode(shape, TurnImages(m)[0][Power(2, j)]);
    EncodeDecode(shape, Power(2, m - 1 - b));
  }

  ghost function Powers(m: nat): seq<nat> { seq(m, j requires 0 <= j < m => Power(2, j)) }

  lemma {:induction false} PowersIncrease(j: nat, l: nat)
    requires j < l
    ensures Power(2, j) < Power(2, l)
  {
    PowerPositive(2, l - 1);
    if j < l - 1 { PowersIncrease(j, l - 1); }
  }

  lemma TurnClimbs(m: nat)
    requires m >= 2
    ensures Climbs(TurnImages(m)[0], Powers(m))
  {
    hide Power, TurnImages;
    var p, c := TurnImages(m)[0], Powers(m);
    forall j | 0 <= j < m ensures c[j] < |p| && p[c[j]] == if j + 1 < m then Power(2, j + 1) else 1 {
      TurnDoubles(m, j);
    }
    forall j, l | 0 <= j < l < m ensures c[j] < c[l] { PowersIncrease(j, l); }
    assert c[0] == 1 by { PowerOfNone(2); }
  }

  // ---- No orbit has more than m positions ----

  /** The positions that the first `t` turns of an index lead to. */
  ghost function Turns(m: nat, x: seq<nat>, t: nat): (s: set<nat>)
    requires InBounds(Cube(2, m), x) && t <= m
    ensures |s| <= t
    ensures forall k: nat :: k in s <==> exists u :: 0 <= u < t && k == Encode(Cube(2, m), Turned(x, u))
  {
    if t == 0 then {} else Turns(m, x, t - 1) + {Encode(Cube(2, m), Turned(x, t - 1))}
  }

  lemma TurnedFurther(x: seq<nat>, u: nat)
    requires u < |x|
    ensures Turned(Turned(x, u), 1) == if u + 1 < |x| then Turned(x, u + 1) else Turned(x, 0)
  {
  }

  lemma TurnStays(m: nat, x: seq<nat>, u: nat)
    requires InBounds(Cube(2, m), x) && u < m
    ensures var shape := Cube(2, m);
            var k := Encode(shape, Turned(x, u));
            k < Size(shape) && TurnImages(m)[0][k] in Turns(m, x, m)
  {
    hide TurnImages, Turns, Decode, Encode;
    var shape, y := Cube(2, m), Turned(x, u);
    assert InBounds(shape, y);
    DecodeEncode(shape, y);
    TurnMovesFirstEntry(m, Encode(shape, y));
    EncodeDecode(shape, TurnImages(m)[0][Encode(shape, y)]);
    TurnedFurther(x, u);
    var v := if u + 1 < m then u + 1 else 0;
    assert TurnImages(m)[0][Encode(shape, y)] == Encode(shape, Turned(x, v));
  }

  lemma TurnsAreClosed(m: nat, x: seq<nat>)
    requires InBounds(Cube(2, m), x) && m > 0
    ensures ClosedUnderSteps(TurnImages(m), Size(Cube(2, m)), Turns(m, x, m))
  {
    hide TurnImages, Turns, Encode, Size, IsPermutation, Turned;
    var p, c := TurnImages(m)[0], Turns(m, x, m);
    forall k | k in c ensures k < |p| && p[k] in c {
      var u :| 0 <= u < m && k == Encode(Cube(2, m), Turned(x, u));
      TurnStays(m, x, u);
    }
    assert ForwardClosed(p, c);
  }

  lemma TurnOrbitsAreSmall(m: nat)
    requires m > 0
    ensures OrbitsBoundedBy(TurnImages(m), Size(Cube(2, m)), m)
  {
    var shape, images, n := Cube(2, m), TurnImages(m), Size(Cube(2, m));
    forall i: nat | i < n ensures |Orbit(images, n, i)| <= m {
      var x := Decode(shape, i);
      DecodeInBounds(shape, i);
      EncodeDecode(shape, i);
      TurnsAreClosed(m, x);
      var c := Turns(m, x, m);
      assert i in c by { assert Turned(x, 0) == x; }
      forall j | j in Orbit(images, n, i) ensures j in c {
        OrbitMember(images, n, i, j);
        var w :| ValidWord(|images|, w) && Act(images, n, w, i) == j;
        ClosedContainsOrbit(images, n, c, w, i);
      }
      SubsetCardinality(Orbit(images, n, i), c);
    }
  }

  /**
   * Turning m axes of extent two: no orbit exceeds m positions, the labels are final after m - 1
   * rounds, and they never are before.
   */
  lemma LinearBoundIsAttained(m: nat, r: nat)
    requires m >= 2
    ensures OrbitsBoundedBy(TurnImages(m), Size(Cube(2, m)), m)
    ensures Rounds(TurnImages(m), Size(Cube(2, m)), r) == OrbitMinima(TurnImages(m), Size(Cube(2, m))) <==> r + 1 >= m
  {
    hide OrbitsBoundedBy, Rounds, OrbitMinima;
    var images, n := TurnImages(m), Size(Cube(2, m));
    TurnOrbitsAreSmall(m);
    if r + 1 >= m {
      ConvergesWithinLargestOrbit(images, n, m, r);
    } else {
      TurnClimbs(m);
      assert images == [images[0]];
      CycleNeedsItsLength(images[0], Powers(m), r);
    }
  }
}
