/**
 * Min-label propagation with pointer jumping, as functions on label sequences, and the proof that
 * its fixpoint is the table of orbit minima.
 */
module Propagation {
  import opened Arithmetic
  import opened FiniteSets
  import opened Permutations
  import opened Orbits

  type Labels = seq<nat>

  ghost predicate InRange(labels: Labels) { forall i :: 0 <= i < |labels| ==> labels[i] < |labels| }

  /** `np.minimum(labels, labels[image])`. */
  function MinStep(labels: Labels, image: seq<nat>): Labels
    requires |image| == |labels|
    requires forall i :: 0 <= i < |image| ==> image[i] < |labels|
  {
    seq(|labels|, i requires 0 <= i < |labels| => Min(labels[i], labels[image[i]]))
  }

  /** The min steps of the first `g` generators, in order. */
  ghost function Sweep(images: seq<seq<nat>>, labels: Labels, g: nat): (r: Labels)
    requires ValidImages(images, |labels|) && g <= |images|
    ensures |r| == |labels|
  {
    if g == 0 then labels else MinStep(Sweep(images, labels, g - 1), images[g - 1])
  }

  /** `labels[labels]`. */
  function Jump(labels: Labels): Labels
    requires InRange(labels)
  {
    seq(|labels|, i requires 0 <= i < |labels| => labels[labels[i]])
  }

  /** Labels that name a member of the position's own orbit, no larger than the position. */
  ghost predicate Sound(images: seq<seq<nat>>, labels: Labels)
    requires ValidImages(images, |labels|)
  {
    forall i :: 0 <= i < |labels| ==> labels[i] <= i && SameOrbit(images, |labels|, i, labels[i])
  }

  ghost predicate Descends(a: Labels, b: Labels) {
    |a| == |b| && forall i :: 0 <= i < |a| ==> b[i] <= a[i]
  }

  lemma MinStepIsSound(images: seq<seq<nat>>, labels: Labels, g: nat)
    requires ValidImages(images, |labels|) && g < |images| && Sound(images, labels)
    ensures Sound(images, MinStep(labels, images[g]))
  {
    var n, r := |labels|, MinStep(labels, images[g]);
    forall i | 0 <= i < n ensures r[i] <= i && SameOrbit(images, n, i, r[i]) {
      var x := images[g][i];
      SameOrbitStep(images, n, i, g);
      SameOrbitTransitive(images, n, i, x, labels[x]);
    }
  }

  lemma {:induction false} SweepIsSound(images: seq<seq<nat>>, labels: Labels, g: nat)
    requires ValidImages(images, |labels|) && g <= |images| && Sound(images, labels)
    ensures Sound(images, Sweep(images, labels, g))
  {
    hide Sound, MinStep;
    if g > 0 {
      SweepIsSound(images, labels, g - 1);
      MinStepIsSound(images, Sweep(images, labels, g - 1), g - 1);
    }
  }

  lemma JumpIsSound(images: seq<seq<nat>>, labels: Labels)
    requires ValidImages(images, |labels|) && Sound(images, labels)
    ensures InRange(labels) && Sound(images, Jump(labels)) && Descends(labels, Jump(labels))
  {
    var n, r := |labels|, Jump(labels);
    forall i | 0 <= i < n ensures r[i] <= labels[i] && SameOrbit(images, n, i, r[i]) {
      SameOrbitTransitive(images, n, i, labels[i], labels[labels[i]]);
    }
  }

  lemma {:induction false} SweepDescends(images: seq<seq<nat>>, labels: Labels, g: nat, l: nat)
    requires ValidImages(images, |labels|) && g <= l <= |images|
    ensures Descends(Sweep(images, labels, g), Sweep(images, labels, l))
    decreases l
  {
    if g < l { SweepDescends(images, labels, g, l - 1); }
  }

  /** A sweep lowers every label at least to the label one step ahead along any generator. */
  lemma SweepSeesEveryStep(images: seq<seq<nat>>, labels: Labels, h: nat, i: nat)
    requires ValidImages(images, |labels|) && h < |images| && i < |labels|
    ensures Sweep(images, labels, |images|)[i] <= labels[images[h][i]]
  {
    SweepDescendsAt(images, labels, 0, h, images[h][i]);
    SweepStep(images, labels, h, i);
    SweepDescendsAt(images, labels, h + 1, |images|, i);
  }

  lemma SweepStep(images: seq<seq<nat>>, labels: Labels, h: nat, i: nat)
    requires ValidImages(images, |labels|) && h < |images| && i < |labels|
    ensures Sweep(images, labels, h + 1)[i] <= Sweep(images, labels, h)[images[h][i]]
  {
    var swept := Sweep(images, labels, h);
    assert Sweep(images, labels, h + 1)[i] == Min(swept[i], swept[images[h][i]]);
  }

  lemma {:induction false} SweepDescendsAt(images: seq<seq<nat>>, labels: Labels, g: nat, l: nat, i: nat)
    requires ValidImages(images, |labels|) && g <= l <= |images| && i < |labels|
    ensures Sweep(images, labels, l)[i] <= Sweep(images, labels, g)[i]
  {
    SweepDescends(images, labels, g, l);
  }

  /** One pass of the propagation loop. */
  ghost function Round(images: seq<seq<nat>>, labels: Labels): (r: Labels)
    requires ValidImages(images, |labels|) && Sound(images, labels)
    ensures |r| == |labels| && Sound(images, r)
  {
    SweepIsSound(images, labels, |images|);
    JumpIsSound(images, Sweep(images, labels, |images|));
    Jump(Sweep(images, labels, |images|))
  }

  ghost function Rounds(images: seq<seq<nat>>, n: nat, r: nat): (labels: Labels)
    requires ValidImages(images, n)
    ensures |labels| == n && Sound(images, labels)
  {
    if r == 0 then
      assert Sound(images, Identity(n)) by { InitialLabelsAreSound(images, n); }
      Identity(n)
    else Round(images, Rounds(images, n, r - 1))
  }

  lemma InitialLabelsAreSound(images: seq<seq<nat>>, n: nat)
    requires ValidImages(images, n)
    ensures Sound(images, Identity(n))
  {
    forall i: nat | i < n ensures SameOrbit(images, n, i, i) { SameOrbitReflexive(images, n, i); }
  }

  lemma RoundSeesEveryStep(images: seq<seq<nat>>, labels: Labels, h: nat, i: nat)
    requires ValidImages(images, |labels|) && Sound(images, labels)
    requires h < |images| && i < |labels|
    ensures Round(images, labels)[i] <= labels[images[h][i]]
  {
    SweepSeesEveryStep(images, labels, h, i);
    SweepIsSound(images, labels, |images|);
    JumpIsSound(images, Sweep(images, labels, |images|));
  }

  // ---- The fixpoint is the table of orbit minima ----

  ghost function OrbitMinimum(images: seq<seq<nat>>, n: nat, i: nat): (m: nat)
    requires ValidImages(images, n) && i < n
    ensures IsLeast(m, Orbit(images, n, i))
  {
    Least(Orbit(images, n, i))
  }

  /** `map[i]` = least position in the orbit of `i`. */
  ghost function OrbitMinima(images: seq<seq<nat>>, n: nat): (labels: Labels)
    requires ValidImages(images, n)
    ensures |labels| == n && InRange(labels)
  {
    var labels := seq(n, i requires 0 <= i < n => OrbitMinimum(images, n, i));
    labels
  }

  lemma StableLabelsAreConstantOnOrbits(images: seq<seq<nat>>, labels: Labels, i: nat, j: nat)
    requires ValidImages(images, |labels|) && Sound(images, labels)
    requires Round(images, labels) == labels
    requires i < |labels| && SameOrbit(images, |labels|, i, j)
    ensures j < |labels| && labels[i] == labels[j]
  {
    assert StepInvariant(images, |labels|, labels) by {
      forall g, k {:trigger images[g][k]} | 0 <= g < |images| && 0 <= k < |labels|
        ensures labels[k] == labels[images[g][k]]
      {
        forall x | 0 <= x < |labels| ensures labels[x] <= labels[images[g][x]] {
          RoundSeesEveryStep(images, labels, g, x);
        }
        MonotoneLabelsAreConstant(images[g], labels, k);
      }
    }
    var w :| ValidWord(|images|, w) && Act(images, |labels|, w, i) == j;
    StepInvariantFollowsWords(images, |labels|, labels, w, i);
  }

  /** Convergence test: a pass that changes nothing has found every orbit minimum. */
  lemma StableMeansMinimal(images: seq<seq<nat>>, labels: Labels)
    requires ValidImages(images, |labels|) && Sound(images, labels)
    requires Round(images, labels) == labels
    ensures labels == OrbitMinima(images, |labels|)
  {
    var n := |labels|;
    forall i | 0 <= i < n ensures labels[i] == OrbitMinimum(images, n, i) {
      var m := OrbitMinimum(images, n, i);
      OrbitMember(images, n, i, m);
      OrbitMember(images, n, i, labels[i]);
      StableLabelsAreConstantOnOrbits(images, labels, i, m);
    }
  }

  // ---- How fast it converges ----

  /** Every label is at most every position that a walk of `r` forward steps can see. */
  ghost predicate Covers(images: seq<seq<nat>>, labels: Labels, r: nat)
    requires ValidImages(images, |labels|)
  {
    forall i, j :: 0 <= i < |labels| && j in Within(images, |labels|, i, r) ==> labels[i] <= j
  }

  lemma {:induction false} RoundsCover(images: seq<seq<nat>>, n: nat, r: nat)
    requires ValidImages(images, n)
    ensures Covers(images, Rounds(images, n, r), r)
  {
    hide Covers, Round, Sound, ValidImages, Identity;
    if r > 0 {
      RoundsCover(images, n, r - 1);
      RoundReachesFurther(images, Rounds(images, n, r - 1), r - 1);
    } else {
      IdentityCovers(images, n);
    }
  }

  lemma IdentityCovers(images: seq<seq<nat>>, n: nat)
    requires ValidImages(images, n)
    ensures Covers(images, Rounds(images, n, 0), 0)
  {
  }

  lemma RoundReachesFurther(images: seq<seq<nat>>, labels: Labels, r: nat)
    requires ValidImages(images, |labels|) && Sound(images, labels) && Covers(images, labels, r)
    ensures Covers(images, Round(images, labels), r + 1)
  {
    hide Round, Within;
    var next := r + 1;
    forall i, j | 0 <= i < |labels| && j in Within(images, |labels|, i, next)
      ensures Round(images, labels)[i] <= j
    {
      RoundCovers(images, labels, r, i, j);
    }
  }

  lemma RoundCovers(images: seq<seq<nat>>, labels: Labels, r: nat, i: nat, j: nat)
    requires ValidImages(images, |labels|) && Sound(images, labels) && Covers(images, labels, r)
    requires i < |labels| && j in Within(images, |labels|, i, r + 1)
    ensures Round(images, labels)[i] <= j
  {
    if i != j {
      var g: nat :| g < |images| && Reaches(images, |labels|, images[g][i], j, r);
      assert j in Within(images, |labels|, images[g][i], r);
      RoundSeesEveryStep(images, labels, g, i);
    }
  }

  /** Every orbit has at most `m` members. */
  ghost predicate OrbitsBoundedBy(images: seq<seq<nat>>, n: nat, m: nat)
    requires ValidImages(images, n)
  {
    m > 0 && forall i :: 0 <= i < n ==> |Orbit(images, n, i)| <= m
  }

  /** After (largest orbit size - 1) passes the labels are final, whatever the generators. */
  lemma {:induction false} ConvergesWithinLargestOrbit(images: seq<seq<nat>>, n: nat, m: nat, r: nat)
    requires ValidImages(images, n) && OrbitsBoundedBy(images, n, m) && r + 1 >= m
    ensures Rounds(images, n, r) == OrbitMinima(images, n)
  {
    var labels := Rounds(images, n, r);
    RoundsCover(images, n, r);
    forall i | 0 <= i < n ensures labels[i] == OrbitMinimum(images, n, i) {
      var least := OrbitMinimum(images, n, i);
      ForwardStepsReachOrbit(images, n, i, r);
      OrbitMember(images, n, i, labels[i]);
      assert least in Within(images, n, i, r);
    }
  }

  // ---- What the table says ----

  /** Two positions carry the same label exactly when they share an orbit. */
  lemma SameLabelIffSameOrbit(images: seq<seq<nat>>, n: nat, i: nat, j: nat)
    requires ValidImages(images, n) && i < n && j < n
    ensures OrbitMinima(images, n)[i] == OrbitMinima(images, n)[j] <==> SameOrbit(images, n, i, j)
  {
    var labels := OrbitMinima(images, n);
    if SameOrbit(images, n, i, j) {
      OrbitsCoincide(images, n, i, j);
    } else if labels[i] == labels[j] {
      OrbitMember(images, n, i, labels[i]);
      OrbitMember(images, n, j, labels[i]);
      SameOrbitSymmetric(images, n, j, labels[i]);
      SameOrbitTransitive(images, n, i, labels[i], j);
    }
  }

  /** Every label is a member of the orbit it labels, the least one, and labels itself. */
  lemma LabelsAreRepresentatives(images: seq<seq<nat>>, n: nat, i: nat)
    requires ValidImages(images, n) && i < n
    ensures var labels := OrbitMinima(images, n);
            && labels[i] <= i
            && SameOrbit(images, n, i, labels[i])
            && labels[labels[i]] == labels[i]
            && (forall j :: SameOrbit(images, n, i, j) ==> labels[i] <= j)
  {
    var labels := OrbitMinima(images, n);
    OrbitMember(images, n, i, labels[i]);
    SameLabelIffSameOrbit(images, n, i, labels[i]);
    forall j | SameOrbit(images, n, i, j) ensures labels[i] <= j { OrbitMember(images, n, i, j); }
  }
}
