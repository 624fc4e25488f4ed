/**
 * The group generated by array forms on tensor axes, and its action on flat positions.
 *
 * A group element is a word in the generators and their inverses; it has an array form (a
 * permutation of the axes it acts on) and a flat image. The two descriptions agree, so orbits of
 * flat positions are orbits of the group of axis permutations.
 */
module SymmetryGroups {
  import opened Options
  import opened Permutations
  import opened Orbits
  import opened RowMajor
  import opened AxisActions

  /** Flat images of all generators. */
  ghost function Images(shape: Shape, action: Action): (images: seq<seq<nat>>)
    requires ValidAction(shape, action)
    ensures |images| == |action.forms| && ValidImages(images, Size(shape))
  {
    var images := seq(|action.forms|, g requires 0 <= g < |action.forms| =>
      FormImage(shape, action.axes, action.forms[g]));
    images
  }

  /** Flat image of one array form. */
  ghost function FormImage(shape: Shape, axes: seq<nat>, form: seq<nat>): (image: seq<nat>)
    requires ValidForm(shape, axes, form)
    ensures |image| == Size(shape) && IsPermutation(image)
  {
    AxisPermutationKeepsShape(shape, axes, form);
    FlatImageIsPermutation(shape, AxisPermutation(|shape|, axes, form));
    FlatImage(shape, AxisPermutation(|shape|, axes, form))
  }

  // ---- Forms compose, invert, and act accordingly ----

  lemma ComposedFormIsValid(shape: Shape, axes: seq<nat>, p: seq<nat>, q: seq<nat>)
    requires ValidForm(shape, axes, p) && ValidForm(shape, axes, q)
    ensures ValidForm(shape, axes, Compose(p, q))
  {
    ComposeIsPermutation(p, q);
  }

  lemma InverseFormIsValid(shape: Shape, axes: seq<nat>, p: seq<nat>)
    requires ValidForm(shape, axes, p)
    ensures ValidForm(shape, axes, Inverse(p))
  {
    var q := Inverse(p);
    forall i | 0 <= i < |axes| ensures shape[axes[i]] == shape[axes[q[i]]] {
      assert shape[axes[q[i]]] == shape[axes[p[q[i]]]];
    }
  }

  lemma IdentityFormIsValid(shape: Shape, axes: seq<nat>, form: seq<nat>)
    requires ValidForm(shape, axes, form)
    ensures ValidForm(shape, axes, Identity(|axes|))
  {
  }

  lemma AxisPermutationComposes(shape: Shape, axes: seq<nat>, p: seq<nat>, q: seq<nat>)
    requires ValidForm(shape, axes, p) && ValidForm(shape, axes, q)
    ensures AxisPermutation(|shape|, axes, Compose(p, q))
         == Compose(AxisPermutation(|shape|, axes, p), AxisPermutation(|shape|, axes, q))
  {
    ComposedFormIsValid(shape, axes, p, q);
    AxisPermutationKeepsShape(shape, axes, p);
    AxisPermutationKeepsShape(shape, axes, q);
    var ap, aq := AxisPermutation(|shape|, axes, p), AxisPermutation(|shape|, axes, q);
    var ar := AxisPermutation(|shape|, axes, Compose(p, q));
    forall a | 0 <= a < |shape| ensures ar[a] == ap[aq[a]] {
      if a in axes {
        var i := Position(axes, a);
        AxisPermutationAt(shape, axes, q, i);
        AxisPermutationAt(shape, axes, p, q[i]);
        AxisPermutationAt(shape, axes, Compose(p, q), i);
      }
    }
  }

  lemma FormImageComposes(shape: Shape, axes: seq<nat>, p: seq<nat>, q: seq<nat>, k: nat)
    requires ValidForm(shape, axes, p) && ValidForm(shape, axes, q) && k < Size(shape)
    ensures ValidForm(shape, axes, Compose(p, q))
    ensures FormImage(shape, axes, Compose(p, q))[k]
         == FormImage(shape, axes, p)[FormImage(shape, axes, q)[k]]
  {
    ComposedFormIsValid(shape, axes, p, q);
    AxisPermutationKeepsShape(shape, axes, p);
    AxisPermutationKeepsShape(shape, axes, q);
    AxisPermutationComposes(shape, axes, p, q);
    FlatImageOfComposition(shape, AxisPermutation(|shape|, axes, p), AxisPermutation(|shape|, axes, q), k);
  }

  lemma FormImageOfIdentity(shape: Shape, axes: seq<nat>, k: nat)
    requires ValidForm(shape, axes, Identity(|axes|)) && k < Size(shape)
    ensures FormImage(shape, axes, Identity(|axes|))[k] == k
  {
    assert AxisPermutation(|shape|, axes, Identity(|axes|)) == Identity(|shape|);
    FlatImageOfIdentity(shape, k);
  }

  lemma FormImageOfInverse(shape: Shape, axes: seq<nat>, p: seq<nat>, k: nat)
    requires ValidForm(shape, axes, p) && k < Size(shape)
    ensures ValidForm(shape, axes, Inverse(p))
    ensures FormImage(shape, axes, Inverse(p))[k] == Inverse(FormImage(shape, axes, p))[k]
  {
    InverseFormIsValid(shape, axes, p);
    IdentityFormIsValid(shape, axes, p);
    FormImageComposes(shape, axes, p, Inverse(p), k);
    assert Compose(p, Inverse(p)) == Identity(|axes|);
    FormImageOfIdentity(shape, axes, k);
    var image := FormImage(shape, axes, p);
    assert image[FormImage(shape, axes, Inverse(p))[k]] == image[Inverse(image)[k]];
  }

  // ---- Words ----

  ghost function LetterForm(shape: Shape, action: Action, a: Letter): (form: seq<nat>)
    requires ValidAction(shape, action) && a.g < |action.forms|
    ensures ValidForm(shape, action.axes, form)
  {
    match a
    case Step(g) => action.forms[g]
    case Back(g) => InverseFormIsValid(shape, action.axes, action.forms[g]); Inverse(action.forms[g])
  }

  /** The array form spelled by a word; `w[0]` acts first. */
  ghost function WordForm(shape: Shape, action: Action, w: Word): (form: seq<nat>)
    requires ValidAction(shape, action) && ValidWord(|action.forms|, w)
    ensures ValidForm(shape, action.axes, form)
    decreases |w|
  {
    if w == [] then Identity(action.degree)
    else
      ComposedFormIsValid(shape, action.axes, WordForm(shape, action, w[1..]), LetterForm(shape, action, w[0]));
      Compose(WordForm(shape, action, w[1..]), LetterForm(shape, action, w[0]))
  }

  lemma LetterFormActs(shape: Shape, action: Action, a: Letter, k: nat)
    requires ValidAction(shape, action) && a.g < |action.forms| && k < Size(shape)
    ensures FormImage(shape, action.axes, LetterForm(shape, action, a))[k]
         == ActLetter(Images(shape, action), Size(shape), a, k)
  {
    if a.Back? { FormImageOfInverse(shape, action.axes, action.forms[a.g], k); }
  }

  /** The flat image of a composed array form is the composition of the flat images. */
  lemma {:induction false} WordFormActs(shape: Shape, action: Action, w: Word, k: nat)
    requires ValidAction(shape, action) && ValidWord(|action.forms|, w) && k < Size(shape)
    ensures FormImage(shape, action.axes, WordForm(shape, action, w))[k]
         == Act(Images(shape, action), Size(shape), w, k)
    decreases |w|
  {
    if w == [] {
      FormImageOfIdentity(shape, action.axes, k);
    } else {
      var rest, first := WordForm(shape, action, w[1..]), LetterForm(shape, action, w[0]);
      FormImageComposes(shape, action.axes, rest, first, k);
      LetterFormActs(shape, action, w[0], k);
      WordFormActs(shape, action, w[1..], ActLetter(Images(shape, action), Size(shape), w[0], k));
    }
  }

  /** `form` is an element of the group generated by `action.forms`. */
  ghost predicate InGroup(shape: Shape, action: Action, form: seq<nat>)
    requires ValidAction(shape, action)
  {
    exists w :: ValidWord(|action.forms|, w) && WordForm(shape, action, w) == form
  }

  lemma GeneratorInGroup(shape: Shape, action: Action, g: nat)
    requires ValidAction(shape, action) && g < |action.forms|
    ensures InGroup(shape, action, action.forms[g])
  {
    var w := [Step(g)];
    assert w[1..] == [];
    assert Compose(Identity(action.degree), action.forms[g]) == action.forms[g];
    assert ValidWord(|action.forms|, w) && WordForm(shape, action, w) == action.forms[g];
  }

  /** Some element of the group of axis permutations carries flat position `i` to `j`. */
  ghost predicate Related(shape: Shape, action: Action, i: nat, j: nat)
    requires ValidAction(shape, action) && i < Size(shape)
  {
    exists form :: InGroup(shape, action, form) && ValidForm(shape, action.axes, form)
                && FormImage(shape, action.axes, form)[i] == j
  }

  /** Orbits computed from flat generator images are orbits of the group of axis permutations. */
  lemma {:induction false} RelatedIffSameOrbit(shape: Shape, action: Action, i: nat, j: nat)
    requires ValidAction(shape, action) && i < Size(shape)
    ensures Related(shape, action, i, j) <==> SameOrbit(Images(shape, action), Size(shape), i, j)
  {
    if Related(shape, action, i, j) {
      var form :| InGroup(shape, action, form) && ValidForm(shape, action.axes, form)
               && FormImage(shape, action.axes, form)[i] == j;
      var w :| ValidWord(|action.forms|, w) && WordForm(shape, action, w) == form;
      WordFormActs(shape, action, w, i);
    }
    if SameOrbit(Images(shape, action), Size(shape), i, j) {
      var w :| ValidWord(|action.forms|, w) && Act(Images(shape, action), Size(shape), w, i) == j;
      WordFormActs(shape, action, w, i);
      assert InGroup(shape, action, WordForm(shape, action, w));
    }
  }

  // ---- Identity generators ----

  datatype SymmetryGroup = SymmetryGroup(axes: Option<seq<nat>>, degree: nat, generators: seq<seq<nat>>)

  /** Axes acted on; a group without axes acts on the leading ones. */
  function ResolvedAxes(group: SymmetryGroup): seq<nat> {
    match group.axes
    case Some(axes) => axes
    case None => Identity(group.degree)
  }

  function NonIdentity(forms: seq<seq<nat>>): seq<seq<nat>> {
    if forms == [] then []
    else (if forms[0] == Identity(|forms[0]|) then [] else [forms[0]]) + NonIdentity(forms[1..])
  }

  function FullAction(group: SymmetryGroup): Action {
    Action(ResolvedAxes(group), group.degree, group.generators)
  }

  /** Hashable identity of the action: identity generators are dropped. */
  function GeneratorFingerprint(group: SymmetryGroup): Action {
    Action(ResolvedAxes(group), group.degree, NonIdentity(group.generators))
  }

  lemma {:induction false} NonIdentityMembers(forms: seq<seq<nat>>, form: seq<nat>)
    ensures form in NonIdentity(forms) <==> form in forms && form != Identity(|form|)
  {
    if forms != [] { NonIdentityMembers(forms[1..], form); }
  }

  lemma FingerprintIsValid(shape: Shape, group: SymmetryGroup)
    requires ValidAction(shape, FullAction(group))
    ensures ValidAction(shape, GeneratorFingerprint(group))
  {
    var fp := GeneratorFingerprint(group);
    forall g | 0 <= g < |fp.forms| ensures ValidForm(shape, fp.axes, fp.forms[g]) {
      NonIdentityMembers(group.generators, fp.forms[g]);
    }
  }

  /** Every generator of `a` is a generator of `b` or the identity. */
  ghost predicate Covered(a: Action, b: Action) {
    a.axes == b.axes && a.degree == b.degree
    && forall g :: 0 <= g < |a.forms| ==> a.forms[g] in b.forms || a.forms[g] == Identity(a.degree)
  }

  lemma RespellLetter(shape: Shape, a: Action, b: Action, letter: Letter) returns (u: Letter)
    requires ValidAction(shape, a) && ValidAction(shape, b)
    requires letter.g < |a.forms| && a.forms[letter.g] in b.forms
    ensures u.g < |b.forms| && LetterForm(shape, b, u) == LetterForm(shape, a, letter)
  {
    var h :| 0 <= h < |b.forms| && b.forms[h] == a.forms[letter.g];
    u := if letter.Step? then Step(h) else Back(h);
  }

  lemma IdentityLetterIsIdle(shape: Shape, a: Action, letter: Letter, form: seq<nat>)
    requires ValidAction(shape, a) && letter.g < |a.forms| && a.forms[letter.g] == Identity(a.degree)
    requires ValidForm(shape, a.axes, form)
    ensures Compose(form, LetterForm(shape, a, letter)) == form
  {
    var id := a.forms[letter.g];
    InverseIsUnique(id, id);
    assert Compose(form, Identity(a.degree)) == form;
  }

  lemma {:induction false} RespellWord(shape: Shape, a: Action, b: Action, w: Word) returns (u: Word)
    requires ValidAction(shape, a) && ValidAction(shape, b) && Covered(a, b)
    requires ValidWord(|a.forms|, w)
    ensures ValidWord(|b.forms|, u) && WordForm(shape, b, u) == WordForm(shape, a, w)
    decreases |w|
  {
    hide LetterForm, Compose, IsPermutation, ValidForm;
    u := [];
    if w != [] {
      var rest := RespellWord(shape, a, b, w[1..]);
      if a.forms[w[0].g] in b.forms {
        var first := RespellLetter(shape, a, b, w[0]);
        u := [first] + rest;
        assert u[1..] == rest;
      } else {
        u := rest;
        IdentityLetterIsIdle(shape, a, w[0], WordForm(shape, a, w[1..]));
      }
    }
  }

  lemma CoveredGroup(shape: Shape, a: Action, b: Action, form: seq<nat>)
    requires ValidAction(shape, a) && ValidAction(shape, b) && Covered(a, b)
    requires InGroup(shape, a, form)
    ensures InGroup(shape, b, form)
  {
    var w :| ValidWord(|a.forms|, w) && WordForm(shape, a, w) == form;
    var u := RespellWord(shape, a, b, w);
  }

  /** Dropping identity generators from the fingerprint does not change the group. */
  lemma FingerprintKeepsGroup(shape: Shape, group: SymmetryGroup, form: seq<nat>)
    requires ValidAction(shape, FullAction(group))
    ensures ValidAction(shape, GeneratorFingerprint(group))
    ensures InGroup(shape, FullAction(group), form) <==> InGroup(shape, GeneratorFingerprint(group), form)
  {
    var full, fp := FullAction(group), GeneratorFingerprint(group);
    FingerprintIsValid(shape, group);
    assert Covered(full, fp) by {
      forall g | 0 <= g < |full.forms| ensures full.forms[g] in fp.forms || full.forms[g] == Identity(full.degree) {
        NonIdentityMembers(full.forms, full.forms[g]);
      }
    }
    assert Covered(fp, full) by {
      forall g | 0 <= g < |fp.forms| ensures fp.forms[g] in full.forms {
        NonIdentityMembers(full.forms, fp.forms[g]);
      }
    }
    if InGroup(shape, full, form) { CoveredGroup(shape, full, fp, form); }
    if InGroup(shape, fp, form) { CoveredGroup(shape, fp, full, form); }
  }
}
