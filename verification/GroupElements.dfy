/**
 * Listing a group from its generators: products on both sides until nothing new appears, within a
 * budget. What comes out is every element of the generated group, once.
 */
module GroupElements {
  import opened Options
  import opened Arithmetic
  import opened FiniteSets
  import opened Permutations
  import opened Orbits
  import opened RowMajor
  import opened AxisActions
  import opened SymmetryGroups

  type Form = seq<nat>

  datatype Error = BudgetExceeded

  // ---- The group is closed under products ----

  lemma ComposeAssociates(p: Form, q: Form, r: Form)
    requires IsPermutation(p) && IsPermutation(q) && IsPermutation(r) && |p| == |q| == |r|
    ensures |Compose(p, q)| == |p| && IsPermutation(Compose(p, q)) && IsPermutation(Compose(q, r))
    ensures Compose(Compose(p, q), r) == Compose(p, Compose(q, r))
  {
    ComposeIsPermutation(p, q);
    ComposeIsPermutation(q, r);
  }

  lemma ComposeIdentity(p: Form)
    requires IsPermutation(p)
    ensures Compose(Identity(|p|), p) == p && Compose(p, Identity(|p|)) == p
  {
  }

  /** The second word acts after the first. */
  lemma {:induction false} WordFormOfConcat(shape: Shape, action: Action, u: Word, w: Word)
    requires ValidAction(shape, action) && ValidWord(|action.forms|, u) && ValidWord(|action.forms|, w)
    ensures ValidWord(|action.forms|, u + w)
    ensures WordForm(shape, action, u + w) == Compose(WordForm(shape, action, w), WordForm(shape, action, u))
    decreases |u|
  {
    if u == [] {
      assert u + w == w;
      ComposeIdentity(WordForm(shape, action, w));
    } else {
      assert (u + w)[1..] == u[1..] + w && (u + w)[0] == u[0];
      WordFormOfConcat(shape, action, u[1..], w);
      ComposeAssociates(WordForm(shape, action, w), WordForm(shape, action, u[1..]), LetterForm(shape, action, u[0]));
    }
  }

  lemma IdentityInGroup(shape: Shape, action: Action)
    requires ValidAction(shape, action)
    ensures InGroup(shape, action, Identity(action.degree))
  {
    assert ValidWord(|action.forms|, []) && WordForm(shape, action, []) == Identity(action.degree);
  }

  lemma GroupFormIsValid(shape: Shape, action: Action, form: Form)
    requires ValidAction(shape, action) && InGroup(shape, action, form)
    ensures ValidForm(shape, action.axes, form)
  {
  }

  lemma GroupFormIsForm(shape: Shape, action: Action, form: Form)
    requires ValidAction(shape, action) && InGroup(shape, action, form)
    ensures |form| == action.degree && IsPermutation(form)
  {
    GroupFormIsValid(shape, action, form);
    hide InGroup;
  }

  lemma ProductInGroup(shape: Shape, action: Action, p: Form, q: Form)
    requires ValidAction(shape, action) && InGroup(shape, action, p) && InGroup(shape, action, q)
    ensures |p| == |q| == action.degree && IsPermutation(p) && IsPermutation(q)
    ensures InGroup(shape, action, Compose(p, q))
  {
    hide ValidAction, ValidForm, WordForm, ValidWord, Compose;
    GroupFormIsForm(shape, action, p);
    GroupFormIsForm(shape, action, q);
    var w :| ValidWord(|action.forms|, w) && WordForm(shape, action, w) == p;
    var u :| ValidWord(|action.forms|, u) && WordForm(shape, action, u) == q;
    WordFormOfConcat(shape, action, u, w);
  }

  // ---- A set closed under generators holds the group ----

  ghost predicate AllForms(s: set<Form>, n: nat) { forall x :: x in s ==> |x| == n && IsPermutation(x) }

  /** Every product of a member and `g`, on the right, is a member. */
  ghost predicate ClosedUnder(s: set<Form>, n: nat, g: Form)
    requires AllForms(s, n) && |g| == n && IsPermutation(g)
  {
    forall x :: x in s ==> Compose(x, g) in s
  }

  lemma ComposeCancels(x: Form, y: Form, g: Form)
    requires IsPermutation(x) && IsPermutation(y) && IsPermutation(g) && |x| == |y| == |g|
    requires Compose(x, g) == Compose(y, g)
    ensures x == y
  {
    forall i | 0 <= i < |x| ensures x[i] == y[i] {
      var j := Inverse(g)[i];
      assert Compose(x, g)[j] == x[i] && Compose(y, g)[j] == y[i];
    }
  }

  lemma ComposeUndone(y: Form, g: Form)
    requires IsPermutation(y) && IsPermutation(g) && |y| == |g|
    ensures |Compose(y, g)| == |g| && IsPermutation(Compose(y, g))
    ensures Compose(Compose(y, g), Inverse(g)) == y
  {
    ComposeIsPermutation(y, g);
  }

  function TimesRight(g: Form): Form -> Form {
    (y: Form) => if |y| == |g| && IsArrayForm(g) then Compose(y, g) else y
  }

  predicate IsArrayForm(g: Form) { forall i :: 0 <= i < |g| ==> g[i] < |g| }

  lemma TimesRightIsInjective(s: set<Form>, n: nat, g: Form)
    requires AllForms(s, n) && |g| == n && IsPermutation(g)
    ensures InjectiveOn(TimesRight(g), s)
  {
    var f := TimesRight(g);
    forall y, z {:trigger f(y), f(z)} | y in s && z in s && f(y) == f(z) ensures y == z {
      ComposeCancels(y, z, g);
    }
  }

  /** Finite and closed under `g` on the right, so closed under its inverse too. */
  lemma ClosedUnderInverse(s: set<Form>, n: nat, g: Form, x: Form)
    requires AllForms(s, n) && |g| == n && IsPermutation(g) && ClosedUnder(s, n, g) && x in s
    ensures Compose(x, Inverse(g)) in s
  {
    TimesRightIsInjective(s, n, g);
    SelfInjectionIsOnto(TimesRight(g), s, x);
    var y :| y in s && TimesRight(g)(y) == x;
    ComposeUndone(y, g);
  }

  lemma ClosedHoldsLetter(shape: Shape, action: Action, s: set<Form>, a: Letter, x: Form)
    requires ValidAction(shape, action) && AllForms(s, action.degree) && a.g < |action.forms| && x in s
    requires |action.forms[a.g]| == action.degree && IsPermutation(action.forms[a.g])
    requires ClosedUnder(s, action.degree, action.forms[a.g])
    ensures Compose(x, LetterForm(shape, action, a)) in s
  {
    hide ValidAction, ValidForm, IsPermutation;
    if a.Back? { ClosedUnderInverse(s, action.degree, action.forms[a.g], x); }
  }

  lemma GeneratorsAreForms(shape: Shape, action: Action)
    requires ValidAction(shape, action)
    ensures forall g :: 0 <= g < |action.forms| ==> |action.forms[g]| == action.degree && IsPermutation(action.forms[g])
  {
    forall g | 0 <= g < |action.forms|
      ensures |action.forms[g]| == action.degree && IsPermutation(action.forms[g])
    {
      assert ValidForm(shape, action.axes, action.forms[g]);
    }
  }

  lemma {:induction false} ClosedHoldsWords(shape: Shape, action: Action, s: set<Form>, w: Word)
    requires ValidAction(shape, action) && AllForms(s, action.degree) && Identity(action.degree) in s
    requires forall g :: 0 <= g < |action.forms| ==>
               |action.forms[g]| == action.degree && IsPermutation(action.forms[g])
    requires forall g :: 0 <= g < |action.forms| ==> ClosedUnder(s, action.degree, action.forms[g])
    requires ValidWord(|action.forms|, w)
    ensures WordForm(shape, action, w) in s
    decreases |w|
  {
    hide ValidAction, ValidForm, IsPermutation, AllForms, ClosedUnder, LetterForm, Identity, Compose;
    if w != [] {
      ClosedHoldsWords(shape, action, s, w[1..]);
      ClosedHoldsLetter(shape, action, s, w[0], WordForm(shape, action, w[1..]));
    }
  }

  // ---- The enumeration ----

  /** Distinct elements of the group, with their set. */
  ghost predicate Found(shape: Shape, action: Action, found: seq<Form>, seen: set<Form>)
    requires ValidAction(shape, action)
  {
    seen == Members(found) && Distinct(found) && forall x :: x in found ==> InGroup(shape, action, x)
  }

  /** A list of every element of the group, once. */
  ghost predicate ListsGroup(shape: Shape, action: Action, elements: seq<Form>)
    requires ValidAction(shape, action)
  {
    Distinct(elements) && forall form :: form in elements <==> InGroup(shape, action, form)
  }

  /** The group has more elements than the budget. */
  ghost predicate OverBudget(shape: Shape, action: Action, budget: nat)
    requires ValidAction(shape, action)
  {
    exists found :: |found| > budget && Found(shape, action, found, Members(found))
  }

  lemma FoundAreForms(shape: Shape, action: Action, found: seq<Form>, seen: set<Form>)
    requires ValidAction(shape, action) && Found(shape, action, found, seen)
    ensures AllForms(seen, action.degree) && |seen| == |found|
  {
    DistinctCount(found);
    forall x | x in seen ensures |x| == action.degree && IsPermutation(x) { GroupFormIsValid(shape, action, x); }
  }

  /** Every product of `x` with a generator on the right has been seen. */
  ghost predicate Multiplied(action: Action, seen: set<Form>, x: Form) {
    forall g :: 0 <= g < |action.forms| ==> TimesRight(action.forms[g])(x) in seen
  }

  /** All but the identity and what is pending has been multiplied. */
  ghost predicate Expanded(action: Action, seen: set<Form>, pending: seq<Form>) {
    forall x :: x in seen && x !in pending && x != Identity(action.degree) ==> Multiplied(action, seen, x)
  }

  lemma ExpandedIsClosed(n: nat, action: Action, seen: set<Form>, g: nat)
    requires AllForms(seen, n) && n == action.degree && Expanded(action, seen, []) && g < |action.forms|
    requires action.forms[g] in seen
    ensures ClosedUnder(seen, n, action.forms[g])
  {
    var form := action.forms[g];
    forall x | x in seen ensures Compose(x, form) in seen {
      if x == Identity(n) {
        ComposeIdentity(form);
      } else {
        assert Multiplied(action, seen, x);
        assert TimesRight(form)(x) in seen;
      }
    }
  }

  lemma ExpandedHoldsGroup(shape: Shape, action: Action, seen: set<Form>, form: Form)
    requires ValidAction(shape, action) && AllForms(seen, action.degree) && Expanded(action, seen, [])
    requires Identity(action.degree) in seen && forall g :: 0 <= g < |action.forms| ==> action.forms[g] in seen
    requires InGroup(shape, action, form)
    ensures form in seen
  {
    var w :| ValidWord(|action.forms|, w) && WordForm(shape, action, w) == form;
    GeneratorsAreForms(shape, action);
    hide Expanded, WordForm, Multiplied, ClosedUnder;
    forall g | 0 <= g < |action.forms| ensures ClosedUnder(seen, action.degree, action.forms[g]) {
      ExpandedIsClosed(action.degree, action, seen, g);
    }
    ClosedHoldsWords(shape, action, seen, w);
  }

  lemma ExpandedGroup(shape: Shape, action: Action, found: seq<Form>, seen: set<Form>)
    requires ValidAction(shape, action) && Found(shape, action, found, seen) && Expanded(action, seen, [])
    requires Identity(action.degree) in seen && forall g :: 0 <= g < |action.forms| ==> action.forms[g] in seen
    ensures ListsGroup(shape, action, found)
  {
    FoundAreForms(shape, action, found, seen);
    hide Expanded, InGroup, ValidAction, Distinct;
    forall form | InGroup(shape, action, form) ensures form in found {
      ExpandedHoldsGroup(shape, action, seen, form);
    }
  }

  lemma FoundOneMore(shape: Shape, action: Action, found: seq<Form>, seen: set<Form>, form: Form)
    requires ValidAction(shape, action) && Found(shape, action, found, seen)
    requires InGroup(shape, action, form) && form !in seen
    ensures Found(shape, action, found + [form], seen + {form})
  {
    hide ValidAction, InGroup;
  }

  /** One product: new ones are recorded, and counted against the budget. */
  method Note(ghost shape: Shape, ghost action: Action, budget: nat, product: Form, next: seq<Form>, seen: set<Form>,
              ghost found: seq<Form>)
    returns (within: bool, next': seq<Form>, seen': set<Form>)
    requires ValidAction(shape, action) && Found(shape, action, found + next, seen)
    requires InGroup(shape, action, product)
    ensures Found(shape, action, found + next', seen') && seen <= seen' && product in seen'
    ensures within ==> |seen'| <= Max(|seen|, budget)
    ensures !within ==> OverBudget(shape, action, budget)
  {
    within, next', seen' := true, next, seen;
    if product !in seen {
      FoundOneMore(shape, action, found + next, seen, product);
      seen', next' := seen + {product}, next + [product];
      assert found + next' == (found + next) + [product];
      within := |seen'| <= budget;
      if !within { FoundOverBudget(shape, action, budget, found + next', seen'); }
    }
  }

  lemma FoundOverBudget(shape: Shape, action: Action, budget: nat, found: seq<Form>, seen: set<Form>)
    requires ValidAction(shape, action) && Found(shape, action, found, seen) && |seen| > budget
    ensures OverBudget(shape, action, budget)
  {
    hide ValidAction, InGroup;
    DistinctCount(found);
    assert |found| > budget && Found(shape, action, found, Members(found));
  }

  /** The products of `x` with every generator, on either side. */
  method Multiply(ghost shape: Shape, action: Action, budget: nat, x: Form, next: seq<Form>, seen: set<Form>,
                  ghost found: seq<Form>)
    returns (within: bool, next': seq<Form>, seen': set<Form>)
    requires ValidAction(shape, action) && Found(shape, action, found + next, seen) && InGroup(shape, action, x)
    ensures Found(shape, action, found + next', seen') && seen <= seen'
    ensures within ==> |seen'| <= Max(|seen|, budget) && Multiplied(action, seen', x)
    ensures !within ==> OverBudget(shape, action, budget)
  {
    hide Found, InGroup, ValidAction;
    within, next', seen' := true, next, seen;
    for g := 0 to |action.forms|
      invariant Found(shape, action, found + next', seen') && seen <= seen'
      invariant |seen'| <= Max(|seen|, budget)
      invariant forall h :: 0 <= h < g ==> TimesRight(action.forms[h])(x) in seen'
    {
      var form := action.forms[g];
      GeneratorInGroup(shape, action, g);
      ProductInGroup(shape, action, x, form);
      ProductInGroup(shape, action, form, x);
      within, next', seen' := Note(shape, action, budget, Compose(x, form), next', seen', found);
      if !within { return; }
      within, next', seen' := Note(shape, action, budget, Compose(form, x), next', seen', found);
      if !within { return; }
    }
  }

  lemma MultipliedStays(action: Action, seen: set<Form>, more: set<Form>, x: Form)
    requires Multiplied(action, seen, x) && seen <= more
    ensures Multiplied(action, more, x)
  {
  }

  /** One round: every element of `batch` is multiplied, and what is new becomes the next batch. */
  method Spread(ghost shape: Shape, action: Action, budget: nat, batch: seq<Form>, seen: set<Form>,
                ghost found: seq<Form>)
    returns (within: bool, next: seq<Form>, seen': set<Form>)
    requires ValidAction(shape, action) && Found(shape, action, found, seen)
    requires forall x :: x in batch ==> InGroup(shape, action, x)
    ensures Found(shape, action, found + next, seen') && seen <= seen'
    ensures within ==> |seen'| <= Max(|seen|, budget) && forall x :: x in batch ==> Multiplied(action, seen', x)
    ensures !within ==> OverBudget(shape, action, budget)
  {
    hide Found, InGroup, ValidAction, Multiplied;
    within, next, seen' := true, [], seen;
    assert found + next == found;
    for k := 0 to |batch|
      invariant Found(shape, action, found + next, seen') && seen <= seen'
      invariant |seen'| <= Max(|seen|, budget)
      invariant forall j :: 0 <= j < k ==> Multiplied(action, seen', batch[j])
    {
      ghost var before := seen';
      within, next, seen' := Multiply(shape, action, budget, batch[k], next, seen', found);
      if !within { return; }
      forall j | 0 <= j < k ensures Multiplied(action, seen', batch[j]) {
        MultipliedStays(action, before, seen', batch[j]);
      }
    }
  }

  lemma ExpandedFurther(action: Action, seen: set<Form>, batch: seq<Form>, more: set<Form>, next: seq<Form>)
    requires Expanded(action, seen, batch) && seen <= more
    requires forall x :: x in batch ==> Multiplied(action, more, x)
    requires forall x :: x in more ==> x in seen || x in next
    ensures Expanded(action, more, next)
  {
    hide Multiplied;
    forall x | x in more && x !in next && x != Identity(action.degree) ensures Multiplied(action, more, x) {
      if x !in batch { MultipliedStays(action, seen, more, x); }
    }
  }

  /** All that products lead to from an element not seen before. */
  method Coset(ghost shape: Shape, action: Action, budget: nat, gen: Form, seen: set<Form>, ghost found: seq<Form>,
               ghost room: nat)
    returns (within: bool, coset: seq<Form>, seen': set<Form>)
    requires ValidAction(shape, action) && Found(shape, action, found, seen) && Expanded(action, seen, [])
    requires InGroup(shape, action, gen) && gen !in seen && |seen| < room && budget <= room
    ensures within ==> Found(shape, action, found + coset, seen') && Expanded(action, seen', [])
    ensures within ==> seen <= seen' && gen in seen' && |seen'| <= room
    ensures !within ==> OverBudget(shape, action, budget)
  {
    hide InGroup, ValidAction, Multiplied, Found, Expanded;
    coset, seen', within := [gen], seen + {gen}, true;
    var batch := [gen];
    FoundOneMore(shape, action, found, seen, gen);
    StillExpanded(action, seen, gen);
    while batch != []
      invariant Found(shape, action, found + coset, seen') && Expanded(action, seen', batch)
      invariant forall x :: x in batch ==> InGroup(shape, action, x)
      invariant seen <= seen' && gen in seen' && |seen'| <= room
      decreases room - |seen'|, |batch|
    {
      ghost var before := seen';
      var next;
      within, next, seen' := Spread(shape, action, budget, batch, seen', found + coset);
      if !within { return; }
      assert found + coset + next == found + (coset + next);
      NewOnes(shape, action, found + coset, before, next, seen');
      ExpandedFurther(action, before, batch, seen', next);
      batch := next;
      coset := coset + next;
    }
  }

  lemma StillExpanded(action: Action, seen: set<Form>, gen: Form)
    requires Expanded(action, seen, [])
    ensures Expanded(action, seen + {gen}, [gen])
  {
    hide Multiplied;
    forall x | x in seen && x != gen && x != Identity(action.degree) ensures Multiplied(action, seen + {gen}, x) {
      MultipliedStays(action, seen, seen + {gen}, x);
    }
  }

  lemma NewOnes(shape: Shape, action: Action, found: seq<Form>, seen: set<Form>, next: seq<Form>, more: set<Form>)
    requires ValidAction(shape, action) && Found(shape, action, found, seen) && Found(shape, action, found + next, more)
    ensures |more| == |seen| + |next|
    ensures forall x :: x in next ==> InGroup(shape, action, x)
    ensures forall x :: x in more ==> x in seen || x in next
  {
    hide InGroup, ValidAction;
    DistinctCount(found);
    DistinctCount(found + next);
  }

  /**
   * Every element of the generated group, once. It gives up only on a group of more elements than the
   * budget; generators are not counted against that, so a listing may exceed it by one for each.
   */
  method Dimino(ghost shape: Shape, action: Action, budget: nat) returns (r: Result<seq<Form>, Error>)
    requires ValidAction(shape, action)
    ensures r.Ok? ==> ListsGroup(shape, action, r.value) && |r.value| <= Max(1, budget) + |action.forms|
    ensures r.Err? ==> OverBudget(shape, action, budget)
  {
    hide InGroup, ValidAction, Multiplied, Found, Expanded, ListsGroup;
    var elements: seq<Form>, seen: set<Form> := [Identity(action.degree)], {Identity(action.degree)};
    OnlyTheIdentity(shape, action);
    for g := 0 to |action.forms|
      invariant Found(shape, action, elements, seen) && Expanded(action, seen, []) && Identity(action.degree) in seen
      invariant forall h :: 0 <= h < g ==> action.forms[h] in seen
      invariant |seen| <= Max(1, budget) + g
    {
      var gen := action.forms[g];
      if gen !in seen {
        GeneratorInGroup(shape, action, g);
        var within, coset;
        within, coset, seen := Coset(shape, action, budget, gen, seen, elements, Max(1, budget) + g + 1);
        if !within { return Err(BudgetExceeded); }
        elements := elements + coset;
      }
    }
    ExpandedGroup(shape, action, elements, seen);
    FoundAreForms(shape, action, elements, seen);
    return Ok(elements);
  }

  lemma OnlyTheIdentity(shape: Shape, action: Action)
    requires ValidAction(shape, action)
    ensures Found(shape, action, [Identity(action.degree)], {Identity(action.degree)})
    ensures Expanded(action, {Identity(action.degree)}, [])
  {
    IdentityInGroup(shape, action);
  }

  /** Over budget means that a full listing is longer than the budget. */
  lemma OverBudgetIff(shape: Shape, action: Action, budget: nat, elements: seq<Form>)
    requires ValidAction(shape, action) && ListsGroup(shape, action, elements)
    ensures OverBudget(shape, action, budget) <==> |elements| > budget
  {
    hide ValidAction, InGroup;
    if OverBudget(shape, action, budget) {
      var found :| |found| > budget && Found(shape, action, found, Members(found));
      DistinctCount(found);
      DistinctCount(elements);
      SubsetCardinality(Members(found), Members(elements));
    }
    if |elements| > budget { assert Found(shape, action, elements, Members(elements)); }
  }
}
