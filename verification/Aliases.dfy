/** Alias chains: a pointer chase guarded against cycles, and the grouping built on it. */
module Aliases {

  type Name = string
  type AliasMap = map<Name, Name>

  function Next(m: AliasMap, x: Name): Name { if x in m then m[x] else x }

  /** The name `k` aliases down the chain; the end of a chain repeats. */
  function Follow(m: AliasMap, name: Name, k: nat): Name {
    if k == 0 then name else Next(m, Follow(m, name, k - 1))
  }

  /** Every name a chase can meet. */
  ghost function Universe(m: AliasMap, name: Name): set<Name> { m.Keys + m.Values + {name} }

  ghost function Visited(m: AliasMap, name: Name, k: nat): set<Name> {
    if k == 0 then {name} else Visited(m, name, k - 1) + {Follow(m, name, k)}
  }

  lemma {:induction false} VisitedMember(m: AliasMap, name: Name, k: nat, i: nat)
    requires i <= k
    ensures Follow(m, name, i) in Visited(m, name, k)
  {
    if k > i { VisitedMember(m, name, k - 1, i); }
  }

  lemma {:induction false} VisitedIndex(m: AliasMap, name: Name, k: nat, x: Name) returns (i: nat)
    requires x in Visited(m, name, k)
    ensures i <= k && Follow(m, name, i) == x
  {
    if x == Follow(m, name, k) { i := k; } else { i := VisitedIndex(m, name, k - 1, x); }
  }

  /** The visited names are the first `k + 1` names of the chain, all different, all but the last mapped. */
  ghost predicate Chased(m: AliasMap, name: Name, k: nat, seen: set<Name>) {
    && seen == Visited(m, name, k)
    && (forall i, j :: 0 <= i < j <= k ==> Follow(m, name, i) != Follow(m, name, j))
    && (forall i :: 0 <= i < k ==> Follow(m, name, i) in m)
  }

  /** The chase stops at step `k`: the name is unmapped, or its alias has been visited. */
  ghost predicate StopsAt(m: AliasMap, name: Name, k: nat) {
    && (forall i, j :: 0 <= i < j <= k ==> Follow(m, name, i) != Follow(m, name, j))
    && (forall i :: 0 <= i < k ==> Follow(m, name, i) in m)
    && (Follow(m, name, k) in m ==> exists i :: 0 <= i <= k && Follow(m, name, k + 1) == Follow(m, name, i))
  }

  method ResolveCanonicalName(name: Name, m: AliasMap) returns (current: Name)
    ensures current == Resolve(m, name)
  {
    current := name;
    var seen := {current};
    ghost var k: nat := 0;
    while current in m && m[current] !in seen
      invariant current == Follow(m, name, k) && Chased(m, name, k, seen)
      invariant seen <= Universe(m, name)
      decreases Universe(m, name) - seen
    {
      assert m[current] in m.Values;
      ChaseStep(m, name, k, seen);
      current := m[current];
      seen := seen + {current};
      k := k + 1;
    }
    ChaseStop(m, name, k, seen);
    ResolveIs(m, name, k);
  }

  lemma ChaseStep(m: AliasMap, name: Name, k: nat, seen: set<Name>)
    requires Chased(m, name, k, seen)
    requires Follow(m, name, k) in m && m[Follow(m, name, k)] !in seen
    ensures Chased(m, name, k + 1, seen + {m[Follow(m, name, k)]})
  {
    var next := Follow(m, name, k + 1);
    forall i: nat | i <= k ensures Follow(m, name, i) != next { VisitedMember(m, name, k, i); }
  }

  lemma ChaseStop(m: AliasMap, name: Name, k: nat, seen: set<Name>)
    requires Chased(m, name, k, seen)
    requires !(Follow(m, name, k) in m && m[Follow(m, name, k)] !in seen)
    ensures StopsAt(m, name, k)
  {
    if Follow(m, name, k) in m {
      var i := VisitedIndex(m, name, k, Follow(m, name, k + 1));
    }
  }

  /** There is only one place to stop. */
  lemma StopIsUnique(m: AliasMap, name: Name, k: nat, l: nat)
    requires StopsAt(m, name, k) && StopsAt(m, name, l)
    ensures k == l
  {
    if k < l {
      StopExcludesLater(m, name, k, l);
    } else if l < k {
      StopExcludesLater(m, name, l, k);
    }
  }

  lemma StopExcludesLater(m: AliasMap, name: Name, k: nat, l: nat)
    requires StopsAt(m, name, k) && k < l
    ensures !StopsAt(m, name, l)
  {
    if Follow(m, name, k) in m {
      var i :| 0 <= i <= k && Follow(m, name, k + 1) == Follow(m, name, i);
      assert i < k + 1 <= l;
    }
  }

  // ---- Resolution as a function of the map ----

  ghost function Resolve(m: AliasMap, name: Name): Name {
    StopExists(m, name);
    var k: nat :| StopsAt(m, name, k);
    Follow(m, name, k)
  }

  /** On every finite map, cyclic ones included, the chase stops. */
  lemma StopExists(m: AliasMap, name: Name)
    ensures exists k: nat :: StopsAt(m, name, k)
  {
    var current, seen, k: nat := name, {name}, 0;
    while current in m && m[current] !in seen
      invariant current == Follow(m, name, k) && Chased(m, name, k, seen)
      invariant seen <= Universe(m, name)
      decreases Universe(m, name) - seen
    {
      assert m[current] in m.Values;
      ChaseStep(m, name, k, seen);
      current, seen, k := m[current], seen + {m[current]}, k + 1;
    }
    ChaseStop(m, name, k, seen);
  }

  lemma ResolveIs(m: AliasMap, name: Name, k: nat)
    requires StopsAt(m, name, k)
    ensures Resolve(m, name) == Follow(m, name, k)
  {
    var l: nat :| StopsAt(m, name, l) && Resolve(m, name) == Follow(m, name, l);
    StopIsUnique(m, name, k, l);
  }

  /** The chain ends in an unmapped name. */
  ghost predicate Ends(m: AliasMap, name: Name) { exists k: nat :: Follow(m, name, k) !in m }

  /** ... or settles on a name that is its own alias. */
  ghost predicate Settles(m: AliasMap, name: Name) {
    exists k: nat :: Next(m, Follow(m, name, k)) == Follow(m, name, k)
  }

  lemma {:induction false} FixedTail(m: AliasMap, name: Name, k: nat, l: nat)
    requires k <= l && Next(m, Follow(m, name, k)) == Follow(m, name, k)
    ensures Follow(m, name, l) == Follow(m, name, k)
    decreases l
  {
    if k < l { FixedTail(m, name, k, l - 1); }
  }

  /** Once the chase has stopped, the chain meets no new name. */
  lemma {:induction false} NothingNew(m: AliasMap, name: Name, k: nat, l: nat) returns (i: nat)
    requires StopsAt(m, name, k)
    ensures i <= k && Follow(m, name, i) == Follow(m, name, l)
    decreases l
  {
    if l <= k {
      i := l;
    } else {
      var j := NothingNew(m, name, k, l - 1);
      if j < k {
        i := j + 1;
      } else if Follow(m, name, k) in m {
        i :| 0 <= i <= k && Follow(m, name, k + 1) == Follow(m, name, i);
      } else {
        i := k;
      }
    }
  }

  /** Resolution ends outside the map exactly when the chain does, and then at its only unmapped name. */
  lemma ResolveFindsTheEnd(m: AliasMap, name: Name)
    ensures Resolve(m, name) !in m <==> Ends(m, name)
    ensures forall k: nat :: Follow(m, name, k) !in m ==> Follow(m, name, k) == Resolve(m, name)
  {
    StopExists(m, name);
    var k: nat :| StopsAt(m, name, k);
    ResolveIs(m, name, k);
    forall l: nat | Follow(m, name, l) !in m ensures Follow(m, name, l) == Resolve(m, name) {
      var i := NothingNew(m, name, k, l);
    }
  }

  lemma StopAtStart(m: AliasMap, name: Name)
    ensures StopsAt(m, name, 0) <==> Next(m, name) == name
  {
    assert Follow(m, name, 0) == name && Follow(m, name, 1) == Next(m, name);
  }

  /** A resolved name resolves to itself exactly when it is unmapped or its own alias. */
  lemma ResolvesToItself(m: AliasMap, name: Name)
    ensures Resolve(m, name) == name <==> Next(m, name) == name
  {
    StopExists(m, name);
    var k: nat :| StopsAt(m, name, k);
    ResolveIs(m, name, k);
    StopAtStart(m, name);
    if Next(m, name) == name {
      StopIsUnique(m, name, 0, k);
    } else {
      assert k > 0;
      assert Follow(m, name, 0) != Follow(m, name, k);
    }
  }

  /**
   * Resolving twice changes nothing exactly when the chain ends or runs into a name that is its own
   * alias.
   */
  lemma IdempotentIffSettles(m: AliasMap, name: Name)
    ensures Resolve(m, Resolve(m, name)) == Resolve(m, name) <==> Settles(m, name)
  {
    StopExists(m, name);
    var k: nat :| StopsAt(m, name, k);
    ResolveIs(m, name, k);
    var r := Follow(m, name, k);
    ResolvesToItself(m, r);
    if Settles(m, name) {
      var l: nat :| Next(m, Follow(m, name, l)) == Follow(m, name, l);
      var i := NothingNew(m, name, k, l);
      FixedTail(m, name, i, k);
    }
  }

  /** On a chain that ends, resolution is idempotent. */
  lemma EndsMeansIdempotent(m: AliasMap, name: Name)
    requires Ends(m, name)
    ensures Resolve(m, Resolve(m, name)) == Resolve(m, name)
  {
    var k: nat :| Follow(m, name, k) !in m;
    assert Next(m, Follow(m, name, k)) == Follow(m, name, k);
    IdempotentIffSettles(m, name);
  }

  lemma {:induction false} FollowFrom(m: AliasMap, name: Name, k: nat, l: nat)
    ensures Follow(m, Follow(m, name, k), l) == Follow(m, name, k + l)
  {
    if l > 0 { FollowFrom(m, name, k, l - 1); }
  }

  /** Once the chain closes, it goes round: a lap of `k + 1 - i` names later it is where it was. */
  lemma {:induction false} GoesRound(m: AliasMap, name: Name, k: nat, i: nat, l: nat)
    requires i <= k && Follow(m, name, k + 1) == Follow(m, name, i)
    ensures Follow(m, name, k + 1 + l) == Follow(m, name, i + l)
  {
    if l > 0 { GoesRound(m, name, k, i, l - 1); }
  }

  /** The chase restarted on a cycle of two or more names stops one name short of a lap. */
  lemma RestartStops(m: AliasMap, name: Name, k: nat, i: nat)
    requires StopsAt(m, name, k) && Follow(m, name, k) in m
    requires i < k && Follow(m, name, k + 1) == Follow(m, name, i)
    ensures StopsAt(m, Follow(m, name, k), k - i)
    ensures Follow(m, Follow(m, name, k), k - i) == Follow(m, name, k - 1)
  {
    var r := Follow(m, name, k);
    forall l: nat | 0 < l <= k - i + 1 ensures Follow(m, r, l) == Follow(m, name, i + l - 1) {
      FollowFrom(m, name, k, l);
      GoesRound(m, name, k, i, l - 1);
    }
    assert Follow(m, r, 0) == r;
    assert Follow(m, r, k - i + 1) == Follow(m, r, 0);
  }

  /**
   * On a cycle of two or more names the second resolution goes round to the name before the first
   * result.
   */
  lemma SecondResolutionOnCycle(m: AliasMap, name: Name, k: nat, i: nat)
    requires StopsAt(m, name, k) && Follow(m, name, k) in m
    requires i < k && Follow(m, name, k + 1) == Follow(m, name, i)
    ensures Resolve(m, name) == Follow(m, name, k)
    ensures Resolve(m, Resolve(m, name)) == Follow(m, name, k - 1) != Resolve(m, name)
  {
    ResolveIs(m, name, k);
    RestartStops(m, name, k, i);
    ResolveIs(m, Follow(m, name, k), k - i);
    assert Follow(m, name, k - 1) != Follow(m, name, k);
  }

  lemma TwoCycleIsNotIdempotent()
    ensures var m := map["a" := "b", "b" := "a"];
            Resolve(m, "a") == "b" && Resolve(m, "b") == "a"
  {
    var m := map["a" := "b", "b" := "a"];
    assert "a" != "b";
    assert Follow(m, "a", 0) == "a" && Follow(m, "a", 1) == "b" && Follow(m, "a", 2) == "a";
    assert StopsAt(m, "a", 1);
    SecondResolutionOnCycle(m, "a", 1, 0);
  }

  // ---- Grouping ----

  /** `sorted(alias_map)`: every alias once. The order itself is a parameter. */
  ghost predicate ListsKeys(order: seq<Name>, m: AliasMap) {
    && (forall i, j :: 0 <= i < j < |order| ==> order[i] != order[j])
    && (forall a :: a in order <==> a in m)
  }

  ghost predicate BelongsTo(registry: set<Name>, m: AliasMap, alias: Name, canonical: Name) {
    Resolve(m, alias) == canonical && canonical != alias && canonical in registry
  }

  /** The aliases of `canonical`, in order. */
  ghost function Members(registry: set<Name>, m: AliasMap, order: seq<Name>, canonical: Name): seq<Name> {
    if order == [] then []
    else
      var before, last := order[..|order| - 1], order[|order| - 1];
      Members(registry, m, before, canonical) + if BelongsTo(registry, m, last, canonical) then [last] else []
  }

  /** A group for every canonical name that has members, holding exactly its members in order. */
  ghost predicate Grouped(registry: set<Name>, m: AliasMap, order: seq<Name>, groups: map<Name, seq<Name>>) {
    forall c :: GroupIs(groups, c, Members(registry, m, order, c))
  }

  ghost predicate GroupIs(groups: map<Name, seq<Name>>, c: Name, members: seq<Name>) {
    if c in groups then groups[c] == members && members != [] else members == []
  }

  method BuildAliasGroups(registry: set<Name>, m: AliasMap, order: seq<Name>) returns (groups: map<Name, seq<Name>>)
    requires ListsKeys(order, m)
    ensures Grouped(registry, m, order, groups)
  {
    groups := map[];
    for i := 0 to |order|
      invariant Grouped(registry, m, order[..i], groups)
    {
      var alias := order[i];
      var canonical := ResolveCanonicalName(alias, m);
      ghost var before, upTo := groups, order[..i + 1];
      assert upTo[..i] == order[..i];
      if canonical != alias && canonical in registry {
        groups := groups[canonical := (if canonical in groups then groups[canonical] else []) + [alias]];
      }
      forall c ensures GroupIs(groups, c, Members(registry, m, upTo, c)) {
        assert GroupIs(before, c, Members(registry, m, order[..i], c));
      }
    }
    assert order[..|order|] == order;
  }

  lemma {:induction false} MembersAre(registry: set<Name>, m: AliasMap, order: seq<Name>, c: Name, alias: Name)
    ensures alias in Members(registry, m, order, c) <==> alias in order && BelongsTo(registry, m, alias, c)
  {
    if order != [] {
      var before, last := order[..|order| - 1], order[|order| - 1];
      assert order == before + [last];
      MembersAre(registry, m, before, c, alias);
    }
  }

  /** Each alias with a registered canonical name other than itself is in exactly one group, its own. */
  lemma ExactlyOneGroup(registry: set<Name>, m: AliasMap, order: seq<Name>, groups: map<Name, seq<Name>>,
                        alias: Name, c: Name)
    requires ListsKeys(order, m) && Grouped(registry, m, order, groups)
    ensures c in groups && alias in groups[c]
       <==> alias in m && Resolve(m, alias) == c && c != alias && c in registry
  {
    MembersAre(registry, m, order, c, alias);
    assert GroupIs(groups, c, Members(registry, m, order, c));
  }

  /** `a` stands before `b` in the order. */
  ghost predicate StandsBefore(order: seq<Name>, a: Name, b: Name) {
    exists k, l :: 0 <= k < l < |order| && order[k] == a && order[l] == b
  }

  lemma StillBefore(order: seq<Name>, last: Name, a: Name, b: Name)
    ensures StandsBefore(order, a, b) ==> StandsBefore(order + [last], a, b)
    ensures a in order ==> StandsBefore(order + [last], a, last)
  {
    var more := order + [last];
    if StandsBefore(order, a, b) {
      var k, l :| 0 <= k < l < |order| && order[k] == a && order[l] == b;
      assert more[k] == a && more[l] == b;
    }
    if a in order {
      var k :| 0 <= k < |order| && order[k] == a;
      assert more[k] == a && more[|order|] == last;
    }
  }

  lemma {:induction false} MembersInOrder(registry: set<Name>, m: AliasMap, order: seq<Name>, c: Name, i: nat, j: nat)
    requires i < j < |Members(registry, m, order, c)|
    ensures StandsBefore(order, Members(registry, m, order, c)[i], Members(registry, m, order, c)[j])
  {
    hide BelongsTo, StandsBefore;
    var before, last := order[..|order| - 1], order[|order| - 1];
    var s, t := Members(registry, m, before, c), Members(registry, m, order, c);
    assert order == before + [last] && t[i] == s[i];
    StillBefore(before, last, t[i], t[j]);
    if j < |s| {
      MembersInOrder(registry, m, before, c, i, j);
    } else {
      assert s[i] in s;
      MembersAre(registry, m, before, c, t[i]);
    }
  }

  /** Each group lists its aliases in key order, none of them twice, and none is empty. */
  lemma GroupsKeepOrder(registry: set<Name>, m: AliasMap, order: seq<Name>, groups: map<Name, seq<Name>>, c: Name)
    requires ListsKeys(order, m) && Grouped(registry, m, order, groups) && c in groups
    ensures groups[c] != []
    ensures forall i, j :: 0 <= i < j < |groups[c]| ==>
              groups[c][i] != groups[c][j] && StandsBefore(order, groups[c][i], groups[c][j])
  {
    assert GroupIs(groups, c, Members(registry, m, order, c));
    forall i, j | 0 <= i < j < |groups[c]|
      ensures groups[c][i] != groups[c][j] && StandsBefore(order, groups[c][i], groups[c][j])
    {
      MembersInOrder(registry, m, order, c, i, j);
    }
  }
}
