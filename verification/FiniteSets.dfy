/** Cardinality facts about finite sets that the rest of the project counts with. */
module FiniteSets {

  ghost predicate InjectiveOn<T(!new), U>(f: T -> U, s: set<T>) {
    forall x, y {:trigger f(x), f(y)} :: x in s && y in s && f(x) == f(y) ==> x == y
  }

  /** An injective image is as large as its source. */
  lemma {:induction false} ImageCardinality<T(!new), U>(f: T -> U, s: set<T>, image: set<U>)
    requires InjectiveOn(f, s)
    requires forall x :: x in s ==> f(x) in image
    requires forall y :: y in image ==> exists x :: x in s && f(x) == y
    ensures |image| == |s|
  {
    if s == {} {
      assert image == {} by {
        if y :| y in image { assert false; }
      }
    } else {
      var x :| x in s;
      ImageCardinality(f, s - {x}, image - {f(x)});
    }
  }

  lemma {:induction false} SubsetCardinality<T>(small: set<T>, large: set<T>)
    requires small <= large
    ensures |small| <= |large|
    ensures |small| == |large| ==> small == large
  {
    if small == {} {
      if large != {} { var x :| x in large; }
    } else {
      var x :| x in small;
      SubsetCardinality(small - {x}, large - {x});
      if |small| == |large| { assert small == (large - {x}) + {x}; }
    }
  }

  /** An injection into a set needs room for its source. */
  lemma InjectionCardinality<T(!new), U>(f: T -> U, s: set<T>, t: set<U>)
    requires InjectiveOn(f, s) && forall x :: x in s ==> f(x) in t
    ensures |s| <= |t|
  {
    var image := set x | x in s :: f(x);
    ImageCardinality(f, s, image);
    SubsetCardinality(image, t);
  }

  /** An injection of a finite set into itself reaches all of it. */
  lemma SelfInjectionIsOnto<T(!new)>(f: T -> T, s: set<T>, x: T)
    requires InjectiveOn(f, s) && (forall y :: y in s ==> f(y) in s) && x in s
    ensures exists y :: y in s && f(y) == x
  {
    var image := set y | y in s :: f(y);
    ImageCardinality(f, s, image);
    SubsetCardinality(image, s);
    assert x in image;
  }

  // ---- Sequences without repetition ----

  ghost predicate Distinct<T>(s: seq<T>) { forall i, j :: 0 <= i < j < |s| ==> s[i] != s[j] }

  ghost predicate Disjoint<T>(s: seq<T>, t: seq<T>) { forall x :: x in s ==> x !in t }

  ghost function Members<T(!new)>(s: seq<T>): (r: set<T>)
    ensures forall x :: x in r <==> x in s
  {
    set x | x in s
  }

  /** A sequence without repetition has as many members as positions. */
  lemma {:induction false} DistinctCount<T(!new)>(s: seq<T>)
    requires Distinct(s)
    ensures |Members(s)| == |s|
  {
    if s != [] {
      DistinctCount(s[1..]);
      assert Members(s) == {s[0]} + Members(s[1..]);
    }
  }

  lemma DistinctTogether<T>(s: seq<T>, t: seq<T>)
    requires Distinct(s) && Distinct(t) && Disjoint(s, t)
    ensures Distinct(s + t)
  {
    forall i, j | 0 <= i < j < |s + t| ensures (s + t)[i] != (s + t)[j] {
      if i < |s| <= j { assert s[i] in s && t[j - |s|] in t; }
    }
  }

  lemma DistinctParts<T>(s: seq<T>, t: seq<T>)
    requires Distinct(s + t)
    ensures Distinct(s) && Distinct(t) && Disjoint(s, t)
  {
    forall i, j | 0 <= i < j < |s| ensures s[i] != s[j] { assert (s + t)[i] != (s + t)[j]; }
    forall i, j | 0 <= i < j < |t| ensures t[i] != t[j] { assert (s + t)[|s| + i] != (s + t)[|s| + j]; }
    forall a | a in s ensures a !in t {
      var i :| 0 <= i < |s| && s[i] == a;
      forall j | 0 <= j < |t| ensures t[j] != a { assert (s + t)[i] != (s + t)[|s| + j]; }
    }
  }

  // ---- Naturals ----

  /** The integers of a half-open interval, as a set. */
  ghost function Interval(lo: int, hi: int): (s: set<int>)
    ensures forall i :: i in s <==> lo <= i < hi
    ensures |s| == if lo <= hi then hi - lo else 0
    decreases hi - lo
  {
    if lo >= hi then {} else Interval(lo, hi - 1) + {hi - 1}
  }

  /** The naturals below `n`, as a set. */
  ghost function Indices(n: nat): (s: set<nat>)
    ensures forall i: nat :: i in s <==> i < n
    ensures |s| == n
  {
    if n == 0 then {} else Indices(n - 1) + {n - 1}
  }

  ghost predicate IsLeast(m: nat, s: set<nat>) { m in s && forall x :: x in s ==> m <= x }

  /** The least member of a non-empty set of naturals. */
  ghost function Least(s: set<nat>): (m: nat)
    requires s != {}
    ensures IsLeast(m, s)
  {
    var a :| a in s;
    LeastExists(s, a);
    var m :| IsLeast(m, s);
    m
  }

  lemma {:induction false} LeastExists(s: set<nat>, a: nat)
    requires a in s
    ensures exists m :: IsLeast(m, s)
    decreases a
  {
    if b :| b in s && b < a {
      LeastExists(s, b);
    } else {
      assert IsLeast(a, s);
    }
  }

  // ---- Sets of tuples ----

  /** Every tuple of `s` with `v` put in front. */
  ghost function Prefixed(v: nat, s: set<seq<nat>>): (r: set<seq<nat>>)
    ensures |r| == |s|
  {
    var f := (t: seq<nat>) => [v] + t;
    var r := set t | t in s :: f(t);
    assert InjectiveOn(f, s) by {
      forall x, y {:trigger f(x), f(y)} | x in s && y in s && f(x) == f(y) ensures x == y {
        assert x == f(x)[1..] && y == f(y)[1..];
      }
    }
    ImageCardinality(f, s, r);
    r
  }

  lemma PrefixedMember(v: nat, s: set<seq<nat>>, t: seq<nat>)
    ensures t in Prefixed(v, s) <==> t != [] && t[0] == v && t[1..] in s
  {
    if t != [] && t[0] == v { assert t == [v] + t[1..]; }
    forall u | u in s ensures ([v] + u)[1..] == u {}
  }
}
