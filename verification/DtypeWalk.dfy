/**
 * The recursive dtype scan over nested sequences that may share members and refer to themselves.
 */
module DtypeWalk {
  import opened FiniteSets

  type Id = nat

  /** A value with a dtype, a bare leaf without one, or a list/tuple of values. */
  datatype Value = Typed(numeric: bool) | Leaf(numeric: bool) | Container(items: seq<Id>)

  /** A finite object graph, keyed by identity. */
  type Graph = map<Id, Value>

  ghost predicate Closed(g: Graph) {
    forall v, k :: v in g && g[v].Container? && 0 <= k < |g[v].items| ==> g[v].items[k] in g
  }

  ghost function Containers(g: Graph): set<Id> { set v | v in g && g[v].Container? }

  // ---- Reachability ----

  /** `b` is reached from `a` in exactly `n` membership steps. */
  ghost predicate Steps(g: Graph, a: Id, b: Id, n: nat)
    requires Closed(g) && a in g
    decreases n
  {
    if n == 0 then a == b
    else g[a].Container? && exists k :: 0 <= k < |g[a].items| && Steps(g, g[a].items[k], b, n - 1)
  }

  ghost predicate Reachable(g: Graph, a: Id, b: Id)
    requires Closed(g) && a in g
  {
    exists n: nat :: Steps(g, a, b, n)
  }

  /** `a` contains `b` at some depth below itself. */
  ghost predicate Inside(g: Graph, a: Id, b: Id)
    requires Closed(g) && a in g
  {
    exists n: nat :: n > 0 && Steps(g, a, b, n)
  }

  // ---- What the scan should find ----

  ghost predicate Refusable(g: Graph, v: Id)
    requires v in g
  {
    !g[v].Container? && !g[v].numeric
  }

  /** A container that contains itself at some depth is reachable from `root`. */
  ghost predicate HasCycle(g: Graph, root: Id)
    requires Closed(g) && root in g
  {
    exists c :: c in g && Reachable(g, root, c) && Inside(g, c, c)
  }

  /** A leaf to refuse is reachable; the root itself is exempt when it is bare. */
  ghost predicate HasRefusable(g: Graph, root: Id)
    requires Closed(g) && root in g
  {
    exists l :: l in g && Reachable(g, root, l) && Refusable(g, l) && !(l == root && g[l].Leaf?)
  }

  /** Containers fully scanned without complaint: off every cycle, members passing or done too. */
  ghost predicate Settled(g: Graph, done: set<Id>)
    requires Closed(g)
  {
    forall c :: c in done ==> SettledContainer(g, done, c)
  }

  ghost predicate SettledContainer(g: Graph, done: set<Id>, c: Id)
    requires Closed(g)
  {
    c in g && g[c].Container? && !Inside(g, c, c)
    && forall k :: 0 <= k < |g[c].items| ==> ItemDone(g, done, g[c].items[k])
  }

  ghost predicate ItemDone(g: Graph, done: set<Id>, v: Id) {
    v in g && if g[v].Container? then v in done else g[v].numeric
  }

  lemma {:induction false} SettledIsClosed(g: Graph, done: set<Id>, a: Id, b: Id, n: nat)
    requires Closed(g) && Settled(g, done) && ItemDone(g, done, a)
    requires Steps(g, a, b, n)
    ensures ItemDone(g, done, b)
    decreases n
  {
    if n > 0 {
      assert SettledContainer(g, done, a);
      var k :| 0 <= k < |g[a].items| && Steps(g, g[a].items[k], b, n - 1);
      SettledIsClosed(g, done, g[a].items[k], b, n - 1);
    }
  }

  /** A container whose members are all done is off every cycle, and can join the done ones. */
  lemma SettleOne(g: Graph, done: set<Id>, v: Id)
    requires Closed(g) && Settled(g, done) && v in g && g[v].Container? && v !in done
    requires forall k :: 0 <= k < |g[v].items| ==> ItemDone(g, done, g[v].items[k])
    ensures Settled(g, done + {v}) && ItemDone(g, done + {v}, v)
  {
    if Inside(g, v, v) {
      var n: nat :| n > 0 && Steps(g, v, v, n);
      var k :| 0 <= k < |g[v].items| && Steps(g, g[v].items[k], v, n - 1);
      SettledIsClosed(g, done, g[v].items[k], v, n - 1);
    }
    forall c | c in done + {v} ensures SettledContainer(g, done + {v}, c) {
      if c in done { assert SettledContainer(g, done, c); }
      forall k | 0 <= k < |g[c].items| ensures ItemDone(g, done + {v}, g[c].items[k]) {
        assert ItemDone(g, done, g[c].items[k]);
      }
    }
  }

  lemma SettledRootIsClean(g: Graph, done: set<Id>, root: Id)
    requires Closed(g) && Settled(g, done) && ItemDone(g, done, root)
    ensures !HasCycle(g, root) && !HasRefusable(g, root)
  {
    forall b, n: nat | b in g && Steps(g, root, b, n) ensures !Inside(g, b, b) && !Refusable(g, b) {
      SettledIsClosed(g, done, root, b, n);
      if g[b].Container? {
        assert SettledContainer(g, done, b);
      } else {
        assert forall m: nat :: m > 0 ==> !Steps(g, b, b, m);
      }
    }
  }

  // ---- Nesting ----

  /** A simple chain of containers from the root, each a member of the one before. */
  ghost predicate Chain(g: Graph, root: Id, p: seq<Id>) {
    && (p != [] ==> p[0] == root)
    && (forall i :: 0 <= i < |p| ==> p[i] in g && g[p[i]].Container?)
    && (forall i :: 0 <= i < |p| - 1 ==> p[i + 1] in g[p[i]].items)
    && Distinct(p)
  }

  /** The scan can stand at `v` with the containers of `p` around it. */
  ghost predicate MetAt(g: Graph, root: Id, p: seq<Id>, v: Id) {
    Chain(g, root, p) && v in g && if p == [] then v == root else v in g[p[|p| - 1]].items
  }

  /** No container is met at the depth cap: the values nest less deeply than it. */
  ghost predicate Shallow(g: Graph, root: Id, depthCap: nat) {
    forall p, v :: MetAt(g, root, p, v) && g[v].Container? ==> |p| < depthCap
  }

  /** A container met again around itself, above the cap. */
  ghost predicate CycleWithin(g: Graph, root: Id, depthCap: nat) {
    exists p, v :: MetAt(g, root, p, v) && v in p && |p| < depthCap
  }

  /** `l` is to be refused and met inside at most `depthCap` containers; a bare root is exempt. */
  ghost predicate RefusedWithin(g: Graph, root: Id, depthCap: nat, l: Id) {
    exists p :: MetAt(g, root, p, l) && |p| <= depthCap && Refusable(g, l) && (p == [] ==> g[l].Typed?)
  }

  lemma {:induction false} ChainSteps(g: Graph, root: Id, p: seq<Id>, v: Id, i: nat)
    requires Closed(g) && MetAt(g, root, p, v) && i < |p|
    ensures Steps(g, p[i], v, |p| - i)
    decreases |p| - i
  {
    var next := if i + 1 == |p| then v else p[i + 1];
    var k :| 0 <= k < |g[p[i]].items| && g[p[i]].items[k] == next;
    if i + 1 == |p| {
      assert Steps(g, v, v, 0);
    } else {
      ChainSteps(g, root, p, v, i + 1);
    }
  }

  lemma MetIsReachable(g: Graph, root: Id, p: seq<Id>, v: Id)
    requires Closed(g) && root in g && MetAt(g, root, p, v)
    ensures Reachable(g, root, v)
    ensures v in p ==> Inside(g, v, v)
  {
    if p == [] {
      assert Steps(g, root, v, 0);
    } else {
      ChainSteps(g, root, p, v, 0);
      if v in p {
        var i :| 0 <= i < |p| && p[i] == v;
        ChainSteps(g, root, p, v, i);
      }
    }
  }

  lemma CycleWithinIsCycle(g: Graph, root: Id, depthCap: nat)
    requires Closed(g) && root in g && CycleWithin(g, root, depthCap)
    ensures HasCycle(g, root)
  {
    var p, v :| MetAt(g, root, p, v) && v in p && |p| < depthCap;
    MetIsReachable(g, root, p, v);
  }

  lemma RefusedWithinIsRefusable(g: Graph, root: Id, depthCap: nat, l: Id)
    requires Closed(g) && root in g && RefusedWithin(g, root, depthCap, l)
    ensures HasRefusable(g, root)
  {
    var p :| MetAt(g, root, p, l) && |p| <= depthCap && Refusable(g, l) && (p == [] ==> g[l].Typed?);
    MetIsReachable(g, root, p, l);
  }

  /** A graph with fewer containers than the cap cannot nest to it. */
  lemma FewContainersAreShallow(g: Graph, root: Id, depthCap: nat)
    requires |Containers(g)| < depthCap
    ensures Shallow(g, root, depthCap)
  {
    forall p: seq<Id>, v: Id | MetAt(g, root, p, v) && g[v].Container? ensures |p| < depthCap {
      DistinctCount(p);
      var members := Members(p);
      assert members <= Containers(g);
      SubsetCardinality(members, Containers(g));
    }
  }

  // ---- The walk as a function ----

  datatype Outcome = Passed | SelfReference | Refused(leaf: Id)

  /** What a walk leaves: how it ended, and the containers it is through with, in that order. */
  datatype Walked = Walked(outcome: Outcome, finished: seq<Id>)

  ghost function Unvisited(g: Graph, stack: seq<Id>, finished: seq<Id>): set<Id> {
    set c | c in Containers(g) && c !in stack && c !in finished
  }

  /** Look at `v` inside the containers of `stack`; the cap bounds how many those may be. */
  ghost function Walk(g: Graph, depthCap: nat, stack: seq<Id>, finished: seq<Id>, v: Id): (r: Walked)
    requires Closed(g) && v in g
    ensures finished <= r.finished
    decreases Unvisited(g, stack, finished), 1, 0
  {
    match g[v]
    case Typed(numeric) => Walked(if numeric then Passed else Refused(v), finished)
    case Leaf(numeric) => Walked(if numeric || stack == [] then Passed else Refused(v), finished)
    case Container(_) =>
      if |stack| >= depthCap then Walked(Passed, finished)
      else if v in stack then Walked(SelfReference, finished)
      else if v in finished then Walked(Passed, finished)
      else
        assert v in Unvisited(g, stack, finished) && v !in Unvisited(g, stack + [v], finished);
        var r := WalkItems(g, depthCap, stack + [v], finished, v, 0);
        Walked(r.outcome, r.finished + [v])
  }

  /** The members of `c` from the k-th on, stopping at the first that raises. */
  ghost function WalkItems(g: Graph, depthCap: nat, stack: seq<Id>, finished: seq<Id>, c: Id, k: nat): (r: Walked)
    requires Closed(g) && c in g && g[c].Container? && k <= |g[c].items|
    ensures finished <= r.finished
    decreases Unvisited(g, stack, finished), 2, |g[c].items| - k
  {
    if k == |g[c].items| then Walked(Passed, finished)
    else
      var r := Walk(g, depthCap, stack, finished, g[c].items[k]);
      if !r.outcome.Passed? then r else WalkItems(g, depthCap, stack, r.finished, c, k + 1)
  }

  /** Nothing the walk is through with stands around the current value, and nothing is gone through twice. */
  ghost predicate Apart(g: Graph, stack: seq<Id>, finished: seq<Id>) {
    && (forall c :: c in finished ==> c in Containers(g) && c !in stack)
    && Distinct(finished)
  }

  lemma ChainGrows(g: Graph, root: Id, stack: seq<Id>, v: Id)
    requires Closed(g) && MetAt(g, root, stack, v) && g[v].Container? && v !in stack
    ensures Chain(g, root, stack + [v])
    ensures forall k :: 0 <= k < |g[v].items| ==> MetAt(g, root, stack + [v], g[v].items[k])
  {
    var p := stack + [v];
    assert forall i :: 0 <= i < |p| - 1 ==> p[i + 1] in g[p[i]].items;
  }

  lemma {:induction false} WalkKeepsApart(g: Graph, depthCap: nat, stack: seq<Id>, finished: seq<Id>, v: Id)
    requires Closed(g) && v in g && Apart(g, stack, finished)
    ensures Apart(g, stack, Walk(g, depthCap, stack, finished, v).finished)
    decreases Unvisited(g, stack, finished), 1, 0
  {
    if g[v].Container? && |stack| < depthCap && v !in stack && v !in finished {
      assert v in Unvisited(g, stack, finished) && v !in Unvisited(g, stack + [v], finished);
      assert Apart(g, stack + [v], finished);
      ItemsKeepApart(g, depthCap, stack + [v], finished, v, 0);
    }
  }

  lemma {:induction false} ItemsKeepApart(g: Graph, depthCap: nat, stack: seq<Id>, finished: seq<Id>, c: Id, k: nat)
    requires Closed(g) && c in g && g[c].Container? && k <= |g[c].items| && Apart(g, stack, finished)
    ensures Apart(g, stack, WalkItems(g, depthCap, stack, finished, c, k).finished)
    decreases Unvisited(g, stack, finished), 2, |g[c].items| - k
  {
    if k < |g[c].items| {
      var r := Walk(g, depthCap, stack, finished, g[c].items[k]);
      WalkKeepsApart(g, depthCap, stack, finished, g[c].items[k]);
      if r.outcome.Passed? { ItemsKeepApart(g, depthCap, stack, r.finished, c, k + 1); }
    }
  }

  /** An exception is raised only for something met above the cap. */
  ghost predicate Justified(g: Graph, root: Id, depthCap: nat, outcome: Outcome) {
    match outcome
    case Passed => true
    case SelfReference => CycleWithin(g, root, depthCap)
    case Refused(l) => RefusedWithin(g, root, depthCap, l)
  }

  lemma {:induction false} WalkIsJustified(g: Graph, root: Id, depthCap: nat, stack: seq<Id>, finished: seq<Id>, v: Id)
    requires Closed(g) && MetAt(g, root, stack, v) && |stack| <= depthCap
    ensures Justified(g, root, depthCap, Walk(g, depthCap, stack, finished, v).outcome)
    decreases Unvisited(g, stack, finished), 1, 0
  {
    if g[v].Container? && |stack| < depthCap && v !in stack && v !in finished {
      assert v in Unvisited(g, stack, finished) && v !in Unvisited(g, stack + [v], finished);
      ChainGrows(g, root, stack, v);
      ItemsAreJustified(g, root, depthCap, stack + [v], finished, v, 0);
    }
  }

  lemma {:induction false} ItemsAreJustified(g: Graph, root: Id, depthCap: nat, stack: seq<Id>,
                                             finished: seq<Id>, c: Id, k: nat)
    requires Closed(g) && c in g && g[c].Container? && k <= |g[c].items| && |stack| <= depthCap
    requires forall i :: 0 <= i < |g[c].items| ==> MetAt(g, root, stack, g[c].items[i])
    ensures Justified(g, root, depthCap, WalkItems(g, depthCap, stack, finished, c, k).outcome)
    decreases Unvisited(g, stack, finished), 2, |g[c].items| - k
  {
    if k < |g[c].items| {
      var r := Walk(g, depthCap, stack, finished, g[c].items[k]);
      WalkIsJustified(g, root, depthCap, stack, finished, g[c].items[k]);
      if r.outcome.Passed? { ItemsAreJustified(g, root, depthCap, stack, r.finished, c, k + 1); }
    }
  }

  // ---- What a walk that passes has seen ----

  /** Inside `depth` containers the walk sees a member: it is numeric, too deep, or among those done. */
  ghost predicate Seen(g: Graph, depthCap: nat, depth: nat, done: seq<Id>, v: Id) {
    v in g && if g[v].Container? then depth >= depthCap || v in done else g[v].numeric
  }

  /** Gone through inside `p`, with each member seen there before. */
  ghost predicate GoneThrough(g: Graph, root: Id, depthCap: nat, p: seq<Id>, done: seq<Id>, c: Id) {
    && MetAt(g, root, p, c) && g[c].Container? && c !in p && |p| < depthCap
    && forall k :: 0 <= k < |g[c].items| ==> Seen(g, depthCap, |p| + 1, done, g[c].items[k])
  }

  ghost predicate Through(g: Graph, root: Id, depthCap: nat, done: seq<Id>, c: Id) {
    exists p :: GoneThrough(g, root, depthCap, p, done, c)
  }

  /** Each container was gone through on some chain, its members being seen or done earlier. */
  ghost predicate Certified(g: Graph, root: Id, depthCap: nat, finished: seq<Id>) {
    forall j :: 0 <= j < |finished| ==> Through(g, root, depthCap, finished[..j], finished[j])
  }

  lemma CertifyOne(g: Graph, root: Id, depthCap: nat, p: seq<Id>, finished: seq<Id>, c: Id)
    requires Certified(g, root, depthCap, finished) && GoneThrough(g, root, depthCap, p, finished, c)
    ensures Certified(g, root, depthCap, finished + [c])
  {
    assert Through(g, root, depthCap, finished, c);
    hide Through;
    var more := finished + [c];
    forall j | 0 <= j < |more| ensures Through(g, root, depthCap, more[..j], more[j]) {
      assert more[..j] == finished[..j];
      if j == |finished| { assert finished[..j] == finished; }
    }
  }

  lemma {:induction false} WalkCertifies(g: Graph, root: Id, depthCap: nat, stack: seq<Id>, finished: seq<Id>, v: Id)
    requires Closed(g) && MetAt(g, root, stack, v) && |stack| <= depthCap && Certified(g, root, depthCap, finished)
    ensures var r := Walk(g, depthCap, stack, finished, v);
            r.outcome.Passed? ==>
              && Certified(g, root, depthCap, r.finished)
              && (Seen(g, depthCap, |stack|, r.finished, v) || (stack == [] && g[v].Leaf?))
    decreases Unvisited(g, stack, finished), 1, 0
  {
    hide Certified;
    if g[v].Container? && |stack| < depthCap && v !in stack && v !in finished {
      assert v in Unvisited(g, stack, finished) && v !in Unvisited(g, stack + [v], finished);
      ChainGrows(g, root, stack, v);
      ItemsCertify(g, root, depthCap, stack + [v], finished, v, 0);
      var r := WalkItems(g, depthCap, stack + [v], finished, v, 0);
      if r.outcome.Passed? { CertifyOne(g, root, depthCap, stack, r.finished, v); }
    }
  }

  lemma {:induction false} ItemsCertify(g: Graph, root: Id, depthCap: nat, stack: seq<Id>,
                                        finished: seq<Id>, c: Id, k: nat)
    requires Closed(g) && c in g && g[c].Container? && k <= |g[c].items| && 0 < |stack| <= depthCap
    requires forall i :: 0 <= i < |g[c].items| ==> MetAt(g, root, stack, g[c].items[i])
    requires Certified(g, root, depthCap, finished)
    requires forall i :: 0 <= i < k ==> Seen(g, depthCap, |stack|, finished, g[c].items[i])
    ensures var r := WalkItems(g, depthCap, stack, finished, c, k);
            r.outcome.Passed? ==>
              && Certified(g, root, depthCap, r.finished)
              && forall i :: 0 <= i < |g[c].items| ==> Seen(g, depthCap, |stack|, r.finished, g[c].items[i])
    decreases Unvisited(g, stack, finished), 2, |g[c].items| - k
  {
    hide Certified, MetAt;
    if k < |g[c].items| {
      var r := Walk(g, depthCap, stack, finished, g[c].items[k]);
      WalkCertifies(g, root, depthCap, stack, finished, g[c].items[k]);
      if r.outcome.Passed? { ItemsCertify(g, root, depthCap, stack, r.finished, c, k + 1); }
    }
  }

  // ---- Which exception is raised ----

  /** On the way down `p` to `v`, every member before the one followed was seen. */
  ghost predicate SeenBefore(g: Graph, depthCap: nat, p: seq<Id>, v: Id, done: seq<Id>) {
    forall i :: 0 <= i < |p| ==> FollowedAt(g, depthCap, i, p[i], After(p, v, i), done)
  }

  /** What `p` and then `v` go on with behind position `i`. */
  ghost function After(p: seq<Id>, v: Id, i: nat): Id { if i + 1 < |p| then p[i + 1] else v }

  ghost predicate FollowedAt(g: Graph, depthCap: nat, i: nat, c: Id, next: Id, done: seq<Id>) {
    && c in g && g[c].Container?
    && exists k :: 0 <= k < |g[c].items| && g[c].items[k] == next
         && forall h :: 0 <= h < k ==> Seen(g, depthCap, i + 1, done, g[c].items[h])
  }

  /** What is raised at `v` inside `p`, all before it having been seen or gone through without raising. */
  ghost predicate RaisedFirst(g: Graph, root: Id, depthCap: nat, outcome: Outcome, p: seq<Id>, v: Id, done: seq<Id>) {
    && MetAt(g, root, p, v) && Certified(g, root, depthCap, done) && SeenBefore(g, depthCap, p, v, done)
    && match outcome
       case Passed => false
       case SelfReference => v in p && |p| < depthCap
       case Refused(l) => v == l && Refusable(g, l) && |p| <= depthCap && (p == [] ==> g[l].Typed?)
  }

  ghost predicate SomethingFirst(g: Graph, root: Id, depthCap: nat, outcome: Outcome) {
    exists p, v, done :: RaisedFirst(g, root, depthCap, outcome, p, v, done)
  }

  lemma SeenBeforeGrows(g: Graph, depthCap: nat, p: seq<Id>, v: Id, done: seq<Id>, more: seq<Id>)
    requires SeenBefore(g, depthCap, p, v, done) && done <= more
    ensures SeenBefore(g, depthCap, p, v, more)
  {
    forall i | 0 <= i < |p| ensures FollowedAt(g, depthCap, i, p[i], After(p, v, i), more) {
      var next := After(p, v, i);
      assert FollowedAt(g, depthCap, i, p[i], next, done);
      var k :| 0 <= k < |g[p[i]].items| && g[p[i]].items[k] == next
            && forall h :: 0 <= h < k ==> Seen(g, depthCap, i + 1, done, g[p[i]].items[h]);
      forall h | 0 <= h < k ensures Seen(g, depthCap, i + 1, more, g[p[i]].items[h]) {
        assert Seen(g, depthCap, i + 1, done, g[p[i]].items[h]);
      }
    }
  }

  lemma SeenBeforeFurther(g: Graph, depthCap: nat, p: seq<Id>, c: Id, k: nat, done: seq<Id>)
    requires SeenBefore(g, depthCap, p, c, done) && c in g && g[c].Container? && k < |g[c].items|
    requires forall h :: 0 <= h < k ==> Seen(g, depthCap, |p| + 1, done, g[c].items[h])
    ensures SeenBefore(g, depthCap, p + [c], g[c].items[k], done)
  {
    var q, v := p + [c], g[c].items[k];
    forall i | 0 <= i < |q| ensures FollowedAt(g, depthCap, i, q[i], After(q, v, i), done) {
      if i < |p| { assert FollowedAt(g, depthCap, i, p[i], After(p, c, i), done); }
    }
  }

  lemma {:induction false} WalkRaisesFirst(g: Graph, root: Id, depthCap: nat, stack: seq<Id>,
                                           finished: seq<Id>, v: Id)
    requires Closed(g) && MetAt(g, root, stack, v) && |stack| <= depthCap
    requires Certified(g, root, depthCap, finished) && SeenBefore(g, depthCap, stack, v, finished)
    ensures var outcome := Walk(g, depthCap, stack, finished, v).outcome;
            !outcome.Passed? ==> SomethingFirst(g, root, depthCap, outcome)
    decreases Unvisited(g, stack, finished), 1, 0
  {
    var outcome := Walk(g, depthCap, stack, finished, v).outcome;
    if g[v].Container? && |stack| < depthCap && v !in stack && v !in finished {
      hide Certified, SeenBefore, SomethingFirst, MetAt, Chain;
      assert v in Unvisited(g, stack, finished) && v !in Unvisited(g, stack + [v], finished);
      ChainGrows(g, root, stack, v);
      ItemsRaiseFirst(g, root, depthCap, stack, finished, v, 0);
    } else if !outcome.Passed? {
      hide Certified, SeenBefore, MetAt, Chain;
      assert RaisedFirst(g, root, depthCap, outcome, stack, v, finished);
    }
  }

  lemma {:induction false} ItemsRaiseFirst(g: Graph, root: Id, depthCap: nat, stack: seq<Id>,
                                           finished: seq<Id>, c: Id, k: nat)
    requires Closed(g) && c in g && g[c].Container? && k <= |g[c].items| && |stack| < depthCap
    requires forall i :: 0 <= i < |g[c].items| ==> MetAt(g, root, stack + [c], g[c].items[i])
    requires Certified(g, root, depthCap, finished) && SeenBefore(g, depthCap, stack, c, finished)
    requires forall i :: 0 <= i < k ==> Seen(g, depthCap, |stack| + 1, finished, g[c].items[i])
    ensures var outcome := WalkItems(g, depthCap, stack + [c], finished, c, k).outcome;
            !outcome.Passed? ==> SomethingFirst(g, root, depthCap, outcome)
    decreases Unvisited(g, stack + [c], finished), 2, |g[c].items| - k
  {
    hide Certified, SeenBefore, SomethingFirst, MetAt, Chain;
    if k < |g[c].items| {
      var inner, m := stack + [c], g[c].items[k];
      var r := Walk(g, depthCap, inner, finished, m);
      SeenBeforeFurther(g, depthCap, stack, c, k, finished);
      WalkRaisesFirst(g, root, depthCap, inner, finished, m);
      WalkCertifies(g, root, depthCap, inner, finished, m);
      if r.outcome.Passed? {
        SeenBeforeGrows(g, depthCap, stack, c, finished, r.finished);
        ItemsRaiseFirst(g, root, depthCap, stack, r.finished, c, k + 1);
      }
    }
  }

  /** The exception of a whole walk is the first in member order: nothing before it raised. */
  lemma FirstIsRaised(g: Graph, root: Id, depthCap: nat)
    requires Closed(g) && root in g
    ensures var outcome := Walk(g, depthCap, [], [], root).outcome;
            !outcome.Passed? ==> SomethingFirst(g, root, depthCap, outcome)
  {
    hide Walk, SomethingFirst;
    WalkRaisesFirst(g, root, depthCap, [], [], root);
  }

  // ---- What it cannot have missed ----

  /** `c` is met inside as many containers as can be: members of it that are containers are not looked at. */
  ghost predicate AtLastLevel(g: Graph, root: Id, depthCap: nat, c: Id) {
    exists p :: MetAt(g, root, p, c) && c !in p && |p| + 1 == depthCap
  }

  /** The first `n` containers of `p` are met at the last level only where `p` puts them. */
  ghost predicate NearOnly(g: Graph, root: Id, depthCap: nat, p: seq<Id>, n: nat)
    requires n <= |p|
  {
    forall i :: 0 <= i < n && i + 1 < depthCap ==> !AtLastLevel(g, root, depthCap, p[i])
  }

  /** A member of a container gone through, met on a chain, was seen from it. */
  lemma MemberSeen(g: Graph, root: Id, depthCap: nat, finished: seq<Id>, j: nat, v: Id) returns (q: seq<Id>)
    requires Closed(g) && Certified(g, root, depthCap, finished) && j < |finished|
    requires finished[j] in g && g[finished[j]].Container? && v in g[finished[j]].items
    ensures GoneThrough(g, root, depthCap, q, finished[..j], finished[j])
    ensures Seen(g, depthCap, |q| + 1, finished[..j], v)
  {
    var c := finished[j];
    assert Through(g, root, depthCap, finished[..j], c);
    q :| GoneThrough(g, root, depthCap, q, finished[..j], c);
    var k :| 0 <= k < |g[c].items| && g[c].items[k] == v;
    assert Seen(g, depthCap, |q| + 1, finished[..j], g[c].items[k]);
  }

  lemma NextIsFinished(g: Graph, root: Id, depthCap: nat, finished: seq<Id>, j: nat, v: Id)
    requires Closed(g) && Certified(g, root, depthCap, finished) && j < |finished|
    requires finished[j] in g && g[finished[j]].Container? && v in g[finished[j]].items
    requires v in g && g[v].Container? && !AtLastLevel(g, root, depthCap, finished[j])
    ensures v in finished[..j]
  {
    hide Certified;
    var q := MemberSeen(g, root, depthCap, finished, j, v);
  }

  lemma FurtherIn(s: seq<Id>, lo: nat, hi: nat)
    requires lo < hi <= |s|
    ensures s[hi - 1] in s[lo..] && forall x :: x in s[hi..] ==> x in s[lo..]
  {
    var tail := s[lo..];
    assert tail[hi - 1 - lo] == s[hi - 1] && tail[hi - lo..] == s[hi..];
    forall x | x in s[hi..] ensures x in tail { assert x in tail[hi - lo..]; }
  }

  /** A walk that passes is through with every container of such a chain, inner ones first. */
  lemma {:induction false} ChainIsFinished(g: Graph, root: Id, depthCap: nat, finished: seq<Id>, p: seq<Id>, i: nat)
    returns (j: nat)
    requires Closed(g) && Certified(g, root, depthCap, finished) && root in finished
    requires Chain(g, root, p) && i < |p| <= depthCap && NearOnly(g, root, depthCap, p, i)
    ensures j < |finished| && finished[j] == p[i] && forall a :: 0 <= a < i ==> p[a] in finished[j + 1..]
  {
    hide Certified, AtLastLevel;
    if i == 0 {
      j :| 0 <= j < |finished| && finished[j] == root;
    } else {
      var outer := ChainIsFinished(g, root, depthCap, finished, p, i - 1);
      assert p[i - 1 + 1] in g[p[i - 1]].items;
      NextIsFinished(g, root, depthCap, finished, outer, p[i]);
      j :| 0 <= j < outer && finished[j] == p[i];
      FurtherIn(finished, j + 1, outer + 1);
    }
  }

  /** What such a chain shows has to be raised: a cycle met above the cap, or a leaf met inside at most as many. */
  ghost predicate SureCycle(g: Graph, root: Id, depthCap: nat, p: seq<Id>, v: Id) {
    MetAt(g, root, p, v) && v in p && |p| < depthCap && NearOnly(g, root, depthCap, p, |p|)
  }

  ghost predicate SureLeaf(g: Graph, root: Id, depthCap: nat, p: seq<Id>, l: Id) {
    && MetAt(g, root, p, l) && |p| <= depthCap && Refusable(g, l) && (p == [] ==> g[l].Typed?)
    && (p != [] ==> NearOnly(g, root, depthCap, p, |p| - 1))
  }

  /** The member a chain ends in was seen from its last container, whatever chain that was gone through on. */
  lemma LastMemberSeen(g: Graph, root: Id, depthCap: nat, finished: seq<Id>, p: seq<Id>, v: Id)
    returns (j: nat, q: seq<Id>)
    requires Closed(g) && Certified(g, root, depthCap, finished) && root in finished
    requires MetAt(g, root, p, v) && 0 < |p| <= depthCap && NearOnly(g, root, depthCap, p, |p| - 1)
    ensures j < |finished| && finished[j] == p[|p| - 1]
    ensures forall a :: 0 <= a < |p| - 1 ==> p[a] in finished[j + 1..]
    ensures GoneThrough(g, root, depthCap, q, finished[..j], p[|p| - 1])
    ensures Seen(g, depthCap, |q| + 1, finished[..j], v)
  {
    hide Certified, NearOnly;
    j := ChainIsFinished(g, root, depthCap, finished, p, |p| - 1);
    q := MemberSeen(g, root, depthCap, finished, j, v);
  }

  lemma PartsDiffer(s: seq<Id>, j: nat, v: Id)
    requires Distinct(s) && j < |s|
    ensures v in s[..j] ==> v != s[j] && v !in s[j + 1..]
  {
  }

  lemma NoSureCycle(g: Graph, root: Id, depthCap: nat, finished: seq<Id>, p: seq<Id>, v: Id)
    requires Closed(g) && Certified(g, root, depthCap, finished) && root in finished && Distinct(finished)
    ensures !SureCycle(g, root, depthCap, p, v)
  {
    hide Certified, Distinct;
    if SureCycle(g, root, depthCap, p, v) {
      var j, q := LastMemberSeen(g, root, depthCap, finished, p, v);
      PartsDiffer(finished, j, v);
    }
  }

  lemma NoSureLeaf(g: Graph, root: Id, depthCap: nat, finished: seq<Id>, p: seq<Id>, l: Id)
    requires Closed(g) && Certified(g, root, depthCap, finished) && root in finished
    requires root in g && g[root].Container?
    ensures !SureLeaf(g, root, depthCap, p, l)
  {
    hide Certified;
    if SureLeaf(g, root, depthCap, p, l) && p != [] {
      var j, q := LastMemberSeen(g, root, depthCap, finished, p, l);
    }
  }

  /** A walk that passes has no such chain. */
  ghost predicate SureToRaise(g: Graph, root: Id, depthCap: nat) {
    (exists p, v :: SureCycle(g, root, depthCap, p, v)) || (exists p, l :: SureLeaf(g, root, depthCap, p, l))
  }

  lemma PassingMissesNothingSure(g: Graph, root: Id, depthCap: nat)
    requires Closed(g) && root in g && Walk(g, depthCap, [], [], root).outcome.Passed?
    ensures !SureToRaise(g, root, depthCap)
  {
    var finished := Walk(g, depthCap, [], [], root).finished;
    WalkCertifies(g, root, depthCap, [], [], root);
    WalkKeepsApart(g, depthCap, [], [], root);
    hide Walk, Certified, SureCycle, SureLeaf;
    if g[root].Container? && depthCap > 0 {
      forall p, v ensures !SureCycle(g, root, depthCap, p, v) { NoSureCycle(g, root, depthCap, finished, p, v); }
      forall p, l ensures !SureLeaf(g, root, depthCap, p, l) { NoSureLeaf(g, root, depthCap, finished, p, l); }
    } else {
      OnlyTheRootIsMet(g, root, depthCap);
    }
  }

  lemma OnlyTheRootIsMet(g: Graph, root: Id, depthCap: nat)
    requires Closed(g) && root in g
    ensures (!g[root].Container? || depthCap == 0) && SureToRaise(g, root, depthCap) ==>
              g[root].Typed? && !g[root].numeric
  {
  }

  // ---- When all that is met above the cap is seen ----

  ghost predicate HoldsContainer(g: Graph, c: Id) {
    c in g && g[c].Container? && exists m :: m in g[c].items && m in g && g[m].Container?
  }

  /** No container that holds containers is met both at the last level and nearer to the root. */
  ghost predicate Level(g: Graph, root: Id, depthCap: nat) {
    forall p, c :: MetAt(g, root, p, c) && c !in p && HoldsContainer(g, c) && |p| + 1 < depthCap ==>
      !AtLastLevel(g, root, depthCap, c)
  }

  /** There is something to raise that is met above the cap. */
  ghost predicate RaisesWithin(g: Graph, root: Id, depthCap: nat) {
    CycleWithin(g, root, depthCap) || exists l :: RefusedWithin(g, root, depthCap, l)
  }

  lemma ChainPrefix(g: Graph, root: Id, p: seq<Id>, i: nat)
    requires Chain(g, root, p) && i < |p|
    ensures MetAt(g, root, p[..i], p[i]) && p[i] !in p[..i]
  {
    if i > 0 { assert p[i - 1 + 1] in g[p[i - 1]].items; }
  }

  lemma LevelMeansNear(g: Graph, root: Id, depthCap: nat, p: seq<Id>, n: nat)
    requires Level(g, root, depthCap) && Chain(g, root, p) && n <= |p|
    requires n == |p| > 0 ==> HoldsContainer(g, p[|p| - 1])
    ensures NearOnly(g, root, depthCap, p, n)
  {
    forall i | 0 <= i < n && i + 1 < depthCap ensures !AtLastLevel(g, root, depthCap, p[i]) {
      ChainPrefix(g, root, p, i);
      if i + 1 < |p| {
        var next := i + 1;
        assert p[next] in g[p[i]].items && p[next] in g && g[p[next]].Container?;
      }
      assert HoldsContainer(g, p[i]);
    }
  }

  /** On such a value everything met above the cap is sure to be raised. */
  lemma LevelMeansSure(g: Graph, root: Id, depthCap: nat)
    requires Level(g, root, depthCap) && RaisesWithin(g, root, depthCap)
    ensures SureToRaise(g, root, depthCap)
  {
    hide Level, NearOnly;
    if CycleWithin(g, root, depthCap) {
      var p, v :| MetAt(g, root, p, v) && v in p && |p| < depthCap;
      assert HoldsContainer(g, p[|p| - 1]);
      LevelMeansNear(g, root, depthCap, p, |p|);
      assert SureCycle(g, root, depthCap, p, v);
    } else {
      var l :| RefusedWithin(g, root, depthCap, l);
      var p :| MetAt(g, root, p, l) && |p| <= depthCap && Refusable(g, l) && (p == [] ==> g[l].Typed?);
      if p != [] { LevelMeansNear(g, root, depthCap, p, |p| - 1); }
      assert SureLeaf(g, root, depthCap, p, l);
    }
  }

  lemma SureMeansWithin(g: Graph, root: Id, depthCap: nat)
    requires SureToRaise(g, root, depthCap)
    ensures RaisesWithin(g, root, depthCap)
  {
    if p, v :| SureCycle(g, root, depthCap, p, v) {
      assert CycleWithin(g, root, depthCap);
    } else {
      var p, l :| SureLeaf(g, root, depthCap, p, l);
      assert RefusedWithin(g, root, depthCap, l);
    }
  }

  /** A value that does not nest to the cap is level, and nothing in it is beyond the cap. */
  lemma ShallowIsLevel(g: Graph, root: Id, depthCap: nat)
    requires Closed(g) && Shallow(g, root, depthCap)
    ensures Level(g, root, depthCap)
  {
    forall p, c | MetAt(g, root, p, c) && c !in p && HoldsContainer(g, c) && |p| + 1 < depthCap
      ensures !AtLastLevel(g, root, depthCap, c)
    {
      var m :| m in g[c].items && m in g && g[m].Container?;
      forall q | MetAt(g, root, q, c) && c !in q ensures |q| + 1 < depthCap {
        ChainGrows(g, root, q, c);
        assert MetAt(g, root, q + [c], m);
      }
    }
  }

  ghost predicate Clean(g: Graph, root: Id)
    requires Closed(g) && root in g
  {
    !HasCycle(g, root) && !HasRefusable(g, root)
  }

  lemma RaisesWithinIsUnclean(g: Graph, root: Id, depthCap: nat)
    requires Closed(g) && root in g && RaisesWithin(g, root, depthCap)
    ensures !Clean(g, root)
  {
    if CycleWithin(g, root, depthCap) {
      CycleWithinIsCycle(g, root, depthCap);
    } else {
      var l :| RefusedWithin(g, root, depthCap, l);
      RefusedWithinIsRefusable(g, root, depthCap, l);
    }
  }

  /** On every value and cap: what raises is there, and what is sure to raise does. */
  lemma WalkRaisesBetween(g: Graph, root: Id, depthCap: nat)
    requires Closed(g) && root in g
    ensures var passed := Walk(g, depthCap, [], [], root).outcome.Passed?;
            (!passed ==> RaisesWithin(g, root, depthCap)) && (SureToRaise(g, root, depthCap) ==> !passed)
  {
    hide Walk, SureToRaise;
    var outcome := Walk(g, depthCap, [], [], root).outcome;
    WalkIsJustified(g, root, depthCap, [], [], root);
    if outcome.Passed? { PassingMissesNothingSure(g, root, depthCap); }
  }

  /** On a level value the walk passes exactly when nothing to raise is met above the cap. */
  lemma PassesIffNothingWithin(g: Graph, root: Id, depthCap: nat)
    requires Closed(g) && root in g && Level(g, root, depthCap)
    ensures Walk(g, depthCap, [], [], root).outcome.Passed? <==> !RaisesWithin(g, root, depthCap)
  {
    hide Walk, SureToRaise, RaisesWithin, Level;
    WalkRaisesBetween(g, root, depthCap);
    if RaisesWithin(g, root, depthCap) { LevelMeansSure(g, root, depthCap); }
  }

  /** ... so its verdict on the whole value is right exactly when that is clean or raises above the cap. */
  lemma VerdictIsRightIff(g: Graph, root: Id, depthCap: nat)
    requires Closed(g) && root in g && Level(g, root, depthCap)
    ensures (Walk(g, depthCap, [], [], root).outcome.Passed? <==> Clean(g, root))
       <==> Clean(g, root) || RaisesWithin(g, root, depthCap)
  {
    hide Walk, RaisesWithin, Level, Clean;
    PassesIffNothingWithin(g, root, depthCap);
    if RaisesWithin(g, root, depthCap) { RaisesWithinIsUnclean(g, root, depthCap); }
  }

  /** Away from the cap, what was gone through is settled. */
  lemma {:induction false} CertifiedSettles(g: Graph, root: Id, depthCap: nat, finished: seq<Id>)
    requires Closed(g) && Shallow(g, root, depthCap) && Certified(g, root, depthCap, finished) && Distinct(finished)
    ensures Settled(g, Members(finished))
  {
    if finished != [] {
      var init, c := finished[..|finished| - 1], finished[|finished| - 1];
      assert forall j :: 0 <= j < |init| ==> init[..j] == finished[..j] && init[j] == finished[j];
      assert Certified(g, root, depthCap, init);
      CertifiedSettles(g, root, depthCap, init);
      assert Through(g, root, depthCap, init, c);
      MembersAreDone(g, root, depthCap, init, c);
      hide Settled, Certified, Through, Shallow;
      var done := Members(init);
      SettleOne(g, done, c);
      assert Members(finished) == done + {c};
    }
  }

  lemma MembersAreDone(g: Graph, root: Id, depthCap: nat, done: seq<Id>, c: Id)
    requires Closed(g) && Shallow(g, root, depthCap) && Through(g, root, depthCap, done, c)
    ensures c in g && g[c].Container?
    ensures forall k :: 0 <= k < |g[c].items| ==> ItemDone(g, Members(done), g[c].items[k])
  {
    var p :| GoneThrough(g, root, depthCap, p, done, c);
    ChainGrows(g, root, p, c);
    forall k | 0 <= k < |g[c].items| ensures ItemDone(g, Members(done), g[c].items[k]) {
      assert Seen(g, depthCap, |p| + 1, done, g[c].items[k]);
      assert MetAt(g, root, p + [c], g[c].items[k]);
    }
  }

  /** A value that does not nest to the cap passes exactly when it is clean. */
  lemma ShallowPassesIffClean(g: Graph, root: Id, depthCap: nat)
    requires Closed(g) && root in g && Shallow(g, root, depthCap)
    ensures Walk(g, depthCap, [], [], root).outcome.Passed? <==> Clean(g, root)
  {
    var r := Walk(g, depthCap, [], [], root);
    assert g[root].Container? ==> depthCap > 0 by { assert g[root].Container? ==> MetAt(g, root, [], root); }
    WalkCertifies(g, root, depthCap, [], [], root);
    WalkKeepsApart(g, depthCap, [], [], root);
    WalkRaisesBetween(g, root, depthCap);
    hide Walk, RaisesWithin, Certified, Shallow, Clean;
    if r.outcome.Passed? {
      if g[root].Container? || g[root].numeric {
        CertifiedSettles(g, root, depthCap, r.finished);
        SettledRootIsClean(g, Members(r.finished), root);
      } else {
        BareLeafIsClean(g, root);
      }
    } else {
      RaisesWithinIsUnclean(g, root, depthCap);
    }
  }

  lemma BareLeafIsClean(g: Graph, root: Id)
    requires Closed(g) && root in g && g[root].Leaf?
    ensures Clean(g, root)
  {
    assert forall n: nat, b :: n > 0 ==> !Steps(g, root, b, n);
  }

  // ---- The scan ----

  class Scan {
    const graph: Graph
    const depthCap: nat
    var scanned: set<Id>
    var active: set<Id>
    /** The containers around the current value, outermost first. */
    ghost var stack: seq<Id>
    /** Containers in the order their scan ended. */
    ghost var finished: seq<Id>

    constructor (graph: Graph, depthCap: nat)
      requires Closed(graph)
      ensures Valid(0) && this.graph == graph && this.depthCap == depthCap && stack == [] && finished == []
    {
      this.graph, this.depthCap := graph, depthCap;
      scanned, active, stack, finished := {}, {}, [], [];
    }

    /** The active containers are those around the value; the scanned ones are these and the finished ones. */
    ghost predicate Valid(depth: nat)
      reads this
    {
      && Closed(graph) && |stack| == depth && Distinct(stack)
      && active == Members(stack) && scanned == active + Members(finished)
      && scanned <= Containers(graph)
    }

    /** One value: on every exit the active set is as before, and outcome and finished containers are the walk's. */
    method Visit(v: Id, depth: nat) returns (outcome: Outcome)
      requires Valid(depth) && v in graph
      modifies this
      ensures Valid(depth) && active == old(active) && stack == old(stack) && old(scanned) <= scanned
      ensures Walked(outcome, finished) == Walk(graph, depthCap, old(stack), old(finished), v)
      decreases Containers(graph) - scanned, 1
    {
      match graph[v] {
        case Typed(numeric) => return if numeric then Passed else Refused(v);
        case Leaf(numeric) => return if numeric || depth == 0 then Passed else Refused(v);
        case Container(items) =>
          if depth >= depthCap { return Passed; }
          if v in active { return SelfReference; }
          if v in scanned { return Passed; }
          Enter(v, depth);
          outcome := VisitItems(v, depth + 1);
          Leave(v, depth);
      }
    }

    method Enter(v: Id, depth: nat)
      requires Valid(depth) && v in Containers(graph) && v !in scanned
      modifies this
      ensures Valid(depth + 1) && finished == old(finished)
      ensures scanned == old(scanned) + {v} && active == old(active) + {v} && stack == old(stack) + [v]
    {
      scanned, active := scanned + {v}, active + {v};
      stack := stack + [v];
    }

    /** The `finally` clause. */
    method Leave(v: Id, depth: nat)
      requires Valid(depth + 1) && stack[depth] == v
      modifies this`active, this`stack, this`finished
      ensures Valid(depth) && active == old(active) - {v} && stack == old(stack)[..depth]
      ensures finished == old(finished) + [v]
    {
      assert stack == stack[..depth] + [v];
      active := active - {v};
      stack, finished := stack[..depth], finished + [v];
    }

    /** The members in order, stopping at the first that raises. */
    method VisitItems(v: Id, depth: nat) returns (outcome: Outcome)
      requires Valid(depth) && v in graph && graph[v].Container?
      modifies this
      ensures Valid(depth) && active == old(active) && stack == old(stack) && old(scanned) <= scanned
      ensures Walked(outcome, finished) == WalkItems(graph, depthCap, old(stack), old(finished), v, 0)
      decreases Containers(graph) - scanned, 2
    {
      for i := 0 to |graph[v].items|
        invariant Valid(depth) && active == old(active) && stack == old(stack) && old(scanned) <= scanned
        invariant WalkItems(graph, depthCap, old(stack), old(finished), v, 0)
               == WalkItems(graph, depthCap, stack, finished, v, i)
      {
        outcome := Visit(graph[v].items[i], depth);
        if !outcome.Passed? { return; }
      }
      return Passed;
    }
  }

  /**
   * A scan of a whole value. Whatever the cap, it raises only for a cycle or a leaf met above it, it does
   * raise when one is sure to be met, and it goes through no container twice. On a level value it passes
   * exactly when nothing to raise is met above the cap, on a shallow one exactly when there is nothing.
   */
  method RefuseNonNumericDtypeTree(graph: Graph, root: Id, depthCap: nat)
    returns (outcome: Outcome, ghost finished: seq<Id>)
    requires Closed(graph) && root in graph
    ensures Walked(outcome, finished) == Walk(graph, depthCap, [], [], root)
    ensures outcome.SelfReference? ==> CycleWithin(graph, root, depthCap) && HasCycle(graph, root)
    ensures outcome.Refused? ==> RefusedWithin(graph, root, depthCap, outcome.leaf) && HasRefusable(graph, root)
    ensures SureToRaise(graph, root, depthCap) ==> !outcome.Passed?
    ensures Level(graph, root, depthCap) ==> (outcome.Passed? <==> !RaisesWithin(graph, root, depthCap))
    ensures Shallow(graph, root, depthCap) ==> (outcome.Passed? <==> Clean(graph, root))
    ensures Distinct(finished)
  {
    hide Walk, SureToRaise, Level, RaisesWithin, Shallow, Clean;
    var scan := new Scan(graph, depthCap);
    outcome := scan.Visit(root, 0);
    finished := scan.finished;
    WalkKeepsApart(graph, depthCap, [], [], root);
    WalkIsJustified(graph, root, depthCap, [], [], root);
    WalkRaisesBetween(graph, root, depthCap);
    if Level(graph, root, depthCap) { PassesIffNothingWithin(graph, root, depthCap); }
    if Shallow(graph, root, depthCap) { ShallowPassesIffClean(graph, root, depthCap); }
    match outcome {
      case SelfReference => CycleWithinIsCycle(graph, root, depthCap);
      case Refused(l) => RefusedWithinIsRefusable(graph, root, depthCap, l);
      case Passed =>
    }
  }

  // ---- The cap is not slack ----

  /** One more list than the cap allows, nested one in the other, around a leaf to refuse. */
  function Nest(depthCap: nat): Graph { NestFrom(0, depthCap) }

  function NestFrom(v: Id, depthCap: nat): (g: Graph)
    requires v <= depthCap + 1
    ensures forall w: Id :: w in g <==> v <= w <= depthCap + 1
    ensures forall w: Id :: w in g ==> g[w] == if w <= depthCap then Container([w + 1]) else Leaf(false)
    decreases depthCap + 1 - v
  {
    if v > depthCap then map[v := Leaf(false)] else NestFrom(v + 1, depthCap)[v := Container([v + 1])]
  }

  lemma {:induction false} NestSteps(depthCap: nat, v: Id)
    requires v <= depthCap + 1
    ensures Closed(Nest(depthCap)) && Steps(Nest(depthCap), v, depthCap + 1, depthCap + 1 - v)
    decreases depthCap + 1 - v
  {
    if v <= depthCap {
      NestSteps(depthCap, v + 1);
      assert Nest(depthCap)[v].items[0] == v + 1;
    }
  }

  lemma {:induction false} NestChain(depthCap: nat, p: seq<Id>, i: nat)
    requires Chain(Nest(depthCap), 0, p) && i < |p|
    ensures p[i] == i
  {
    if i > 0 {
      NestChain(depthCap, p, i - 1);
      assert p[i - 1 + 1] in Nest(depthCap)[p[i - 1]].items;
    }
  }

  lemma NestHidesItsLeaf(depthCap: nat, p: seq<Id>, v: Id)
    requires MetAt(Nest(depthCap), 0, p, v)
    ensures v == |p|
  {
    if p != [] { NestChain(depthCap, p, |p| - 1); }
  }

  lemma NestShowsNothing(depthCap: nat)
    ensures !CycleWithin(Nest(depthCap), 0, depthCap)
    ensures forall l :: !RefusedWithin(Nest(depthCap), 0, depthCap, l)
  {
    var g := Nest(depthCap);
    forall p, v | MetAt(g, 0, p, v) ensures v == |p| && v !in p {
      NestHidesItsLeaf(depthCap, p, v);
      forall i | 0 <= i < |p| ensures p[i] != v { NestChain(depthCap, p, i); }
    }
  }

  /** For every cap there is a value, one level too deep, whose bad leaf the scan does not see. */
  lemma DeepLeafPasses(depthCap: nat)
    ensures Closed(Nest(depthCap)) && HasRefusable(Nest(depthCap), 0)
    ensures Walk(Nest(depthCap), depthCap, [], [], 0).outcome.Passed?
  {
    var g := Nest(depthCap);
    NestSteps(depthCap, 0);
    assert Reachable(g, 0, depthCap + 1);
    NestShowsNothing(depthCap);
    WalkRaisesBetween(g, 0, depthCap);
  }

  // ---- The order of members decides ----

  /** The nested lists, with the second but last of them a member of the outermost too. */
  function Shared(depthCap: nat, items: seq<Id>): Graph { Nest(depthCap)[0 := Container(items)] }

  lemma SharedIsClosed(depthCap: nat, items: seq<Id>)
    requires forall v :: v in items ==> v <= depthCap + 1
    ensures Closed(Shared(depthCap, items))
  {
    var g := Shared(depthCap, items);
    forall v, k | v in g && g[v].Container? && 0 <= k < |g[v].items| ensures g[v].items[k] in g {
      if v == 0 { assert items[k] in items; }
    }
  }

  function UpTo(v: nat): seq<Id> { seq(v, i => i) }

  lemma EnterContainer(g: Graph, depthCap: nat, stack: seq<Id>, finished: seq<Id>, c: Id)
    requires Closed(g) && c in g && g[c].Container?
    requires |stack| < depthCap && c !in stack && c !in finished
    ensures var r := WalkItems(g, depthCap, stack + [c], finished, c, 0);
            Walk(g, depthCap, stack, finished, c) == Walked(r.outcome, r.finished + [c])
  {
  }

  /** A container with a single member is walked as that member is. */
  lemma EnterOnlyMember(g: Graph, depthCap: nat, stack: seq<Id>, finished: seq<Id>, c: Id, m: Id)
    requires Closed(g) && c in g && g[c].Container? && g[c].items == [m]
    requires |stack| < depthCap && c !in stack && c !in finished
    ensures m in g
    ensures var r := Walk(g, depthCap, stack + [c], finished, m);
            Walk(g, depthCap, stack, finished, c) == Walked(r.outcome, r.finished + [c])
  {
    hide Walk;
    EnterContainer(g, depthCap, stack, finished, c);
    assert g[c].items[0] == m;
    var r := Walk(g, depthCap, stack + [c], finished, m);
    assert WalkItems(g, depthCap, stack + [c], r.finished, c, 1) == Walked(Passed, r.finished);
  }

  /** Going down the lists one finishes the shared one at the last level, its only member unseen. */
  lemma {:induction false} GoDown(depthCap: nat, items: seq<Id>, v: Id)
    requires 0 < v < depthCap && forall w :: w in items ==> w <= depthCap + 1
    ensures Closed(Shared(depthCap, items))
    ensures var r := Walk(Shared(depthCap, items), depthCap, UpTo(v), [], v);
            r.outcome.Passed? && depthCap - 1 in r.finished
    decreases depthCap - v
  {
    SharedIsClosed(depthCap, items);
    var g, stack := Shared(depthCap, items), UpTo(v);
    assert g[v].items == [v + 1] && stack + [v] == UpTo(v + 1);
    EnterOnlyMember(g, depthCap, stack, [], v, v + 1);
    if v + 1 < depthCap { GoDown(depthCap, items, v + 1); }
  }

  lemma SharedLast(depthCap: nat)
    requires depthCap >= 3
    ensures Closed(Shared(depthCap, [1, depthCap - 1]))
    ensures Walk(Shared(depthCap, [1, depthCap - 1]), depthCap, [], [], 0).outcome.Passed?
  {
    var n, g := depthCap, Shared(depthCap, [1, depthCap - 1]);
    SharedIsClosed(n, [1, n - 1]);
    GoDown(n, [1, n - 1], 1);
    assert UpTo(1) == [0] && g[0].items == [1, n - 1];
    EnterContainer(g, n, [], [], 0);
    var r := Walk(g, n, [0], [], 1);
    assert [] + [0] == [0];
    assert Walk(g, n, [0], r.finished, n - 1) == Walked(Passed, r.finished);
    assert WalkItems(g, n, [0], r.finished, 0, 2) == Walked(Passed, r.finished);
    assert WalkItems(g, n, [0], r.finished, 0, 1) == Walked(Passed, r.finished);
    assert WalkItems(g, n, [0], [], 0, 0) == Walked(Passed, r.finished);
  }

  lemma SharedFirst(depthCap: nat)
    requires depthCap >= 3
    ensures Closed(Shared(depthCap, [depthCap - 1, 1]))
    ensures Walk(Shared(depthCap, [depthCap - 1, 1]), depthCap, [], [], 0).outcome == Refused(depthCap + 1)
  {
    var n, g := depthCap, Shared(depthCap, [depthCap - 1, 1]);
    SharedIsClosed(n, [n - 1, 1]);
    assert g[0].items == [n - 1, 1];
    EnterContainer(g, n, [], [], 0);
    assert [] + [0] == [0];
    EnterOnlyMember(g, n, [0], [], n - 1, n);
    EnterOnlyMember(g, n, [0] + [n - 1], [], n, n + 1);
    assert Walk(g, n, [0] + [n - 1] + [n], [], n + 1).outcome == Refused(n + 1);
  }

  /**
   * For every cap of three or more there is a value with a bad leaf inside three lists that passes, because
   * a list on the way to it was first met at the last level; with the outer list turned round it is refused.
   */
  lemma OrderOfMembersDecides(depthCap: nat)
    requires depthCap >= 3
    ensures var late, early := Shared(depthCap, [1, depthCap - 1]), Shared(depthCap, [depthCap - 1, 1]);
            && Closed(late) && Closed(early)
            && RefusedWithin(late, 0, 3, depthCap + 1) && RaisesWithin(late, 0, depthCap)
            && Walk(late, depthCap, [], [], 0).outcome.Passed?
            && Walk(early, depthCap, [], [], 0).outcome == Refused(depthCap + 1)
  {
    SharedLast(depthCap);
    SharedFirst(depthCap);
    hide Walk;
    var late := Shared(depthCap, [1, depthCap - 1]);
    assert MetAt(late, 0, [0, depthCap - 1, depthCap], depthCap + 1);
    assert RefusedWithin(late, 0, depthCap, depthCap + 1);
  }
}
