/** Two caches of different budgets fed the same requests: when the larger one contains the smaller. */
module TwoBudgets {
  import opened FiniteSets
  import opened AxisActions
  import opened RecencyStack

  lemma {:induction false} EverythingFits(s: seq<Key>, budget: int)
    requires forall k :: k in s ==> Bytes(k) <= budget
    ensures Fitting(s, budget) == s
  {
    if s != [] { EverythingFits(s[1..], budget); }
  }

  lemma {:induction false} RecencyMembers(history: seq<Key>, k: Key)
    ensures k in Recency(history) <==> k in history
  {
    if history != [] {
      var before, last := history[..|history| - 1], history[|history| - 1];
      RecencyMembers(before, k);
      assert history == before + [last];
    }
  }

  lemma {:induction false} FittingTwice(s: seq<Key>, small: int, large: int)
    requires small <= large
    ensures Fitting(Fitting(s, large), small) == Fitting(s, small)
  {
    if s != [] {
      FittingTwice(s[1..], small, large);
      if Bytes(s[0]) <= large { assert Fitting(s, large)[1..] == Fitting(s[1..], large); }
    }
  }

  /** The keys whose map is larger than the budget. */
  ghost function Exceeding(s: seq<Key>, budget: int): seq<Key> {
    if s == [] then []
    else if Bytes(s[0]) > budget then [s[0]] + Exceeding(s[1..], budget)
    else Exceeding(s[1..], budget)
  }

  lemma {:induction false} BytesSplit(s: seq<Key>, budget: int)
    ensures TotalBytes(s) == TotalBytes(Fitting(s, budget)) + TotalBytes(Exceeding(s, budget))
  {
    if s != [] {
      BytesSplit(s[1..], budget);
      if Bytes(s[0]) <= budget {
        assert Fitting(s, budget)[1..] == Fitting(s[1..], budget);
      } else {
        assert Exceeding(s, budget)[1..] == Exceeding(s[1..], budget);
      }
    }
  }

  /** The keys used since `k` was last used, `k` first. */
  ghost function From(s: seq<Key>, k: Key): (r: seq<Key>)
    requires k in s
  {
    if s[0] == k then s else From(s[1..], k)
  }

  /** In a stack without repetition, the suffix from a key is the suffix at any place that key stands. */
  lemma {:induction false} FromAt(s: seq<Key>, k: Key, i: nat)
    requires Distinct(s) && i < |s| && s[i] == k
    ensures From(s, k) == s[i..]
  {
    if i > 0 {
      assert s[0] != s[i];
      FromAt(s[1..], k, i - 1);
      assert s[1..][i - 1..] == s[i..];
    }
  }

  /** A key is kept exactly when everything used since fits the budget with it. */
  lemma KeptIffRecentFits(s: seq<Key>, budget: int, k: Key)
    requires Distinct(s) && k in s
    ensures k in LongestSuffix(s, budget) <==> TotalBytes(From(s, k)) <= budget
  {
    hide LongestSuffix, TotalBytes, From, Distinct;
    var dropped, kept := SplitStack(s, budget);
    var i :| 0 <= i < |s| && s[i] == k;
    FromAt(s, k, i);
    DistinctParts(dropped, kept);
    if i < |dropped| {
      LongestSuffixIsLongest(s, budget, i);
      assert dropped[i] == k;
    } else {
      assert kept[i - |dropped|] == k;
      SuffixBytes(kept, i - |dropped|);
      assert kept[i - |dropped|..] == s[i..];
    }
  }

  lemma SuffixBytes(s: seq<Key>, i: nat)
    requires i <= |s|
    ensures TotalBytes(s[i..]) <= TotalBytes(s)
  {
    assert s == s[..i] + s[i..];
    TotalBytesConcat(s[..i], s[i..]);
  }

  /** Restricting a suffix to what fits gives a suffix of what fits, starting at the same key. */
  lemma {:induction false} FittingFrom(s: seq<Key>, k: Key, budget: int)
    requires k in s && Bytes(k) <= budget
    ensures k in Fitting(s, budget) && Fitting(From(s, k), budget) == From(Fitting(s, budget), k)
  {
    if s[0] != k {
      FittingFrom(s[1..], k, budget);
      if Bytes(s[0]) <= budget { assert Fitting(s, budget)[1..] == Fitting(s[1..], budget); }
    }
  }

  /** The suffix that is kept is the suffix from its own oldest key. */
  lemma KeptIsFromOldest(s: seq<Key>, budget: int)
    requires Distinct(s) && LongestSuffix(s, budget) != []
    ensures var kept := LongestSuffix(s, budget);
            kept[0] in s && From(s, kept[0]) == kept
  {
    var dropped, kept := SplitStack(s, budget);
    assert s[|dropped|] == kept[0];
    FromAt(s, kept[0], |dropped|);
  }

  ghost predicate Includes(larger: seq<Key>, smaller: seq<Key>) { forall k :: k in smaller ==> k in larger }

  /** Maps that fit only the larger budget and were used since the smaller cache's oldest entry was. */
  ghost function MidSized(history: seq<Key>, small: int, large: int): seq<Key> {
    var stack, kept := Fitting(Recency(history), large), Resident(history, small);
    if kept != [] && kept[0] in stack then Exceeding(From(stack, kept[0]), small) else []
  }

  /** The larger stack from the smaller cache's oldest entry: its contents and the mid-sized maps among them. */
  lemma StackFromOldest(history: seq<Key>, small: int, large: int)
    requires small <= large && Resident(history, small) != []
    ensures var kept, stack := Resident(history, small), Fitting(Recency(history), large);
            && kept[0] in stack
            && Fitting(From(stack, kept[0]), small) == kept
            && TotalBytes(From(stack, kept[0])) == TotalBytes(kept) + TotalBytes(MidSized(history, small, large))
  {
    var kept, stack := Resident(history, small), Fitting(Recency(history), large);
    RecencyDistinct(history);
    FittingDistinct(Recency(history), small);
    FittingTwice(Recency(history), small, large);
    KeptIsFromOldest(Fitting(Recency(history), small), small);
    ResidentFits(history, kept[0], small);
    assert kept[0] in stack;
    FittingFrom(stack, kept[0], small);
    BytesSplit(From(stack, kept[0]), small);
  }

  lemma {:induction false} FromMembers(s: seq<Key>, k: Key, x: Key)
    requires k in s && x in From(s, k)
    ensures x in s
  {
    if s[0] != k { FromMembers(s[1..], k, x); }
  }

  lemma {:induction false} FromIsTransitive(s: seq<Key>, k: Key, x: Key)
    requires Distinct(s) && k in s && x in From(s, k)
    ensures x in s && TotalBytes(From(s, x)) <= TotalBytes(From(s, k))
  {
    FromMembers(s, k, x);
    if s[0] == k {
      FromIsSmaller(s, x);
    } else {
      FromIsTransitive(s[1..], k, x);
      assert x in s[1..] && x != s[0];
    }
  }

  lemma {:induction false} FromIsSmaller(s: seq<Key>, k: Key)
    requires k in s
    ensures TotalBytes(From(s, k)) <= TotalBytes(s)
  {
    if s[0] != k { FromIsSmaller(s[1..], k); }
  }

  /** The mid-sized maps leave room in the large budget for what the small one keeps. */
  ghost predicate LeavesRoom(history: seq<Key>, small: int, large: int) {
    var kept := Resident(history, small);
    kept == [] || TotalBytes(kept) + TotalBytes(MidSized(history, small, large)) <= large
  }

  /**
   * Exactly when the larger cache holds everything the smaller one does: the small contents, together
   * with the maps too large for the small budget that were used since its oldest entry, fit the large
   * budget.
   */
  lemma {:induction false} InclusionIff(history: seq<Key>, small: int, large: int)
    requires small <= large
    ensures Includes(Resident(history, large), Resident(history, small))
       <==> LeavesRoom(history, small, large)
  {
    var kept, stack := Resident(history, small), Fitting(Recency(history), large);
    if kept != [] {
      RecencyDistinct(history);
      FittingDistinct(Recency(history), large);
      StackFromOldest(history, small, large);
      KeptIffRecentFits(stack, large, kept[0]);
      if TotalBytes(From(stack, kept[0])) <= large {
        forall k | k in kept ensures k in Resident(history, large) {
          FromIsTransitive(stack, kept[0], k);
          KeptIffRecentFits(stack, large, k);
        }
      } else {
        assert kept[0] in kept && kept[0] !in Resident(history, large);
      }
    }
  }

  lemma {:induction false} NothingExceeds(s: seq<Key>, budget: int)
    requires forall k :: k in s ==> Bytes(k) <= budget
    ensures Exceeding(s, budget) == []
  {
    if s != [] { NothingExceeds(s[1..], budget); }
  }

  lemma NothingMidSized(history: seq<Key>, small: int, large: int)
    requires small <= large
    requires forall k :: k in history ==> Bytes(k) <= small
    ensures MidSized(history, small, large) == []
  {
    var stack, kept := Fitting(Recency(history), large), Resident(history, small);
    if kept != [] && kept[0] in stack {
      forall k | k in From(stack, kept[0]) ensures Bytes(k) <= small {
        FromMembers(stack, kept[0], k);
        RecencyMembers(history, k);
      }
      NothingExceeds(From(stack, kept[0]), small);
    }
  }

  /** When every requested map fits the smaller budget, the smaller contents end the larger ones. */
  lemma LargerBudgetContainsSmaller(history: seq<Key>, small: int, large: int)
    requires small <= large
    requires forall k :: k in history ==> Bytes(k) <= small
    ensures Includes(Resident(history, large), Resident(history, small))
    ensures var a, b := Resident(history, small), Resident(history, large);
            |a| <= |b| && a == b[|b| - |a|..]
  {
    var s := Recency(history);
    forall k | k in s ensures Bytes(k) <= small { RecencyMembers(history, k); }
    EverythingFits(s, small);
    EverythingFits(s, large) by { assert forall k :: k in s ==> Bytes(k) <= large; }
    NothingMidSized(history, small, large);
    LongestSuffixIsFittingSuffix(s, small);
    InclusionIff(history, small, large);
    RecencyDistinct(history);
    IncludedSuffixIsShorter(s, Resident(history, small), Resident(history, large), large);
  }

  /** Of two suffixes of a stack without repetition, an included one is a suffix of the other. */
  lemma IncludedSuffixIsShorter(s: seq<Key>, a: seq<Key>, b: seq<Key>, large: int)
    requires Distinct(s) && b == LongestSuffix(s, large)
    requires |a| <= |s| && a == s[|s| - |a|..] && Includes(b, a)
    ensures |a| <= |b| && a == b[|b| - |a|..]
  {
    LongestSuffixIsFittingSuffix(s, large);
    if a != [] {
      assert a[0] in a && a[0] in b;
      var j :| 0 <= j < |b| && b[j] == a[0];
      assert s[|s| - |a|] == a[0] && s[|s| - |b| + j] == b[j];
    }
  }

  /** A larger cache whose mid-sized maps leave room before every request never hits less often. */
  lemma {:induction false} RoomMeansMoreHits(history: seq<Key>, small: int, large: int)
    requires small <= large
    requires forall i :: 0 <= i < |history| ==> LeavesRoom(history[..i], small, large)
    ensures HitCount(history, small) <= HitCount(history, large)
  {
    if history != [] {
      var last := |history| - 1;
      var before := history[..last];
      forall i | 0 <= i < |before| ensures LeavesRoom(before[..i], small, large) {
        assert before[..i] == history[..i];
      }
      RoomMeansMoreHits(before, small, large);
      assert LeavesRoom(history[..last], small, large);
      InclusionIff(before, small, large);
    }
  }

  /** ... and a cache whose requests all fit the smaller budget is such a one. */
  lemma LargerBudgetHitsMore(history: seq<Key>, small: int, large: int)
    requires small <= large
    requires forall k :: k in history ==> Bytes(k) <= small
    ensures HitCount(history, small) <= HitCount(history, large)
  {
    forall i | 0 <= i < |history| ensures LeavesRoom(history[..i], small, large) {
      LargerBudgetContainsSmaller(history[..i], small, large);
      InclusionIff(history[..i], small, large);
    }
    RoomMeansMoreHits(history, small, large);
  }

  /**
   * A failing history: the second map fits only the larger budget, where it pushes the first one out;
   * the smaller cache skips it and keeps the first.
   */
  lemma MidSizedMapBreaksInclusion()
    ensures var one, two := Key([1], Action([0], 1, [])), Key([2], Action([0], 1, []));
            && one in Resident([one, two], 8)
            && one !in Resident([one, two], 16)
  {
    var one, two := Key([1], Action([0], 1, [])), Key([2], Action([0], 1, []));
    assert Bytes(one) == 8 && Bytes(two) == 16 by { assert [1][1..] == [] && [2][1..] == []; }
    FirstRequest(one, 8);
    FirstRequest(one, 16);
    ResidentAfterOversized([one], two, 8);
    ResidentAfterMiss([one], two, 16);
    assert [one] + [two] == [one, two] && [one, two][1..] == [two] && [two][1..] == [];
    assert TotalBytes([two]) == 16 && TotalBytes([one, two]) == 24;
    assert LongestSuffix([one, two], 16) == LongestSuffix([two], 16) == [two];
  }

  lemma FirstRequest(k: Key, budget: int)
    requires Bytes(k) <= budget
    ensures Resident([k], budget) == [k]
  {
    assert Resident([], budget) == [];
    ResidentAfterMiss([], k, budget);
    assert [] + [k] == [k] && [k][1..] == [];
    assert TotalBytes([k]) == Bytes(k);
  }
}
