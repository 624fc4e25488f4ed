/**
 * What a byte-bounded LRU should hold, read off the request history alone: the longest run of
 * most recently used keys, among those whose map fits the budget at all, whose bytes fit.
 */
module RecencyStack {
  import opened FiniteSets
  import opened RowMajor
  import opened AxisActions

  datatype Key = Key(shape: Shape, action: Action)

  /** Bytes of one `np.intp`. */
  const INTP_BYTES: nat := 8

  /** `nbytes` of the orbit map of a key: one index per tensor element. */
  function Bytes(k: Key): nat { INTP_BYTES * Size(k.shape) }

  function TotalBytes(s: seq<Key>): nat {
    if s == [] then 0 else Bytes(s[0]) + TotalBytes(s[1..])
  }

  /** The keys other than `k`, in order. */
  function Without(s: seq<Key>, k: Key): (r: seq<Key>)
    ensures forall x :: x in r <==> x in s && x != k
  {
    if s == [] then []
    else if s[0] == k then Without(s[1..], k)
    else [s[0]] + Without(s[1..], k)
  }

  /** Move `k` to the most recent end. */
  function Touch(s: seq<Key>, k: Key): seq<Key> { Without(s, k) + [k] }

  /** Requested keys, least recently used first. */
  ghost function Recency(history: seq<Key>): seq<Key> {
    if history == [] then []
    else Touch(Recency(history[..|history| - 1]), history[|history| - 1])
  }

  ghost function Fitting(s: seq<Key>, budget: int): (r: seq<Key>)
    ensures forall x :: x in r <==> x in s && Bytes(x) <= budget
  {
    if s == [] then []
    else if Bytes(s[0]) <= budget then [s[0]] + Fitting(s[1..], budget)
    else Fitting(s[1..], budget)
  }

  /** The longest suffix whose bytes fit. */
  ghost function LongestSuffix(s: seq<Key>, budget: int): (r: seq<Key>)
    ensures |r| <= |s|
  {
    if s == [] || TotalBytes(s) <= budget then s else LongestSuffix(s[1..], budget)
  }

  /** The keys that should be resident after `history`, least recently used first. */
  ghost function Resident(history: seq<Key>, budget: int): seq<Key> {
    LongestSuffix(Fitting(Recency(history), budget), budget)
  }

  /** Requests that found their key resident. */
  ghost function HitCount(history: seq<Key>, budget: int): (c: nat)
    ensures c <= |history|
  {
    if history == [] then 0
    else
      var before := history[..|history| - 1];
      HitCount(before, budget) + (if history[|history| - 1] in Resident(before, budget) then 1 else 0)
  }

  // ---- Sequence algebra ----

  lemma {:induction false} TotalBytesConcat(a: seq<Key>, b: seq<Key>)
    ensures TotalBytes(a + b) == TotalBytes(a) + TotalBytes(b)
  {
    if a == [] {
      assert a + b == b;
    } else {
      assert (a + b)[1..] == a[1..] + b;
      TotalBytesConcat(a[1..], b);
    }
  }

  lemma {:induction false} WithoutConcat(a: seq<Key>, b: seq<Key>, k: Key)
    ensures Without(a + b, k) == Without(a, k) + Without(b, k)
  {
    if a == [] {
      assert a + b == b;
    } else {
      assert (a + b)[1..] == a[1..] + b;
      WithoutConcat(a[1..], b, k);
    }
  }

  lemma {:induction false} WithoutAbsent(s: seq<Key>, k: Key)
    requires k !in s
    ensures Without(s, k) == s
  {
    if s != [] { WithoutAbsent(s[1..], k); }
  }

  lemma {:induction false} FittingConcat(a: seq<Key>, b: seq<Key>, budget: int)
    ensures Fitting(a + b, budget) == Fitting(a, budget) + Fitting(b, budget)
  {
    if a == [] {
      assert a + b == b;
    } else {
      assert (a + b)[1..] == a[1..] + b;
      FittingConcat(a[1..], b, budget);
    }
  }

  lemma {:induction false} FittingWithout(s: seq<Key>, k: Key, budget: int)
    ensures Fitting(Without(s, k), budget) == Without(Fitting(s, budget), k)
  {
    if s != [] {
      FittingWithout(s[1..], k, budget);
      if s[0] != k { assert Without(s, k)[1..] == Without(s[1..], k); }
      if Bytes(s[0]) <= budget { assert Fitting(s, budget)[1..] == Fitting(s[1..], budget); }
    }
  }

  /** Restricting the stack commutes with touching a key that fits, and ignores one that does not. */
  lemma FittingTouch(s: seq<Key>, k: Key, budget: int)
    ensures Fitting(Touch(s, k), budget)
         == if Bytes(k) <= budget then Touch(Fitting(s, budget), k) else Fitting(s, budget)
  {
    FittingConcat(Without(s, k), [k], budget);
    FittingWithout(s, k, budget);
    assert [k][1..] == [];
    if Bytes(k) > budget { WithoutAbsent(Fitting(s, budget), k); }
  }

  lemma ConsDistinct(x: Key, s: seq<Key>)
    requires Distinct(s) && x !in s
    ensures Distinct([x] + s) && Distinct(s + [x])
  {
  }

  lemma {:induction false} WithoutDistinct(s: seq<Key>, k: Key)
    requires Distinct(s)
    ensures Distinct(Without(s, k))
  {
    if s != [] {
      WithoutDistinct(s[1..], k);
      if s[0] != k {
        assert s[0] !in s[1..];
        ConsDistinct(s[0], Without(s[1..], k));
      }
    }
  }

  lemma {:induction false} TouchKeepsBytes(s: seq<Key>, k: Key)
    requires Distinct(s) && k in s
    ensures TotalBytes(Touch(s, k)) == TotalBytes(s)
  {
    assert [k][1..] == [];
    TotalBytesConcat(Without(s, k), [k]);
    if s[0] == k {
      assert k !in s[1..];
      WithoutAbsent(s[1..], k);
    } else {
      TouchKeepsBytes(s[1..], k);
      TotalBytesConcat(Without(s[1..], k), [k]);
      assert Without(s, k)[1..] == Without(s[1..], k);
    }
  }

  lemma {:induction false} FittingDistinct(s: seq<Key>, budget: int)
    requires Distinct(s)
    ensures Distinct(Fitting(s, budget))
  {
    if s != [] {
      FittingDistinct(s[1..], budget);
      if Bytes(s[0]) <= budget { ConsDistinct(s[0], Fitting(s[1..], budget)); }
    }
  }

  lemma {:induction false} RecencyDistinct(history: seq<Key>)
    ensures Distinct(Recency(history))
  {
    if history != [] {
      var before, k := Recency(history[..|history| - 1]), history[|history| - 1];
      RecencyDistinct(history[..|history| - 1]);
      WithoutDistinct(before, k);
      ConsDistinct(k, Without(before, k));
    }
  }

  /** `b` was requested after the last request of `a`. */
  ghost predicate UsedLater(history: seq<Key>, a: Key, b: Key) {
    exists t :: 0 <= t < |history| && history[t] == b && a !in history[t..]
  }

  lemma {:induction false} WithoutKeepsOrder(s: seq<Key>, k: Key, i: nat, j: nat) returns (p: nat, q: nat)
    requires i < j < |Without(s, k)|
    ensures p < q < |s| && s[p] == Without(s, k)[i] && s[q] == Without(s, k)[j]
  {
    if s[0] == k {
      p, q := WithoutKeepsOrder(s[1..], k, i, j);
      p, q := p + 1, q + 1;
    } else if i > 0 {
      p, q := WithoutKeepsOrder(s[1..], k, i - 1, j - 1);
      p, q := p + 1, q + 1;
    } else {
      var r := Without(s[1..], k);
      assert r[j - 1] in r && r[j - 1] in s[1..];
      var t :| 0 <= t < |s[1..]| && s[1..][t] == r[j - 1];
      p, q := 0, t + 1;
    }
  }

  lemma UsedLaterStill(history: seq<Key>, k: Key, a: Key, b: Key)
    requires a != k
    ensures UsedLater(history, a, b) ==> UsedLater(history + [k], a, b)
    ensures UsedLater(history + [k], a, k)
  {
    var more := history + [k];
    if UsedLater(history, a, b) {
      var t :| 0 <= t < |history| && history[t] == b && a !in history[t..];
      assert more[t..] == history[t..] + [k] && more[t] == b;
    }
    assert more[|history|] == k && more[|history|..] == [k];
  }

  /** The stack is in the order of last requests. */
  lemma {:induction false} RecencyIsByLastRequest(history: seq<Key>, i: nat, j: nat)
    requires i < j < |Recency(history)|
    ensures UsedLater(history, Recency(history)[i], Recency(history)[j])
  {
    hide UsedLater, Without;
    var before, k := history[..|history| - 1], history[|history| - 1];
    var kept := Without(Recency(before), k);
    assert history == before + [k] && Recency(history) == kept + [k];
    var a, b := Recency(history)[i], Recency(history)[j];
    assert a == kept[i] && a in kept;
    UsedLaterStill(before, k, a, b);
    if j < |kept| {
      var p, q := WithoutKeepsOrder(Recency(before), k, i, j);
      RecencyIsByLastRequest(before, p, q);
    }
  }

  // ---- The longest fitting suffix ----

  lemma {:induction false} LongestSuffixIsFittingSuffix(s: seq<Key>, budget: int)
    ensures var r := LongestSuffix(s, budget);
            r == s[|s| - |r|..] && (r == [] || TotalBytes(r) <= budget)
  {
    if s != [] && TotalBytes(s) > budget { LongestSuffixIsFittingSuffix(s[1..], budget); }
  }

  lemma {:induction false} LongestSuffixIsLongest(s: seq<Key>, budget: int, i: nat)
    requires i < |s| - |LongestSuffix(s, budget)|
    ensures TotalBytes(s[i..]) > budget
  {
    if i > 0 {
      LongestSuffixIsLongest(s[1..], budget, i - 1);
      assert s[1..][i - 1..] == s[i..];
    }
  }

  lemma {:induction false} LongestSuffixSkips(q: seq<Key>, r: seq<Key>, budget: int)
    requires TotalBytes(r) > budget
    ensures LongestSuffix(q + r, budget) == LongestSuffix(r, budget)
  {
    if q == [] {
      assert q + r == r;
    } else {
      TotalBytesConcat(q, r);
      assert (q + r)[1..] == q[1..] + r;
      LongestSuffixSkips(q[1..], r, budget);
    }
  }

  /** `r` is the longest fitting suffix of `q + r` when it fits and one key more does not. */
  lemma LongestSuffixStops(q: seq<Key>, r: seq<Key>, budget: int)
    requires r == [] || TotalBytes(r) <= budget
    requires q == [] || Bytes(q[|q| - 1]) + TotalBytes(r) > budget
    ensures LongestSuffix(q + r, budget) == r
  {
    if q == [] {
      assert q + r == r;
    } else {
      var last := q[|q| - 1];
      var tail := [last] + r;
      assert tail[1..] == r;
      assert q + r == q[..|q| - 1] + tail;
      LongestSuffixSkips(q[..|q| - 1], tail, budget);
    }
  }

  /** Split the stack into what was dropped and what is kept. */
  lemma SplitStack(s: seq<Key>, budget: int) returns (dropped: seq<Key>, kept: seq<Key>)
    ensures s == dropped + kept && kept == LongestSuffix(s, budget)
    ensures kept == [] || TotalBytes(kept) <= budget
    ensures dropped == [] || Bytes(dropped[|dropped| - 1]) + TotalBytes(kept) > budget
  {
    LongestSuffixIsFittingSuffix(s, budget);
    kept := LongestSuffix(s, budget);
    var cut := |s| - |kept|;
    dropped := s[..cut];
    if cut > 0 {
      LongestSuffixIsLongest(s, budget, cut - 1);
      assert s[cut - 1..][1..] == kept;
    }
  }

  // ---- One request ----

  lemma RecencyStep(history: seq<Key>, k: Key, budget: int)
    ensures Fitting(Recency(history + [k]), budget)
         == if Bytes(k) <= budget then Touch(Fitting(Recency(history), budget), k)
            else Fitting(Recency(history), budget)
  {
    assert (history + [k])[..|history|] == history;
    FittingTouch(Recency(history), k, budget);
  }

  lemma LastSurvives(s: seq<Key>, k: Key)
    requires s != [] && s[|s| - 1] != k
    ensures Without(s, k) != [] && Without(s, k)[|Without(s, k)| - 1] == s[|s| - 1]
  {
    var init, last := s[..|s| - 1], s[|s| - 1];
    assert s == init + [last];
    WithoutConcat(init, [last], k);
    WithoutAbsent([last], k);
  }

  lemma TouchRecent(s: seq<Key>, k: Key, budget: int)
    requires Distinct(s) && k in LongestSuffix(s, budget)
    ensures LongestSuffix(Touch(s, k), budget) == Touch(LongestSuffix(s, budget), k)
  {
    var dropped, kept := SplitStack(s, budget);
    DistinctParts(dropped, kept);
    WithoutConcat(dropped, kept, k);
    WithoutAbsent(dropped, k);
    TouchKeepsBytes(kept, k);
    assert Touch(s, k) == dropped + Touch(kept, k);
    LongestSuffixStops(dropped, Touch(kept, k), budget);
  }

  lemma TouchForgotten(s: seq<Key>, k: Key, budget: int)
    requires k !in LongestSuffix(s, budget) && Bytes(k) <= budget
    ensures LongestSuffix(Touch(s, k), budget) == LongestSuffix(LongestSuffix(s, budget) + [k], budget)
  {
    var dropped, kept := SplitStack(s, budget);
    WithoutConcat(dropped, kept, k);
    WithoutAbsent(kept, k);
    var next := kept + [k];
    assert Touch(s, k) == Without(dropped, k) + next;
    if TotalBytes(next) > budget {
      LongestSuffixSkips(Without(dropped, k), next, budget);
    } else {
      assert [k][1..] == [];
      TotalBytesConcat(kept, [k]);
      if dropped != [] { LastSurvives(dropped, k); }
      LongestSuffixStops(Without(dropped, k), next, budget);
    }
  }

  /** A hit moves its key to the recent end and keeps the rest. */
  lemma ResidentAfterHit(history: seq<Key>, k: Key, budget: int)
    requires k in Resident(history, budget)
    ensures Resident(history + [k], budget) == Touch(Resident(history, budget), k)
  {
    RecencyDistinct(history);
    FittingDistinct(Recency(history), budget);
    RecencyStep(history, k, budget);
    LongestSuffixMembers(Fitting(Recency(history), budget), budget, k);
    TouchRecent(Fitting(Recency(history), budget), k, budget);
  }

  lemma LongestSuffixMembers(s: seq<Key>, budget: int, k: Key)
    requires k in LongestSuffix(s, budget)
    ensures k in s
  {
    LongestSuffixIsFittingSuffix(s, budget);
  }

  /** A miss appends its key and then drops as few of the least recent keys as possible. */
  lemma {:induction false} ResidentAfterMiss(history: seq<Key>, k: Key, budget: int)
    requires k !in Resident(history, budget) && Bytes(k) <= budget
    ensures Resident(history + [k], budget) == LongestSuffix(Resident(history, budget) + [k], budget)
  {
    RecencyStep(history, k, budget);
    TouchForgotten(Fitting(Recency(history), budget), k, budget);
  }

  /** A map larger than the whole budget leaves the contents untouched. */
  lemma ResidentAfterOversized(history: seq<Key>, k: Key, budget: int)
    requires Bytes(k) > budget
    ensures k !in Resident(history, budget)
    ensures Resident(history + [k], budget) == Resident(history, budget)
  {
    RecencyStep(history, k, budget);
    if k in Resident(history, budget) { ResidentFits(history, k, budget); }
  }

  lemma ResidentFits(history: seq<Key>, k: Key, budget: int)
    requires k in Resident(history, budget)
    ensures Bytes(k) <= budget
  {
    LongestSuffixMembers(Fitting(Recency(history), budget), budget, k);
  }

  lemma ResidentDistinct(history: seq<Key>, budget: int)
    ensures Distinct(Resident(history, budget))
  {
    RecencyDistinct(history);
    FittingDistinct(Recency(history), budget);
    var dropped, kept := SplitStack(Fitting(Recency(history), budget), budget);
    DistinctParts(dropped, kept);
  }
}
