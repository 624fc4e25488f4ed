/** Cell counts of triangles and diagonals, against the sets of cells they are meant to count. */
module MatrixCells {
  import opened Arithmetic
  import opened FiniteSets
  import opened Options
  import opened RowMajor

  type Cell = (int, int)

  ghost function Row(i: int, lo: int, hi: int): (r: set<Cell>)
    ensures forall c: Cell :: c in r <==> c.0 == i && lo <= c.1 < hi
    ensures |r| == if lo <= hi then hi - lo else 0
    decreases hi - lo
  {
    if lo >= hi then {} else Row(i, lo, hi - 1) + {(i, hi - 1)}
  }

  ghost function Grid(m: nat, n: nat): (r: set<Cell>)
    ensures forall c: Cell :: c in r <==> 0 <= c.0 < m && 0 <= c.1 < n
    ensures |r| == m * n
  {
    if m == 0 then {} else
      assert Grid(m - 1, n) !! Row(m - 1, 0, n);
      Grid(m - 1, n) + Row(m - 1, 0, n)
  }

  // ---- Triangles ----

  ghost predicate Kept(c: Cell, k: int, upper: bool) {
    if upper then c.1 >= c.0 + k else c.1 <= c.0 + k
  }

  /** Cells `triu` (upper) or `tril` (lower) keeps at offset `k`. */
  ghost function KeptCells(m: nat, n: nat, k: int, upper: bool): set<Cell> {
    set c | c in Grid(m, n) && Kept(c, k, upper)
  }

  function Clamp(x: int, hi: nat): nat { if x < 0 then 0 else if x > hi then hi else x }

  /** The cells of row `i` that are kept. */
  ghost function KeptInRow(i: nat, n: nat, k: int, upper: bool): set<Cell> {
    if upper then Row(i, Clamp(i + k, n), n) else Row(i, 0, Clamp(i + k + 1, n))
  }

  lemma KeptRowSplit(m: nat, n: nat, k: int, upper: bool)
    ensures KeptCells(m + 1, n, k, upper) == KeptCells(m, n, k, upper) + KeptInRow(m, n, k, upper)
    ensures KeptCells(m, n, k, upper) !! KeptInRow(m, n, k, upper)
  {
    forall c: Cell ensures c in KeptCells(m + 1, n, k, upper) <==>
                           c in KeptCells(m, n, k, upper) || c in KeptInRow(m, n, k, upper) {
      KeptCellIn(m, n, k, upper, c);
    }
  }

  lemma KeptCellIn(m: nat, n: nat, k: int, upper: bool, c: Cell)
    ensures c in KeptCells(m + 1, n, k, upper) <==>
            c in KeptCells(m, n, k, upper) || c in KeptInRow(m, n, k, upper)
    ensures !(c in KeptCells(m, n, k, upper) && c in KeptInRow(m, n, k, upper))
  {
  }

  lemma KeptRow(m: nat, n: nat, k: int, upper: bool)
    ensures |KeptCells(m + 1, n, k, upper)|
         == |KeptCells(m, n, k, upper)| + (if upper then n - Clamp(m + k, n) else Clamp(m + k + 1, n))
  {
    hide KeptCells;
    KeptRowSplit(m, n, k, upper);
  }

  method TriangleKept(m: nat, n: nat, k: int, upper: bool) returns (kept: nat)
    ensures kept == |KeptCells(m, n, k, upper)|
  {
    kept := 0;
    assert KeptCells(0, n, k, upper) == {};
    for i := 0 to m
      invariant kept == |KeptCells(i, n, k, upper)|
    {
      KeptRow(i, n, k, upper);
      if upper {
        kept := kept + (n - Clamp(i + k, n));
      } else {
        kept := kept + Clamp(i + k + 1, n);
      }
    }
  }

  /** The two triangles that meet at a diagonal share out the whole matrix. */
  lemma TrianglesPartition(m: nat, n: nat, k: int)
    ensures |KeptCells(m, n, k, true)| + |KeptCells(m, n, k - 1, false)| == m * n
  {
    assert Grid(m, n) == KeptCells(m, n, k, true) + KeptCells(m, n, k - 1, false);
    assert KeptCells(m, n, k, true) !! KeptCells(m, n, k - 1, false);
  }

  lemma TransposeExchangesTriangles(m: nat, n: nat, k: int)
    ensures |KeptCells(m, n, k, true)| == |KeptCells(n, m, -k, false)|
  {
    var f := (c: Cell) => (c.1, c.0);
    var from, to := KeptCells(m, n, k, true), KeptCells(n, m, -k, false);
    forall d | d in to ensures exists c :: c in from && f(c) == d {
      assert f(f(d)) == d && f(d) in from;
    }
    assert InjectiveOn(f, from);
    ImageCardinality(f, from, to);
  }

  // ---- Diagonals ----

  /** Ones an `eye(rows, cols, k)` writes. */
  function EyeDiagonalLength(rows: nat, cols: Option<nat>, k: int): int {
    var m := if cols.None? then rows else cols.value;
    if k >= 0 then Max(0, Min(rows, m - k)) else Max(0, Min(rows + k, m))
  }

  ghost function Diagonal(m: nat, n: nat, k: int): set<Cell> {
    set c | c in Grid(m, n) && c.1 == c.0 + k
  }

  ghost function DiagonalRun(k: int, lo: int, hi: int): (r: set<Cell>)
    ensures forall c: Cell :: c in r <==> lo <= c.0 < hi && c.1 == c.0 + k
    ensures |r| == if lo <= hi then hi - lo else 0
    decreases hi - lo
  {
    if lo >= hi then {} else DiagonalRun(k, lo, hi - 1) + {(hi - 1, hi - 1 + k)}
  }

  lemma DiagonalIsRun(m: nat, n: nat, k: int)
    ensures Diagonal(m, n, k) == DiagonalRun(k, Max(0, -k), Min(m, n - k))
  {
    var run := DiagonalRun(k, Max(0, -k), Min(m, n - k));
    hide DiagonalRun;
    forall c: Cell ensures c in Diagonal(m, n, k) <==> c in run {}
  }

  lemma EyeLengthCountsDiagonal(m: nat, n: nat, k: int)
    ensures |Diagonal(m, n, k)| == EyeDiagonalLength(m, Some(n), k)
    ensures |Diagonal(m, m, k)| == EyeDiagonalLength(m, None, k)
  {
    hide Diagonal, DiagonalRun;
    DiagonalIsRun(m, n, k);
    DiagonalIsRun(m, m, k);
  }

  /** Moving the offset by one drops exactly the diagonal that `eye` would write. */
  lemma {:induction false} TriangleStepIsDiagonal(m: nat, n: nat, k: int)
    ensures |KeptCells(m, n, k, true)| - |KeptCells(m, n, k + 1, true)| == EyeDiagonalLength(m, Some(n), k)
  {
    assert KeptCells(m, n, k, true) == KeptCells(m, n, k + 1, true) + Diagonal(m, n, k);
    assert KeptCells(m, n, k + 1, true) !! Diagonal(m, n, k);
    EyeLengthCountsDiagonal(m, n, k);
  }

  // ---- fill_diagonal ----

  /** `len(range(0, end, step))`. */
  function RangeLength(end: nat, step: nat): nat
    requires step > 0
  {
    if end == 0 then 0 else (end - 1) / step + 1
  }

  function FillDiagonalCells(shape: Shape, wrap: bool): nat {
    if |shape| < 2 then (if shape == [] then 0 else Size(shape))
    else if |shape| > 2 then shape[0]
    else
      var m, n := shape[0], shape[1];
      RangeLength(if wrap && m > n then m * n else if n * n < m * n then n * n else m * n, n + 1)
  }

  /** Wrapped cells of a tall matrix: the diagonal restarts below one blank row, every n + 1 rows. */
  ghost predicate OnDiagonal(c: Cell, n: nat, wrap: bool) {
    if wrap then (c.0 - c.1) % (n + 1) == 0 else c.0 == c.1
  }

  ghost function FilledCells(m: nat, n: nat, wrap: bool): set<Cell> {
    set c | c in Grid(m, n) && OnDiagonal(c, n, wrap)
  }

  /** The range length is the quotient rounded up. */
  lemma RangeLengthIs(end: nat, step: nat, q: nat, gap: nat)
    requires step > 0 && gap < step && end + gap == q * step
    ensures RangeLength(end, step) == q
  {
    ProductOrder(1, q, step);
    if end > 0 {
      assert q > 0;
      assert end - 1 == (q - 1) * step + (step - 1 - gap);
      DivisionIs(end - 1, step, q - 1, step - 1 - gap);
    }
  }

  /** Row `r` of the wrapped diagonal has its cell in column `r mod (n + 1)`, or is the blank row. */
  lemma WrappedRow(r: nat, c: nat, n: nat)
    requires c < n
    ensures OnDiagonal((r, c), n, true) <==> c == r % (n + 1)
  {
    var d := n + 1;
    var q, s := r / d, r % d;
    assert r - c == q * d + (s - c);
    if s >= c {
      DivisionIs(r - c, d, q, s - c);
    } else {
      assert r - c == (q - 1) * d + (d + s - c);
      DivisionIs(r - c, d, q - 1, d + s - c);
    }
  }

  ghost function WrappedRowCells(r: nat, n: nat): set<Cell> {
    if r % (n + 1) < n then {(r, r % (n + 1))} else {}
  }

  lemma WrappedRowSplit(r: nat, n: nat)
    ensures FilledCells(r + 1, n, true) == FilledCells(r, n, true) + WrappedRowCells(r, n)
    ensures FilledCells(r, n, true) !! WrappedRowCells(r, n)
  {
    hide OnDiagonal;
    forall c: Cell ensures c in WrappedRowCells(r, n) <==> c in Grid(r + 1, n) && c.0 == r && OnDiagonal(c, n, true) {
      if c in Grid(r + 1, n) && c.0 == r { WrappedRow(r, c.1, n); }
    }
    hide WrappedRowCells;
    forall c: Cell
      ensures c in FilledCells(r + 1, n, true) <==> c in FilledCells(r, n, true) || c in WrappedRowCells(r, n)
    {
    }
  }

  /** Rows of the wrapped diagonal: all but one in every n + 1. */
  lemma {:induction false} WrappedCount(m: nat, n: nat)
    ensures |FilledCells(m, n, true)| == m - m / (n + 1)
  {
    if m == 0 {
      assert FilledCells(0, n, true) == {};
    } else {
      var r, d := m - 1, n + 1;
      WrappedCount(r, n);
      WrappedRowSplit(r, n);
      assert |WrappedRowCells(r, n)| == if r % d < n then 1 else 0;
      NextQuotient(r, n);
    }
  }

  lemma NextQuotient(r: nat, n: nat)
    ensures (r + 1) / (n + 1) == r / (n + 1) + (if r % (n + 1) < n then 0 else 1)
  {
    var d := n + 1;
    if r % d < n {
      DivisionIs(r + 1, d, r / d, r % d + 1);
    } else {
      assert r + 1 == (r / d + 1) * d;
      DivisionIs(r + 1, d, r / d + 1, 0);
    }
  }

  lemma PlainCount(m: nat, n: nat)
    ensures |FilledCells(m, n, false)| == Min(m, n)
  {
    assert FilledCells(m, n, false) == DiagonalRun(0, 0, Min(m, n));
  }

  lemma WrappedRangeLength(m: nat, n: nat)
    ensures RangeLength(m * n, n + 1) == m - m / (n + 1)
  {
    var d := n + 1;
    var q := m / d;
    assert m == q * d + m % d;
    assert q <= m by { ProductOrder(1, d, q); }
    assert m * n + m % d == (m - q) * d;
    RangeLengthIs(m * n, d, m - q, m % d);
  }

  lemma PlainRangeLength(p: nat, n: nat)
    requires p <= n
    ensures RangeLength(p * n, n + 1) == p
  {
    assert p * n + p == p * (n + 1);
    RangeLengthIs(p * n, n + 1, p, p);
  }

  lemma PlainCharge(m: nat, n: nat, wrap: bool)
    requires !(wrap && m > n)
    ensures FillDiagonalCells([m, n], wrap) == Min(m, n)
  {
    ProductOrder(m, n, n);
    ProductOrder(n, m, n);
    PlainRangeLength(Min(m, n), n);
  }

  /** The 2-D charge is the number of cells written, with and without wrapping. */
  lemma FillDiagonalCountsCells(m: nat, n: nat, wrap: bool)
    ensures FillDiagonalCells([m, n], wrap) == |FilledCells(m, n, wrap && m > n)|
  {
    if wrap && m > n {
      WrappedCount(m, n);
      WrappedRangeLength(m, n);
    } else {
      PlainCount(m, n);
      PlainCharge(m, n, wrap);
    }
  }

  /** The main diagonal of a cube of `k` axes: the indices whose entries are all the same. */
  ghost function MainDiagonal(n: nat, k: nat): (r: set<seq<nat>>)
    requires k > 0
    ensures forall t: seq<nat> :: t in r <==> |t| == k && t[0] < n && forall a :: 0 <= a < k ==> t[a] == t[0]
    ensures |r| == n
  {
    var f := (v: nat) => seq(k, _ => v);
    var r := set v | v in Indices(n) :: f(v);
    assert InjectiveOn(f, Indices(n)) by {
      forall v, w {:trigger f(v), f(w)} | v in Indices(n) && w in Indices(n) && f(v) == f(w) ensures v == w {
        assert f(v)[0] == v && f(w)[0] == w;
      }
    }
    ImageCardinality(f, Indices(n), r);
    forall t: seq<nat> | |t| == k && t[0] < n && forall a :: 0 <= a < k ==> t[a] == t[0] ensures t in r {
      assert t == f(t[0]) && t[0] in Indices(n);
    }
    r
  }

  /** On a cube of three or more axes the charge is the number of cells of the main diagonal, wrapped or not. */
  lemma FillDiagonalOfCube(n: nat, k: nat, wrap: bool)
    requires k > 2
    ensures FillDiagonalCells(seq(k, _ => n), wrap) == |MainDiagonal(n, k)|
  {
  }

  /** With fewer than two axes every cell counts, and an array without axes is not charged. */
  lemma FillDiagonalOfLine(n: nat, wrap: bool)
    ensures FillDiagonalCells([n], wrap) == |Indices(n)| && FillDiagonalCells([], wrap) == 0
  {
    assert [n][1..] == [];
    assert Size([n]) == n * Size([]);
  }

  /** A cell is on the wrapped diagonal exactly when its flat position is a multiple of n + 1. */
  lemma {:induction false} WrappedIffFlatMultiple(r: nat, c: nat, n: nat)
    requires c < n
    ensures OnDiagonal((r, c), n, true) <==> (r * n + c) % (n + 1) == 0
  {
    var d := n + 1;
    var q, s := (r - c) / d, (r - c) % d;
    assert r * n + c == (r - q) * d - s;
    if s == 0 {
      DivisionIs(r * n + c, d, r - q, 0);
    } else {
      assert r * n + c == (r - q - 1) * d + (d - s);
      DivisionIs(r * n + c, d, r - q - 1, d - s);
    }
  }

  /** The t-th written cell is (t + t div n, t mod n). */
  lemma {:induction false} FlatPositionCell(t: nat, n: nat)
    requires n > 0
    ensures t * (n + 1) == (t + t / n) * n + t % n
    ensures OnDiagonal((t + t / n, t % n), n, true)
  {
    assert t == (t / n) * n + t % n;
    assert t * (n + 1) == t * n + t;
    assert (t + t / n) * n == t * n + (t / n) * n;
    WrappedIffFlatMultiple(t + t / n, t % n, n);
    DivisionIs(t * (n + 1), n + 1, t, 0);
  }
}
