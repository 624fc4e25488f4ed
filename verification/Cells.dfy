/**
 * Array cells at the level comparisons see them: exact values, floats with two zeros and NaN, and
 * pairs of floats. Two cells are the same datatype value exactly when they are the same bits.
 */
module Cells {
  import opened RowMajor

  type Magnitude = x: real | x >= 0.0 witness 0.0

  datatype Float =
    | NaN(negative: bool, payload: nat)
    | Infinite(negative: bool)
    | Finite(negative: bool, magnitude: Magnitude)

  /** `==` of IEEE 754-2019, section 5.11: NaN equals nothing and the zeros are equal. */
  predicate FloatEqual(a: Float, b: Float) {
    match (a, b)
    case (NaN(_, _), _) => false
    case (_, NaN(_, _)) => false
    case (Infinite(s), Infinite(t)) => s == t
    case (Finite(s, x), Finite(t, y)) => x == y && (s == t || x == 0.0)
    case _ => false
  }

  /** `np.dtype.kind`, as far as comparisons care: 'f', 'c', or any kind compared exactly. */
  datatype Kind = Exact | Floating | Complex

  datatype Cell = ExactCell(v: int) | FloatCell(f: Float) | ComplexCell(re: Float, im: Float)

  predicate OfKind(c: Cell, kind: Kind) {
    match kind
    case Exact => c.ExactCell?
    case Floating => c.FloatCell?
    case Complex => c.ComplexCell?
  }

  predicate CellEqual(a: Cell, b: Cell) {
    match (a, b)
    case (ExactCell(x), ExactCell(y)) => x == y
    case (FloatCell(x), FloatCell(y)) => FloatEqual(x, y)
    case (ComplexCell(x, u), ComplexCell(y, v)) => FloatEqual(x, y) && FloatEqual(u, v)
    case _ => false
  }

  /** `np.signbit(array.real)`. */
  function RealSign(c: Cell): bool {
    match c
    case ExactCell(v) => v < 0
    case FloatCell(f) => f.negative
    case ComplexCell(re, _) => re.negative
  }

  function ImagSign(c: Cell): bool { c.ComplexCell? && c.im.negative }

  predicate HasNaN(c: Cell) {
    match c
    case ExactCell(_) => false
    case FloatCell(f) => f.NaN?
    case ComplexCell(re, im) => re.NaN? || im.NaN?
  }

  datatype NdArray = NdArray(shape: Shape, kind: Kind, data: seq<Cell>)

  ghost predicate WellTyped(a: NdArray) {
    |a.data| == Size(a.shape) && forall k :: 0 <= k < |a.data| ==> OfKind(a.data[k], a.kind)
  }

  ghost predicate NaNFree(a: NdArray) { forall k :: 0 <= k < |a.data| ==> !HasNaN(a.data[k]) }

  /** `np.array_equal` of equally shaped buffers. */
  predicate ArrayEqual(x: seq<Cell>, y: seq<Cell>) {
    |x| == |y| && forall k :: 0 <= k < |x| ==> CellEqual(x[k], y[k])
  }

  predicate RealSignsEqual(x: seq<Cell>, y: seq<Cell>) {
    |x| == |y| && forall k :: 0 <= k < |x| ==> RealSign(x[k]) == RealSign(y[k])
  }

  predicate ImagSignsEqual(x: seq<Cell>, y: seq<Cell>) {
    |x| == |y| && forall k :: 0 <= k < |x| ==> ImagSign(x[k]) == ImagSign(y[k])
  }

  /** Equality plus agreeing sign bits is identity of bits, and rules NaN out. */
  lemma SignedEqualityIsIdentity(a: Cell, b: Cell, kind: Kind)
    requires OfKind(a, kind) && OfKind(b, kind)
    ensures CellEqual(a, b)
            && (kind != Exact ==> RealSign(a) == RealSign(b))
            && (kind == Complex ==> ImagSign(a) == ImagSign(b))
            <==> a == b && !HasNaN(a)
  {
  }
}
