/** Cells, column type tags, and Python's `==` and `isinstance` on cells. */
module Values {

  import opened Errors

  /** The closed set of column types, written `str()`, `int()` and `float()` in a schema. */
  datatype TypeTag = TStr | TInt | TReal

  /** A cell: `None`, an `int`, a `str` or a `float` (held as a real; rounding is not modelled). */
  datatype Value = VNull | VInt(i: int) | VStr(s: string) | VReal(r: real)

  /** A row is positional: cell `k` belongs to column `k` of the schema. */
  type Row = seq<Value>

  /** `isinstance(v, <type of the column's sentinel>)`; `None` is of no column type. */
  predicate HasTag(v: Value, t: TypeTag)
  {
    match v
    case VNull => false
    case VInt(_) => t == TInt
    case VStr(_) => t == TStr
    case VReal(_) => t == TReal
  }

  /** Python `a == b` on two cells: an `int` and a `float` are equal when their numeric values are. */
  predicate PyEq(a: Value, b: Value)
  {
    match a
    case VNull => b.VNull?
    case VStr(x) => b.VStr? && b.s == x
    case VInt(x) => (b.VInt? && b.i == x) || (b.VReal? && b.r == x as real)
    case VReal(x) => (b.VReal? && b.r == x) || (b.VInt? && b.i as real == x)
  }

  lemma PyEqSymmetric(a: Value, b: Value)
    ensures PyEq(a, b) == PyEq(b, a)
  {
  }

  lemma PyEqTransitive(a: Value, b: Value, c: Value)
    requires PyEq(a, b) && PyEq(b, c)
    ensures PyEq(a, c)
  {
  }

  /** Python `a == b` on two lists of cells. */
  predicate RowEq(a: Row, b: Row)
  {
    |a| == |b| && forall k :: 0 <= k < |a| ==> PyEq(a[k], b[k])
  }

  /** `v + 1` for the value found in the last row: ints and floats step by one, anything else raises `TypeError`. */
  function Successor(v: Value): (r: Option<Value>)
    ensures r.Some? <==> (v.VInt? || v.VReal?)
    ensures v.VInt? ==> r == Some(VInt(v.i + 1))
    ensures v.VReal? ==> r == Some(VReal(v.r + 1.0))
  {
    match v
    case VInt(x) => Some(VInt(x + 1))
    case VReal(x) => Some(VReal(x + 1.0))
    case _ => None
  }
}
