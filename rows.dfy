/**
 * Operations on positional rows and on a table's list of rows that both
 * revisions of the row store share: auto-increment synthesis into the
 * caller's list (`row_data.insert(index, …)`), and the delete loop that
 * removes rows from `self.data` while iterating over it.
 */
module RowOps {
  import opened Errors
  import opened Values

  // ---------------------------------------------------------------------
  // Auto-increment synthesis
  // ---------------------------------------------------------------------

  /** Python `lst.insert(k, x)`: an index past the end appends. */
  function ListInsert(s: Row, k: nat, x: Value): (r: Row)
    ensures |r| == |s| + 1
  {
    if k <= |s| then s[..k] + [x] + s[k..] else s + [x]
  }

  /** `self.data[len(self.data)-1]`, or nothing when the table is empty. */
  function LastRow(data: seq<Row>): Option<Row>
  {
    if |data| == 0 then None else Some(data[|data| - 1])
  }

  /**
   * The value synthesised for auto-increment column `k`: the last row's
   * value there plus one; `0` when that raises `IndexError` (no last row, or
   * a last row too short); nothing when `+ 1` raises `TypeError`.
   */
  function AutoValue(last: Option<Row>, k: nat): Option<Value>
  {
    if last.None? || k >= |last.value| then Some(VInt(0)) else Successor(last.value[k])
  }

  /** Number of auto-increment columns among `flags`. */
  function CountTrue(flags: seq<bool>): (n: nat)
    ensures n <= |flags|
  {
    if |flags| == 0 then 0 else (if flags[0] then 1 else 0) + CountTrue(flags[1..])
  }

  /** Number of ordinary (caller-supplied) columns among `flags`. */
  function CountFalse(flags: seq<bool>): (n: nat)
    ensures n <= |flags|
  {
    if |flags| == 0 then 0 else (if flags[0] then 0 else 1) + CountFalse(flags[1..])
  }

  /** The cells of `s` at the ordinary columns, in order: what a caller supplies. */
  function Kept(flags: seq<bool>, s: Row): Row
    requires |flags| == |s|
  {
    if |flags| == 0 then [] else (if flags[0] then [] else [s[0]]) + Kept(flags[1..], s[1..])
  }

  /** The synthesis loop from column `k` on, inserting into `row` in place. */
  function SynthFrom(flags: seq<bool>, last: Option<Row>, row: Row, k: nat): Result<Row>
    decreases |flags| - k
  {
    if k >= |flags| then Ok(row)
    else if flags[k] then
      match AutoValue(last, k)
      case None => Err(AutoIncrementNotNumeric)
      case Some(v) => SynthFrom(flags, last, ListInsert(row, k, v), k + 1)
    else SynthFrom(flags, last, row, k + 1)
  }

  /** The list the caller's `row_data` becomes when fewer values than columns are given. */
  function Synthesize(flags: seq<bool>, last: Option<Row>, row: Row): Result<Row>
  {
    SynthFrom(flags, last, row, 0)
  }

  lemma CountSplit(flags: seq<bool>)
    ensures CountTrue(flags) + CountFalse(flags) == |flags|
  {
  }

  lemma {:induction false} SynthLength(flags: seq<bool>, last: Option<Row>, row: Row, k: nat)
    requires k <= |flags|
    requires SynthFrom(flags, last, row, k).Ok?
    ensures |SynthFrom(flags, last, row, k).value| == |row| + CountTrue(flags[k..])
    decreases |flags| - k
  {
    if k == |flags| {
      assert flags[k..] == [];
    } else {
      assert flags[k..][1..] == flags[k + 1..];
      if flags[k] {
        SynthLength(flags, last, ListInsert(row, k, AutoValue(last, k).value), k + 1);
      } else {
        SynthLength(flags, last, row, k + 1);
      }
    }
  }

  /** Synthesis fails exactly when some auto-increment column's last value cannot be incremented. */
  lemma {:induction false} SynthFailsIff(flags: seq<bool>, last: Option<Row>, row: Row, k: nat)
    requires k <= |flags|
    ensures SynthFrom(flags, last, row, k).Err? <==>
            exists j :: k <= j < |flags| && flags[j] && AutoValue(last, j).None?
    decreases |flags| - k
  {
    if k < |flags| {
      if flags[k] && AutoValue(last, k).Some? {
        SynthFailsIff(flags, last, ListInsert(row, k, AutoValue(last, k).value), k + 1);
      } else if !flags[k] {
        SynthFailsIff(flags, last, row, k + 1);
      }
    }
  }

  /** What the synthesis from `k + 1` on says about column `k` and the columns before it. */
  lemma PlacesShift(flags: seq<bool>, p: Row, x: Value, rest: Row, k: nat, s: Row)
    requires k == |p| && k < |flags| && |s| == |flags|
    requires s[..k + 1] == p + [x] && Kept(flags[k + 1..], s[k + 1..]) == rest
    ensures s[..k] == p && s[k] == x
    ensures Kept(flags[k..], s[k..]) == if flags[k] then rest else [x] + rest
  {
    assert s[..k] == s[..k + 1][..k];
    assert s[k] == s[..k + 1][k];
    assert flags[k..][1..] == flags[k + 1..];
    assert s[k..][1..] == s[k + 1..];
  }

  lemma {:induction false} SynthPlaces(flags: seq<bool>, last: Option<Row>, p: Row, q: Row, k: nat)
    requires k == |p| && k <= |flags| && |q| == CountFalse(flags[k..])
    requires SynthFrom(flags, last, p + q, k).Ok?
    ensures var s := SynthFrom(flags, last, p + q, k).value;
      |s| == |flags| && s[..k] == p && Kept(flags[k..], s[k..]) == q &&
      forall j :: k <= j < |flags| && flags[j] ==> AutoValue(last, j) == Some(s[j])
    decreases |flags| - k
  {
    if k == |flags| {
      assert flags[k..] == [];
      assert p + q == p;
    } else {
      assert flags[k..][1..] == flags[k + 1..];
      var s := SynthFrom(flags, last, p + q, k).value;
      if flags[k] {
        var v := AutoValue(last, k).value;
        assert ListInsert(p + q, k, v) == (p + [v]) + q;
        assert SynthFrom(flags, last, p + q, k) == SynthFrom(flags, last, (p + [v]) + q, k + 1);
        SynthPlaces(flags, last, p + [v], q, k + 1);
        PlacesShift(flags, p, v, q, k, s);
      } else {
        assert p + q == (p + [q[0]]) + q[1..];
        assert SynthFrom(flags, last, p + q, k) == SynthFrom(flags, last, (p + [q[0]]) + q[1..], k + 1);
        SynthPlaces(flags, last, p + [q[0]], q[1..], k + 1);
        PlacesShift(flags, p, q[0], q[1..], k, s);
        assert q == [q[0]] + q[1..];
      }
    }
  }

  /**
   * When exactly the ordinary values are supplied, synthesis lays them out
   * in order at the ordinary columns and puts each auto-increment column's
   * synthesised value at its own position: `Kept` undoes `Synthesize`.
   */
  lemma SynthesizeAligned(flags: seq<bool>, last: Option<Row>, row: Row)
    requires |row| + CountTrue(flags) == |flags|
    requires Synthesize(flags, last, row).Ok?
    ensures var s := Synthesize(flags, last, row).value;
      |s| == |flags| && Kept(flags, s) == row &&
      forall j :: 0 <= j < |flags| && flags[j] ==> AutoValue(last, j) == Some(s[j])
  {
    CountSplit(flags);
    assert flags[0..] == flags;
    assert [] + row == row;
    SynthPlaces(flags, last, [], row, 0);
    var s := Synthesize(flags, last, row).value;
    assert s[0..] == s;
  }

  // ---------------------------------------------------------------------
  // Matching rows
  // ---------------------------------------------------------------------

  /** `row[c] == v`. */
  predicate Matches(row: Row, c: nat, v: Value)
  {
    c < |row| && PyEq(row[c], v)
  }

  /** The rows of `data`, in order, that match (`want`) or do not match (`!want`) column `c == v`. */
  function Select(data: seq<Row>, c: nat, v: Value, want: bool): (r: seq<Row>)
    ensures |r| <= |data|
  {
    if |data| == 0 then []
    else Select(data[..|data| - 1], c, v, want) +
         (if Matches(data[|data| - 1], c, v) == want then [data[|data| - 1]] else [])
  }

  /** `[row for row in data if row[c] == v]`. */
  function Matching(data: seq<Row>, c: nat, v: Value): seq<Row>
  {
    Select(data, c, v, true)
  }

  lemma {:induction false} SelectConcat(a: seq<Row>, b: seq<Row>, c: nat, v: Value, want: bool)
    ensures Select(a + b, c, v, want) == Select(a, c, v, want) + Select(b, c, v, want)
    decreases |b|
  {
    if |b| == 0 {
      assert a + b == a;
    } else {
      var b' := b[..|b| - 1];
      assert (a + b)[..|a + b| - 1] == a + b';
      SelectConcat(a, b', c, v, want);
    }
  }

  /** A selection is empty exactly when no row qualifies. */
  lemma {:induction false} SelectEmptyIff(data: seq<Row>, c: nat, v: Value, want: bool)
    ensures |Select(data, c, v, want)| == 0 <==> forall k :: 0 <= k < |data| ==> Matches(data[k], c, v) != want
    decreases |data|
  {
    if |data| > 0 {
      SelectEmptyIff(data[..|data| - 1], c, v, want);
      var init := data[..|data| - 1];
      assert forall k :: 0 <= k < |init| ==> init[k] == data[k];
    }
  }

  /** When every row qualifies, selection keeps all of `data`. */
  lemma {:induction false} SelectAll(data: seq<Row>, c: nat, v: Value, want: bool)
    requires forall k :: 0 <= k < |data| ==> Matches(data[k], c, v) == want
    ensures Select(data, c, v, want) == data
    decreases |data|
  {
    if |data| > 0 {
      var init := data[..|data| - 1];
      assert forall k :: 0 <= k < |init| ==> init[k] == data[k];
      SelectAll(init, c, v, want);
      assert init + [data[|data| - 1]] == data;
    }
  }

  /** Every row is either matching or not: the two selections partition `data`. */
  lemma {:induction false} SelectPartition(data: seq<Row>, c: nat, v: Value)
    ensures |Select(data, c, v, true)| + |Select(data, c, v, false)| == |data|
    decreases |data|
  {
    if |data| > 0 {
      SelectPartition(data[..|data| - 1], c, v);
    }
  }

  /** A selection only holds rows of `data`. */
  lemma {:induction false} SelectWithin(data: seq<Row>, c: nat, v: Value, want: bool)
    ensures forall r :: r in Select(data, c, v, want) ==> r in data
    decreases |data|
  {
    if |data| > 0 {
      var init := data[..|data| - 1];
      SelectWithin(init, c, v, want);
      assert forall r :: r in init ==> r in data;
    }
  }

  lemma SelectSplitAt(data: seq<Row>, j: nat, c: nat, v: Value, want: bool)
    requires j < |data|
    ensures Select(data, c, v, want) ==
            Select(data[..j], c, v, want) + Select([data[j]], c, v, want) + Select(data[j + 1..], c, v, want)
  {
    assert data == data[..j] + [data[j]] + data[j + 1..];
    SelectConcat(data[..j] + [data[j]], data[j + 1..], c, v, want);
    SelectConcat(data[..j], [data[j]], c, v, want);
  }

  // ---------------------------------------------------------------------
  // The delete loop
  // ---------------------------------------------------------------------

  lemma RowEqReflexive(a: Row)
    ensures RowEq(a, a)
  {
    forall k | 0 <= k < |a| ensures PyEq(a[k], a[k]) {
      match a[k]
      case VNull =>
      case VInt(_) =>
      case VStr(_) =>
      case VReal(_) =>
    }
  }

  /** `data.index(row)` as `list.remove` finds it: the first row equal to `row`, or `|data|`. */
  function IndexOfRow(data: seq<Row>, row: Row): (j: nat)
    ensures j <= |data|
    ensures j < |data| ==> RowEq(data[j], row)
    ensures forall k :: 0 <= k < j ==> !RowEq(data[k], row)
  {
    if |data| == 0 then 0
    else if RowEq(data[0], row) then 0
    else 1 + IndexOfRow(data[1..], row)
  }

  /** `data` without its row at index `j`. */
  function Remove(data: seq<Row>, j: nat): (r: seq<Row>)
    requires j < |data|
    ensures |r| == |data| - 1
  {
    data[..j] + data[j + 1..]
  }

  /** Every row left after a removal was in the list before. */
  lemma RemoveKeepsRows(data: seq<Row>, j: nat)
    requires j < |data|
    ensures forall rw :: rw in Remove(data, j) ==> rw in data
  {
    forall rw | rw in Remove(data, j) ensures rw in data {
      var q :| 0 <= q < |Remove(data, j)| && Remove(data, j)[q] == rw;
      if q < j { assert rw == data[q]; } else { assert rw == data[q + 1]; }
    }
  }

  /** Rows left and rows removed by the delete loop. */
  datatype Scan = Scan(rows: seq<Row>, removed: nat)

  /**
   * `for row in data: if row[c] == v: data.remove(row); counter += 1`,
   * from iterator position `k` on. `remove` drops the FIRST row equal to
   * `row`, and the iterator's position is not adjusted, so the row that
   * slides into the removed slot is never looked at.
   */
  function DeleteScan(data: seq<Row>, c: nat, v: Value, k: nat, count: nat): Scan
    decreases |data| - k
  {
    if k >= |data| then Scan(data, count)
    else if Matches(data[k], c, v) then
      RowEqReflexive(data[k]);
      DeleteScan(Remove(data, IndexOfRow(data, data[k])), c, v, k + 1, count + 1)
    else DeleteScan(data, c, v, k + 1, count)
  }

  /** The row `list.remove` drops for a matching row is itself a matching row. */
  lemma RemovedRowMatches(data: seq<Row>, k: nat, c: nat, v: Value)
    requires k < |data| && Matches(data[k], c, v)
    ensures IndexOfRow(data, data[k]) <= k
    ensures Matches(data[IndexOfRow(data, data[k])], c, v)
  {
    RowEqReflexive(data[k]);
    var j := IndexOfRow(data, data[k]);
    assert PyEq(data[j][c], data[k][c]);
    PyEqTransitive(data[j][c], data[k][c], v);
  }

  /** Removing a matching row lowers the number of matching rows by one. */
  lemma RemoveMatching(data: seq<Row>, j: nat, c: nat, v: Value)
    requires j < |data| && Matches(data[j], c, v)
    ensures |Matching(Remove(data, j), c, v)| == |Matching(data, c, v)| - 1
  {
    SelectSplitAt(data, j, c, v, true);
    SelectConcat(data[..j], data[j + 1..], c, v, true);
    assert Select([data[j]], c, v, true) == Select([], c, v, true) + [data[j]];
  }

  /** Removing a matching row leaves the non-matching rows, in order, as they were. */
  lemma RemoveKeepsNonMatching(data: seq<Row>, j: nat, c: nat, v: Value)
    requires j < |data| && Matches(data[j], c, v)
    ensures Select(Remove(data, j), c, v, false) == Select(data, c, v, false)
  {
    SelectSplitAt(data, j, c, v, false);
    SelectConcat(data[..j], data[j + 1..], c, v, false);
    SelectOne(data[j], c, v);
  }

  /** Every pass of the loop removes a row or not; the row count drops by the number removed. */
  lemma {:induction false} ScanLength(data: seq<Row>, c: nat, v: Value, k: nat, count: nat)
    ensures var r := DeleteScan(data, c, v, k, count);
      |r.rows| + r.removed == |data| + count
    decreases |data| - k
  {
    if k < |data| {
      if Matches(data[k], c, v) {
        RowEqReflexive(data[k]);
        ScanLength(Remove(data, IndexOfRow(data, data[k])), c, v, k + 1, count + 1);
      } else {
        ScanLength(data, c, v, k + 1, count);
      }
    }
  }

  /** Only matching rows are removed: the matching rows drop by exactly the number removed. */
  lemma {:induction false} ScanMatchCount(data: seq<Row>, c: nat, v: Value, k: nat, count: nat)
    ensures var r := DeleteScan(data, c, v, k, count);
      |Matching(r.rows, c, v)| + r.removed == |Matching(data, c, v)| + count
    decreases |data| - k
  {
    if k < |data| {
      if Matches(data[k], c, v) {
        RemovedRowMatches(data, k, c, v);
        var j := IndexOfRow(data, data[k]);
        RemoveMatching(data, j, c, v);
        ScanMatchCount(Remove(data, j), c, v, k + 1, count + 1);
      } else {
        ScanMatchCount(data, c, v, k + 1, count);
      }
    }
  }

  lemma {:induction false} ScanMonotone(data: seq<Row>, c: nat, v: Value, k: nat, count: nat)
    ensures DeleteScan(data, c, v, k, count).removed >= count
    decreases |data| - k
  {
    if k < |data| {
      if Matches(data[k], c, v) {
        RowEqReflexive(data[k]);
        ScanMonotone(Remove(data, IndexOfRow(data, data[k])), c, v, k + 1, count + 1);
      } else {
        ScanMonotone(data, c, v, k + 1, count);
      }
    }
  }

  /** The loop reaches the first matching row at or after `k`, so it removes at least one row. */
  lemma {:induction false} ScanProgress(data: seq<Row>, c: nat, v: Value, k: nat, count: nat, p: nat)
    requires k <= p < |data| && Matches(data[p], c, v)
    ensures DeleteScan(data, c, v, k, count).removed > count
    decreases |data| - k
  {
    if Matches(data[k], c, v) {
      RowEqReflexive(data[k]);
      ScanMonotone(Remove(data, IndexOfRow(data, data[k])), c, v, k + 1, count + 1);
    } else {
      ScanProgress(data, c, v, k + 1, count, p);
    }
  }

  /** With no matching row at or after `k`, the loop changes nothing. */
  lemma {:induction false} ScanNoMatch(data: seq<Row>, c: nat, v: Value, k: nat, count: nat)
    requires forall p :: k <= p < |data| ==> !Matches(data[p], c, v)
    ensures DeleteScan(data, c, v, k, count) == Scan(data, count)
    decreases |data| - k
  {
    if k < |data| {
      ScanNoMatch(data, c, v, k + 1, count);
    }
  }

  /** The loop only removes rows: every row left was a row of `data`. */
  lemma {:induction false} ScanKeepsRows(data: seq<Row>, c: nat, v: Value, k: nat, count: nat)
    ensures forall r :: r in DeleteScan(data, c, v, k, count).rows ==> r in data
    decreases |data| - k
  {
    if k < |data| {
      if Matches(data[k], c, v) {
        RowEqReflexive(data[k]);
        var j := IndexOfRow(data, data[k]);
        var rest := Remove(data, j);
        assert forall r :: r in rest ==> r in data by {
          forall r | r in rest ensures r in data {
            var q :| 0 <= q < |rest| && rest[q] == r;
            if q < j { assert rest[q] == data[q]; } else { assert rest[q] == data[q + 1]; }
          }
        }
        ScanKeepsRows(rest, c, v, k + 1, count + 1);
      } else {
        ScanKeepsRows(data, c, v, k + 1, count);
      }
    }
  }

  /** The loop only ever removes matching rows: the non-matching ones survive, in order. */
  lemma {:induction false} ScanKeepsNonMatching(data: seq<Row>, c: nat, v: Value, k: nat, count: nat)
    ensures Select(DeleteScan(data, c, v, k, count).rows, c, v, false) == Select(data, c, v, false)
    decreases |data| - k
  {
    if k < |data| {
      if Matches(data[k], c, v) {
        RemovedRowMatches(data, k, c, v);
        var j := IndexOfRow(data, data[k]);
        RemoveKeepsNonMatching(data, j, c, v);
        ScanKeepsNonMatching(Remove(data, j), c, v, k + 1, count + 1);
      } else {
        ScanKeepsNonMatching(data, c, v, k + 1, count);
      }
    }
  }

  /** Delete from position 0, with no rows removed yet. */
  function DeleteMatching(data: seq<Row>, c: nat, v: Value): Scan
  {
    DeleteScan(data, c, v, 0, 0)
  }

  /**
   * The loop's effect on the whole list: it removes as many rows as it
   * counts, every removed row is a matching one, and it removes at least
   * one row whenever one matches.
   */
  lemma DeleteMatchingCounts(data: seq<Row>, c: nat, v: Value)
    ensures var r := DeleteMatching(data, c, v);
      && |r.rows| == |data| - r.removed
      && |Matching(r.rows, c, v)| == |Matching(data, c, v)| - r.removed
      && (|Matching(data, c, v)| > 0 ==> r.removed > 0)
  {
    ScanLength(data, c, v, 0, 0);
    ScanMatchCount(data, c, v, 0, 0);
    if |Matching(data, c, v)| > 0 {
      SelectEmptyIff(data, c, v, true);
      var p :| 0 <= p < |data| && Matches(data[p], c, v);
      ScanProgress(data, c, v, 0, 0, p);
    }
  }

  /** When at most one row matches, the loop removes exactly the matching row(s) and keeps the rest in order. */
  lemma DeleteMatchingSingle(data: seq<Row>, c: nat, v: Value)
    requires |Matching(data, c, v)| <= 1
    ensures DeleteMatching(data, c, v).rows == Select(data, c, v, false)
    ensures DeleteMatching(data, c, v).removed == |Matching(data, c, v)|
  {
    SelectEmptyIff(data, c, v, true);
    if |Matching(data, c, v)| == 0 {
      ScanNoMatch(data, c, v, 0, 0);
      SelectAll(data, c, v, false);
    } else {
      var p :| 0 <= p < |data| && Matches(data[p], c, v);
      OnlyMatchAt(data, c, v, p);
      DeleteOnlyMatch(data, c, v, p);
    }
  }

  /** A single matching row at `p` means no other row matches. */
  lemma OnlyMatchAt(data: seq<Row>, c: nat, v: Value, p: nat)
    requires p < |data| && Matches(data[p], c, v) && |Matching(data, c, v)| <= 1
    ensures forall q :: 0 <= q < |data| && q != p ==> !Matches(data[q], c, v)
  {
    SelectSplitAt(data, p, c, v, true);
    SelectEmptyIff(data[..p], c, v, true);
    SelectEmptyIff(data[p + 1..], c, v, true);
    forall q | 0 <= q < |data| && q != p ensures !Matches(data[q], c, v) {
      if q < p {
        assert data[..p][q] == data[q];
      } else {
        assert data[p + 1..][q - p - 1] == data[q];
      }
    }
  }

  lemma DeleteOnlyMatch(data: seq<Row>, c: nat, v: Value, p: nat)
    requires p < |data| && Matches(data[p], c, v)
    requires forall q :: 0 <= q < |data| && q != p ==> !Matches(data[q], c, v)
    ensures DeleteMatching(data, c, v) == Scan(Select(data, c, v, false), 1)
  {
    ScanPrefixNoMatch(data, c, v, 0, p);
    RemovedRowMatches(data, p, c, v);
    assert IndexOfRow(data, data[p]) == p;
    var rest := Remove(data, p);
    assert forall q :: p + 1 <= q < |rest| ==> rest[q] == data[q + 1];
    ScanNoMatch(rest, c, v, p + 1, 1);
    SelectOnlyMatch(data, c, v, p);
  }

  lemma SelectOnlyMatch(data: seq<Row>, c: nat, v: Value, p: nat)
    requires p < |data| && Matches(data[p], c, v)
    requires forall q :: 0 <= q < |data| && q != p ==> !Matches(data[q], c, v)
    ensures Select(data, c, v, false) == Remove(data, p)
  {
    var a, b := data[..p], data[p + 1..];
    SelectAllSlice(data, c, v, 0, p);
    SelectAllSlice(data, c, v, p + 1, |data|);
    assert data[0..p] == a && data[p + 1..|data|] == b;
    assert data == a + [data[p]] + b;
    SelectAround(a, data[p], b, c, v);
  }

  /** Dropping one matching row between two runs of non-matching rows. */
  lemma SelectAround(a: seq<Row>, x: Row, b: seq<Row>, c: nat, v: Value)
    requires Matches(x, c, v)
    requires Select(a, c, v, false) == a && Select(b, c, v, false) == b
    ensures Select(a + [x] + b, c, v, false) == a + b
  {
    SelectOne(x, c, v);
    SelectConcat(a + [x], b, c, v, false);
    SelectConcat(a, [x], c, v, false);
  }

  lemma SelectOne(row: Row, c: nat, v: Value)
    requires Matches(row, c, v)
    ensures Select([row], c, v, false) == []
  {
    assert [row][..0] == [];
  }

  lemma SelectAllSlice(data: seq<Row>, c: nat, v: Value, i: nat, j: nat)
    requires i <= j <= |data|
    requires forall q :: i <= q < j ==> !Matches(data[q], c, v)
    ensures Select(data[i..j], c, v, false) == data[i..j]
  {
    var part := data[i..j];
    forall q | 0 <= q < |part| ensures !Matches(part[q], c, v) {
      assert part[q] == data[i + q];
    }
    SelectAll(part, c, v, false);
  }

  /** Non-matching rows before `p` leave the loop's state unchanged up to `p`. */
  lemma {:induction false} ScanPrefixNoMatch(data: seq<Row>, c: nat, v: Value, k: nat, p: nat)
    requires k <= p <= |data|
    requires forall q :: k <= q < p ==> !Matches(data[q], c, v)
    ensures DeleteScan(data, c, v, k, 0) == DeleteScan(data, c, v, p, 0)
    decreases p - k
  {
    if k < p {
      ScanPrefixNoMatch(data, c, v, k + 1, p);
    }
  }

  /** Two neighbouring matching rows: the loop skips the second, which stays in the table. */
  lemma DeleteSkipsNeighbour()
    ensures DeleteMatching([[VInt(7)], [VInt(7)]], 0, VInt(7)) == Scan([[VInt(7)]], 1)
  {
    var data := [[VInt(7)], [VInt(7)]];
    RowEqReflexive(data[0]);
    assert IndexOfRow(data, data[0]) == 0;
    assert Remove(data, 0) == [[VInt(7)]];
  }
}
