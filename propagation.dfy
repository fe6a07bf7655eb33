/**
 * How the catalog (`Database` in app/pydb/database.py) carries a parent's
 * update or delete into one child table, as functions over the child's
 * columns and rows.
 */
module Propagation {
  import opened Errors
  import opened Values
  import opened RowOps
  import opened Schema
  import opened RowStore

  // ---------------------------------------------------------------------
  // Update propagation into one child
  // ---------------------------------------------------------------------

  /** One element of `zip(column_names, column_values, prev_vals)`. */
  datatype Change = Change(name: string, value: Value, pre: Row)

  /** `zip(column_names, column_values, prev_vals)`: as many triples as the shortest list has elements. */
  function Zip3(names: seq<string>, values: seq<Value>, prev: seq<Row>): (z: seq<Change>)
    ensures |z| <= |names| && |z| <= |values| && |z| <= |prev|
    ensures |z| == |names| || |z| == |values| || |z| == |prev|
    ensures forall t :: 0 <= t < |z| ==> z[t] == Change(names[t], values[t], prev[t])
    ensures forall t :: 0 <= t < |z| ==> z[t].pre in prev
  {
    if |names| == 0 || |values| == 0 || |prev| == 0 then []
    else
      var rest := Zip3(names[1..], values[1..], prev[1..]);
      assert forall t :: 0 <= t < |rest| ==> rest[t].pre == prev[t + 1];
      [Change(names[0], values[0], prev[0])] + rest
  }

  /** Every pre-image has a cell at parent position `pi`. */
  predicate PreImagesReach(z: seq<Change>, pi: nat)
  {
    forall t :: 0 <= t < |z| ==> pi < |z[t].pre|
  }

  /**
   * The zip loop for one snapshot row from triple `t` on: each triple whose
   * pre-image holds, at the parent column, the row's foreign-key value
   * runs `update_row([name], [value], fk_column, row[fk_index])` on the child.
   */
  function CascadeRow(cols: Schema, data: seq<Row>, fkIdx: nat, fkName: string, row: Row, z: seq<Change>, pi: nat, t: nat): (r: Result<seq<Row>>)
    requires Fits(cols, data) && fkIdx < |row| && PreImagesReach(z, pi)
    ensures r.Ok? ==> Fits(cols, r.value)
    decreases |z| - t
  {
    if t >= |z| then Ok(data)
    else if !PyEq(row[fkIdx], z[t].pre[pi]) then CascadeRow(cols, data, fkIdx, fkName, row, z, pi, t + 1)
    else match UpdateSpec(cols, data, [z[t].name], [z[t].value], fkName, row[fkIdx])
      case Err(e) => Err(e)
      case Ok(u) =>
        UpdateOkIsApply(cols, data, [z[t].name], [z[t].value], fkName, row[fkIdx]);
        ApplyAllFits(cols, data, IndexOf(cols, fkName).value, row[fkIdx], Resolve(cols, [z[t].name], false), [z[t].value]);
        CascadeRow(cols, u.rows, fkIdx, fkName, row, z, pi, t + 1)
  }

  /** The loop over the child's rows as they were loaded before the cascade of one column. */
  function CascadeSnapshot(cols: Schema, data: seq<Row>, fkIdx: nat, fkName: string, snap: seq<Row>, z: seq<Change>, pi: nat, i: nat): (r: Result<seq<Row>>)
    requires Fits(cols, data) && Fits(cols, snap) && fkIdx < |cols| && PreImagesReach(z, pi)
    ensures r.Ok? ==> Fits(cols, r.value)
    decreases |snap| - i
  {
    if i >= |snap| then Ok(data)
    else
      assert snap[i] in snap;
      match CascadeRow(cols, data, fkIdx, fkName, snap[i], z, pi, 0)
      case Err(e) => Err(e)
      case Ok(d) => CascadeSnapshot(cols, d, fkIdx, fkName, snap, z, pi, i + 1)
  }

  /**
   * A child column takes part in an update of `parent` only when its name
   * is among the changed names, its foreign key targets `parent`, and the
   * target column has the child column's own name.
   */
  predicate UpdateGate(c: ColDef, parent: string, names: seq<string>)
  {
    c.name in names && c.fk.Some? && c.fk.value.table == parent && c.fk.value.column == c.name
  }

  /**
   * The loop over the child's columns from `j` on. A gated column whose
   * name the parent lacks makes `.index` fail, whatever its action; only
   * `cascade` then writes anything.
   */
  function CascadeUpdateFrom(cols: Schema, data: seq<Row>, parent: string, pcols: Schema, names: seq<string>, z: seq<Change>, j: nat): (r: Result<seq<Row>>)
    requires Fits(cols, data)
    requires forall t :: 0 <= t < |z| ==> |z[t].pre| == |pcols|
    ensures r.Ok? ==> Fits(cols, r.value)
    decreases |cols| - j
  {
    if j >= |cols| then Ok(data)
    else if !UpdateGate(cols[j], parent, names) then CascadeUpdateFrom(cols, data, parent, pcols, names, z, j + 1)
    else match IndexOf(pcols, cols[j].name)
      case None => Err(ColumnNotInParent)
      case Some(pi) =>
        if cols[j].fk.value.onUpdate != Cascade then CascadeUpdateFrom(cols, data, parent, pcols, names, z, j + 1)
        else match CascadeSnapshot(cols, data, j, cols[j].fk.value.column, data, z, pi, 0)
          case Err(e) => Err(e)
          case Ok(d) => CascadeUpdateFrom(cols, d, parent, pcols, names, z, j + 1)
  }

  /** What `handle_fk_updates` does to one child table, given the parent's update. */
  function CascadeChildUpdate(cols: Schema, data: seq<Row>, parent: string, pcols: Schema,
                              names: seq<string>, values: seq<Value>, prev: seq<Row>): (r: Result<seq<Row>>)
    requires Fits(cols, data) && Fits(pcols, prev)
    ensures r.Ok? ==> Fits(cols, r.value)
  {
    var z := Zip3(names, values, prev);
    assert forall t :: 0 <= t < |z| ==> |z[t].pre| == |pcols| by {
      forall t | 0 <= t < |z| ensures |z[t].pre| == |pcols| {
        assert prev[t] in prev;
      }
    }
    CascadeUpdateFrom(cols, data, parent, pcols, names, z, 0)
  }

  // ---------------------------------------------------------------------
  // Delete propagation into one child
  // ---------------------------------------------------------------------

  /** `delete_row(fk_column, value, True)` once for every snapshot row, from `i` on, whose foreign key holds the value. */
  function DeleteRepeat(cols: Schema, data: seq<Row>, fkIdx: nat, fkName: string, cv: Value, snap: seq<Row>, i: nat): (r: Result<seq<Row>>)
    requires Fits(cols, data) && Fits(cols, snap) && fkIdx < |cols|
    ensures r.Ok? ==> Fits(cols, r.value)
    decreases |snap| - i
  {
    if i >= |snap| then Ok(data)
    else
      assert snap[i] in snap;
      if !PyEq(snap[i][fkIdx], cv) then DeleteRepeat(cols, data, fkIdx, fkName, cv, snap, i + 1)
      else match DeleteSpec(cols, data, fkName, cv, true)
        case Err(e) => Err(e)
        case Ok(s) =>
          DeleteEffect(cols, data, fkName, cv, true);
          DeleteRepeat(cols, s.rows, fkIdx, fkName, cv, snap, i + 1)
  }

  /** A child column takes part in a delete from `parent` on column `cn` when its foreign key targets exactly that column. */
  predicate DeleteGate(c: ColDef, parent: string, cn: string)
  {
    c.fk.Some? && c.fk.value.table == parent && c.fk.value.column == cn
  }

  /** The loop over the child's columns from `j` on; only `cascade` deletes anything. */
  function CascadeDeleteFrom(cols: Schema, data: seq<Row>, parent: string, cn: string, cv: Value, j: nat): (r: Result<seq<Row>>)
    requires Fits(cols, data)
    ensures r.Ok? ==> Fits(cols, r.value)
    decreases |cols| - j
  {
    if j >= |cols| then Ok(data)
    else if !DeleteGate(cols[j], parent, cn) || cols[j].fk.value.onDelete != Cascade then
      CascadeDeleteFrom(cols, data, parent, cn, cv, j + 1)
    else match DeleteRepeat(cols, data, j, cn, cv, data, 0)
      case Err(e) => Err(e)
      case Ok(d) => CascadeDeleteFrom(cols, d, parent, cn, cv, j + 1)
  }

  /** What `handle_fk_deletes` does to one child table, given the parent's delete condition. */
  function CascadeChildDelete(cols: Schema, data: seq<Row>, parent: string, cn: string, cv: Value): (r: Result<seq<Row>>)
    requires Fits(cols, data)
    ensures r.Ok? ==> Fits(cols, r.value)
  {
    CascadeDeleteFrom(cols, data, parent, cn, cv, 0)
  }

  // ---------------------------------------------------------------------
  // What propagation can and cannot do to a child
  // ---------------------------------------------------------------------

  lemma {:induction false} UpdateWithoutCascadeFrom(cols: Schema, data: seq<Row>, parent: string, pcols: Schema, names: seq<string>, z: seq<Change>, j: nat)
    requires Fits(cols, data)
    requires forall t :: 0 <= t < |z| ==> |z[t].pre| == |pcols|
    requires forall k :: j <= k < |cols| && UpdateGate(cols[k], parent, names) ==> cols[k].fk.value.onUpdate != Cascade
    ensures var r := CascadeUpdateFrom(cols, data, parent, pcols, names, z, j);
      r == Ok(data) || r == Err(ColumnNotInParent)
    ensures (forall k :: j <= k < |cols| && UpdateGate(cols[k], parent, names) ==> IndexOf(pcols, cols[k].name).Some?) ==>
      CascadeUpdateFrom(cols, data, parent, pcols, names, z, j) == Ok(data)
    decreases |cols| - j
  {
    if j < |cols| {
      UpdateWithoutCascadeFrom(cols, data, parent, pcols, names, z, j + 1);
    }
  }

  /**
   * A child none of whose gated columns has `on_update == 'cascade'` is
   * left as it is (`set_null` and `do_nothing` change nothing); the
   * propagation can still fail when the parent lacks a gated column's name.
   */
  lemma UpdateWithoutCascade(cols: Schema, data: seq<Row>, parent: string, pcols: Schema,
                             names: seq<string>, values: seq<Value>, prev: seq<Row>)
    requires Fits(cols, data) && Fits(pcols, prev)
    requires forall k :: 0 <= k < |cols| && UpdateGate(cols[k], parent, names) ==> cols[k].fk.value.onUpdate != Cascade
    ensures var r := CascadeChildUpdate(cols, data, parent, pcols, names, values, prev);
      r == Ok(data) || r == Err(ColumnNotInParent)
    ensures (forall k :: 0 <= k < |cols| && UpdateGate(cols[k], parent, names) ==> IndexOf(pcols, cols[k].name).Some?) ==>
      CascadeChildUpdate(cols, data, parent, pcols, names, values, prev) == Ok(data)
  {
    var z := Zip3(names, values, prev);
    assert forall t :: 0 <= t < |z| ==> |z[t].pre| == |pcols| by {
      forall t | 0 <= t < |z| ensures |z[t].pre| == |pcols| {
        assert prev[t] in prev;
      }
    }
    UpdateWithoutCascadeFrom(cols, data, parent, pcols, names, z, 0);
  }

  /** An update reaches a child only through a gated column: without one, the child is untouched. */
  lemma UpdateReachesOnlyGated(cols: Schema, data: seq<Row>, parent: string, pcols: Schema,
                               names: seq<string>, values: seq<Value>, prev: seq<Row>)
    requires Fits(cols, data) && Fits(pcols, prev)
    requires forall k :: 0 <= k < |cols| ==> !UpdateGate(cols[k], parent, names)
    ensures CascadeChildUpdate(cols, data, parent, pcols, names, values, prev) == Ok(data)
  {
    UpdateWithoutCascade(cols, data, parent, pcols, names, values, prev);
  }

  lemma {:induction false} DeleteWithoutCascadeFrom(cols: Schema, data: seq<Row>, parent: string, cn: string, cv: Value, j: nat)
    requires Fits(cols, data)
    requires forall k :: j <= k < |cols| && DeleteGate(cols[k], parent, cn) ==> cols[k].fk.value.onDelete != Cascade
    ensures CascadeDeleteFrom(cols, data, parent, cn, cv, j) == Ok(data)
    decreases |cols| - j
  {
    if j < |cols| {
      DeleteWithoutCascadeFrom(cols, data, parent, cn, cv, j + 1);
    }
  }

  /** A child with no `on_delete == 'cascade'` column targeting the deleted column is left as it is. */
  lemma DeleteWithoutCascade(cols: Schema, data: seq<Row>, parent: string, cn: string, cv: Value)
    requires Fits(cols, data)
    requires forall k :: 0 <= k < |cols| && DeleteGate(cols[k], parent, cn) ==> cols[k].fk.value.onDelete != Cascade
    ensures CascadeChildDelete(cols, data, parent, cn, cv) == Ok(data)
  {
    DeleteWithoutCascadeFrom(cols, data, parent, cn, cv, 0);
  }

  /** Snapshot rows from `i` on whose column `c` equals `v`. */
  function CountMatches(snap: seq<Row>, c: nat, v: Value, i: nat): nat
    decreases |snap| - i
  {
    if i >= |snap| then 0 else (if Matches(snap[i], c, v) then 1 else 0) + CountMatches(snap, c, v, i + 1)
  }

  lemma {:induction false} CountMatchesSuffix(data: seq<Row>, c: nat, v: Value, i: nat)
    requires i <= |data|
    ensures CountMatches(data, c, v, i) == |Matching(data[i..], c, v)|
    decreases |data| - i
  {
    if i == |data| {
      assert data[i..] == [];
    } else {
      CountMatchesSuffix(data, c, v, i + 1);
      assert data[i..] == [data[i]] + data[i + 1..];
      SelectConcat([data[i]], data[i + 1..], c, v, true);
      assert [data[i]][..0] == [];
    }
  }

  /** Delete passes only remove rows. */
  lemma {:induction false} DeleteRepeatShrinks(cols: Schema, data: seq<Row>, fkIdx: nat, fkName: string, cv: Value, snap: seq<Row>, i: nat)
    requires Fits(cols, data) && Fits(cols, snap) && fkIdx < |cols|
    requires DeleteRepeat(cols, data, fkIdx, fkName, cv, snap, i).Ok?
    ensures forall rw :: rw in DeleteRepeat(cols, data, fkIdx, fkName, cv, snap, i).value ==> rw in data
    decreases |snap| - i
  {
    if i < |snap| {
      assert snap[i] in snap;
      if PyEq(snap[i][fkIdx], cv) {
        var cn := IndexOf(cols, fkName).value;
        DeleteEffect(cols, data, fkName, cv, true);
        ScanKeepsRows(data, cn, cv, 0, 0);
        DeleteRepeatShrinks(cols, DeleteSpec(cols, data, fkName, cv, true).value.rows, fkIdx, fkName, cv, snap, i + 1);
      } else {
        DeleteRepeatShrinks(cols, data, fkIdx, fkName, cv, snap, i + 1);
      }
    }
  }

  /**
   * Each delete pass on the child's own foreign-key column removes at least
   * one row while any matches, so the matches left are at most the matches
   * before minus the passes still to come.
   */
  lemma {:induction false} DeleteRepeatCount(cols: Schema, data: seq<Row>, fkIdx: nat, fkName: string, cv: Value, snap: seq<Row>, i: nat)
    requires Fits(cols, data) && Fits(cols, snap) && fkIdx < |cols|
    requires IndexOf(cols, fkName) == Some(fkIdx)
    requires DeleteRepeat(cols, data, fkIdx, fkName, cv, snap, i).Ok?
    ensures |Matching(DeleteRepeat(cols, data, fkIdx, fkName, cv, snap, i).value, fkIdx, cv)| <=
      if |Matching(data, fkIdx, cv)| <= CountMatches(snap, fkIdx, cv, i) then 0
      else |Matching(data, fkIdx, cv)| - CountMatches(snap, fkIdx, cv, i)
    decreases |snap| - i
  {
    if i < |snap| {
      assert snap[i] in snap;
      if PyEq(snap[i][fkIdx], cv) {
        DeleteMatchingCounts(data, fkIdx, cv);
        DeleteEffect(cols, data, fkName, cv, true);
        DeleteRepeatCount(cols, DeleteSpec(cols, data, fkName, cv, true).value.rows, fkIdx, fkName, cv, snap, i + 1);
      } else {
        DeleteRepeatCount(cols, data, fkIdx, fkName, cv, snap, i + 1);
      }
    }
  }

  lemma {:induction false} CascadeDeleteShrinks(cols: Schema, data: seq<Row>, parent: string, cn: string, cv: Value, j: nat)
    requires Fits(cols, data)
    requires CascadeDeleteFrom(cols, data, parent, cn, cv, j).Ok?
    ensures forall rw :: rw in CascadeDeleteFrom(cols, data, parent, cn, cv, j).value ==> rw in data
    decreases |cols| - j
  {
    if j < |cols| {
      if !DeleteGate(cols[j], parent, cn) || cols[j].fk.value.onDelete != Cascade {
        CascadeDeleteShrinks(cols, data, parent, cn, cv, j + 1);
      } else {
        DeleteRepeatShrinks(cols, data, j, cn, cv, data, 0);
        CascadeDeleteShrinks(cols, DeleteRepeat(cols, data, j, cn, cv, data, 0).value, parent, cn, cv, j + 1);
      }
    }
  }

  /** A child column eligible for a clearing cascade: it cascades deletes from `parent`'s column `cn` and carries that name itself. */
  predicate ClearsOnDelete(c: ColDef, parent: string, cn: string)
  {
    DeleteGate(c, parent, cn) && c.fk.value.onDelete == Cascade && c.name == cn
  }

  lemma {:induction false} CascadeDeleteClearsFrom(cols: Schema, data: seq<Row>, parent: string, cn: string, cv: Value, j: nat)
    requires Fits(cols, data) && DistinctNames(cols)
    requires CascadeDeleteFrom(cols, data, parent, cn, cv, j).Ok?
    ensures forall k, rw :: (j <= k < |cols| && ClearsOnDelete(cols[k], parent, cn) &&
      rw in CascadeDeleteFrom(cols, data, parent, cn, cv, j).value) ==> !Matches(rw, k, cv)
    decreases |cols| - j
  {
    if j < |cols| {
      if !DeleteGate(cols[j], parent, cn) || cols[j].fk.value.onDelete != Cascade {
        CascadeDeleteClearsFrom(cols, data, parent, cn, cv, j + 1);
      } else {
        var d := DeleteRepeat(cols, data, j, cn, cv, data, 0).value;
        CascadeDeleteClearsFrom(cols, d, parent, cn, cv, j + 1);
        if cols[j].name == cn {
          DeleteRepeatCount(cols, data, j, cn, cv, data, 0);
          CountMatchesSuffix(data, j, cv, 0);
          assert data[0..] == data;
          SelectEmptyIff(d, j, cv, true);
          CascadeDeleteShrinks(cols, d, parent, cn, cv, j + 1);
          forall rw | rw in CascadeDeleteFrom(cols, d, parent, cn, cv, j + 1).value
            ensures !Matches(rw, j, cv)
          {
            var q :| 0 <= q < |d| && d[q] == rw;
          }
        }
      }
    }
  }

  /** Delete passes by the column named `fkName` keep every row not holding the value there. */
  lemma {:induction false} DeleteRepeatKeeps(cols: Schema, data: seq<Row>, fkIdx: nat, fkName: string, cv: Value, snap: seq<Row>, i: nat)
    requires Fits(cols, data) && Fits(cols, snap) && fkIdx < |cols|
    requires DeleteRepeat(cols, data, fkIdx, fkName, cv, snap, i).Ok?
    ensures IndexOf(cols, fkName).Some? ==>
      var c := IndexOf(cols, fkName).value;
      Select(DeleteRepeat(cols, data, fkIdx, fkName, cv, snap, i).value, c, cv, false) == Select(data, c, cv, false)
    ensures IndexOf(cols, fkName).None? ==> DeleteRepeat(cols, data, fkIdx, fkName, cv, snap, i).value == data
    decreases |snap| - i
  {
    if i < |snap| {
      assert snap[i] in snap;
      if PyEq(snap[i][fkIdx], cv) {
        DeleteEffect(cols, data, fkName, cv, true);
        DeleteRepeatKeeps(cols, DeleteSpec(cols, data, fkName, cv, true).value.rows, fkIdx, fkName, cv, snap, i + 1);
      } else {
        DeleteRepeatKeeps(cols, data, fkIdx, fkName, cv, snap, i + 1);
      }
    }
  }

  lemma {:induction false} CascadeDeleteKeepsFrom(cols: Schema, data: seq<Row>, parent: string, cn: string, cv: Value, j: nat)
    requires Fits(cols, data)
    requires CascadeDeleteFrom(cols, data, parent, cn, cv, j).Ok?
    ensures IndexOf(cols, cn).Some? ==>
      var c := IndexOf(cols, cn).value;
      Select(CascadeDeleteFrom(cols, data, parent, cn, cv, j).value, c, cv, false) == Select(data, c, cv, false)
    ensures IndexOf(cols, cn).None? ==> CascadeDeleteFrom(cols, data, parent, cn, cv, j).value == data
    decreases |cols| - j
  {
    if j < |cols| {
      if !DeleteGate(cols[j], parent, cn) || cols[j].fk.value.onDelete != Cascade {
        CascadeDeleteKeepsFrom(cols, data, parent, cn, cv, j + 1);
      } else {
        DeleteRepeatKeeps(cols, data, j, cn, cv, data, 0);
        CascadeDeleteKeepsFrom(cols, DeleteRepeat(cols, data, j, cn, cv, data, 0).value, parent, cn, cv, j + 1);
      }
    }
  }

  /**
   * After a successful delete propagation, no row of the child keeps the
   * deleted value in a column that cascades from the deleted column and
   * has its name: each snapshot match triggers one pass, and each pass
   * removes at least one remaining match. Every pass deletes by the
   * child's column named like the parent's, so the rows not holding the
   * value there survive, in order; without such a column nothing changes.
   */
  lemma CascadeDeleteClears(cols: Schema, data: seq<Row>, parent: string, cn: string, cv: Value)
    requires Fits(cols, data) && DistinctNames(cols)
    requires CascadeChildDelete(cols, data, parent, cn, cv).Ok?
    ensures forall k, rw :: (0 <= k < |cols| && ClearsOnDelete(cols[k], parent, cn) &&
      rw in CascadeChildDelete(cols, data, parent, cn, cv).value) ==> !Matches(rw, k, cv)
    ensures forall rw :: rw in CascadeChildDelete(cols, data, parent, cn, cv).value ==> rw in data
    ensures IndexOf(cols, cn).Some? ==>
      var c := IndexOf(cols, cn).value;
      Select(CascadeChildDelete(cols, data, parent, cn, cv).value, c, cv, false) == Select(data, c, cv, false)
    ensures IndexOf(cols, cn).None? ==> CascadeChildDelete(cols, data, parent, cn, cv).value == data
  {
    CascadeDeleteClearsFrom(cols, data, parent, cn, cv, 0);
    CascadeDeleteShrinks(cols, data, parent, cn, cv, 0);
    CascadeDeleteKeepsFrom(cols, data, parent, cn, cv, 0);
  }

  // ---------------------------------------------------------------------
  // An update cascade through one column
  // ---------------------------------------------------------------------

  /** Every row whose column `j` equals `x` gets `v` in column `k`; the other rows stay. */
  function SetWhere(d: seq<Row>, j: nat, x: Value, k: nat, v: Value): (r: seq<Row>)
    requires forall rw :: rw in d ==> k < |rw|
    ensures |r| == |d|
    ensures forall i :: 0 <= i < |d| ==> r[i] == if Matches(d[i], j, x) then d[i][k := v] else d[i]
  {
    seq(|d|, i requires 0 <= i < |d| => if Matches(d[i], j, x) then (assert d[i] in d; d[i][k := v]) else d[i])
  }

  /** The conditions under which `update_row([col], [v], _, _)` on the child passes its checks whatever the condition value. */
  predicate SingleUpdateAllowed(cols: Schema, k: nat, col: string, v: Value)
  {
    && IndexOf(cols, col) == Some(k)
    && !cols[k].pk
    && CellOk(cols[k], v)
    && |cols| - CountTrue(AutoFlags(cols)) + CountAutoNamed(cols, [col]) >= 1
  }

  lemma SingleUpdateChecks(cols: Schema, d: seq<Row>, k: nat, col: string, v: Value, cn: string, x: Value)
    requires SingleUpdateAllowed(cols, k, col, v) && IndexOf(cols, cn).Some?
    ensures Resolve(cols, [col], false) == [k]
    ensures UpdateCheck(cols, d, [col], [v], cn, x).None?
  {
    assert [col][..0] == [];
    assert Resolve(cols, [col], true) == [];
    assert !PkClash(d, IndexOf(cols, cn).value, x, [], [v]);
    assert FirstPos([col], col) == 0;
    assert !Mismatch(cols, [col], [v]);
  }

  /** The one write `row[k] = v` in every row matching at `j` is `SetWhere`. */
  lemma ApplyOneIsSetWhere(cols: Schema, d: seq<Row>, j: nat, x: Value, k: nat, v: Value)
    requires Fits(cols, d) && k < |cols|
    ensures ApplyAll(d, j, x, [k], [v], |cols|) == SetWhere(d, j, x, k, v)
  {
    forall i | 0 <= i < |d| ensures ApplyAll(d, j, x, [k], [v], |cols|)[i] == SetWhere(d, j, x, k, v)[i] {
      assert d[i] in d;
      assert ApplyFrom(d[i], [k], [v], 0) == ApplyFrom(d[i][k := v], [k], [v], 1) == d[i][k := v];
    }
  }

  /** A single-column update on the child of a non-key column `k`, conditioned on column `j`, sets `k` in every row matching at `j`. */
  lemma SingleUpdate(cols: Schema, d: seq<Row>, j: nat, k: nat, col: string, v: Value, cn: string, x: Value)
    requires Fits(cols, d) && SingleUpdateAllowed(cols, k, col, v) && IndexOf(cols, cn) == Some(j)
    ensures UpdateSpec(cols, d, [col], [v], cn, x).Ok?
    ensures UpdateSpec(cols, d, [col], [v], cn, x).value.rows == SetWhere(d, j, x, k, v)
  {
    SingleUpdateChecks(cols, d, k, col, v, cn, x);
    ApplyOneIsSetWhere(cols, d, j, x, k, v);
  }

  lemma SetWhereFits(cols: Schema, d: seq<Row>, j: nat, x: Value, k: nat, v: Value)
    requires Fits(cols, d) && k < |cols|
    ensures Fits(cols, SetWhere(d, j, x, k, v))
  {
    var r := SetWhere(d, j, x, k, v);
    forall rw | rw in r ensures |rw| == |cols| {
      var i :| 0 <= i < |r| && r[i] == rw;
      assert d[i] in d;
    }
  }

  /** Conditions equal under `==` select the same rows. */
  lemma SetWhereSameCondition(cols: Schema, d: seq<Row>, j: nat, x: Value, y: Value, k: nat, v: Value)
    requires Fits(cols, d) && k < |cols| && PyEq(x, y)
    ensures SetWhere(d, j, x, k, v) == SetWhere(d, j, y, k, v)
  {
    forall i | 0 <= i < |d| ensures Matches(d[i], j, x) == Matches(d[i], j, y) {
      assert d[i] in d;
      PyEqSymmetric(x, y);
      if Matches(d[i], j, x) { PyEqTransitive(d[i][j], x, y); }
      if Matches(d[i], j, y) { PyEqTransitive(d[i][j], y, x); }
    }
  }

  /** Setting the matching rows twice is setting them once, even when the written column is the condition's column. */
  lemma SetWhereIdempotent(cols: Schema, d: seq<Row>, j: nat, x: Value, k: nat, v: Value)
    requires Fits(cols, d) && k < |cols|
    ensures Fits(cols, SetWhere(d, j, x, k, v))
    ensures SetWhere(SetWhere(d, j, x, k, v), j, x, k, v) == SetWhere(d, j, x, k, v)
  {
    SetWhereFits(cols, d, j, x, k, v);
    var once := SetWhere(d, j, x, k, v);
    forall i | 0 <= i < |d| ensures SetWhere(once, j, x, k, v)[i] == once[i] {
      assert d[i] in d;
    }
  }

  /** One snapshot row: its single triple either matches and sets the matching rows, or does nothing. */
  lemma SingleRow(cols: Schema, d: seq<Row>, j: nat, fkName: string, k: nat, col: string, v: Value, row: Row, p: Row, pi: nat)
    requires Fits(cols, d) && SingleUpdateAllowed(cols, k, col, v) && IndexOf(cols, fkName) == Some(j)
    requires j < |row| && pi < |p|
    ensures CascadeRow(cols, d, j, fkName, row, [Change(col, v, p)], pi, 0) ==
      if PyEq(row[j], p[pi]) then Ok(SetWhere(d, j, p[pi], k, v)) else Ok(d)
  {
    if PyEq(row[j], p[pi]) {
      SingleUpdate(cols, d, j, k, col, v, fkName, row[j]);
      SetWhereSameCondition(cols, d, j, row[j], p[pi], k, v);
      SetWhereFits(cols, d, j, row[j], k, v);
    }
  }

  /** One snapshot step from either the rows before the cascade or the rows after it. */
  lemma SnapshotStep(cols: Schema, d0: seq<Row>, d: seq<Row>, j: nat, fkName: string, k: nat, col: string, v: Value,
                     row: Row, p: Row, pi: nat)
    requires Fits(cols, d0) && Fits(cols, d) && j < |row| && pi < |p|
    requires SingleUpdateAllowed(cols, k, col, v) && IndexOf(cols, fkName) == Some(j)
    requires d == d0 || d == SetWhere(d0, j, p[pi], k, v)
    ensures CascadeRow(cols, d, j, fkName, row, [Change(col, v, p)], pi, 0) ==
      Ok(if PyEq(row[j], p[pi]) then SetWhere(d0, j, p[pi], k, v) else d)
  {
    SingleRow(cols, d, j, fkName, k, col, v, row, p, pi);
    SetWhereIdempotent(cols, d0, j, p[pi], k, v);
  }

  /** One pass of the snapshot loop that succeeds hands its rows to the next pass. */
  lemma SnapshotUnfold(cols: Schema, d: seq<Row>, e: seq<Row>, j: nat, fkName: string, snap: seq<Row>, z: seq<Change>, pi: nat, i: nat)
    requires Fits(cols, d) && Fits(cols, e) && Fits(cols, snap) && j < |cols| && PreImagesReach(z, pi)
    requires i < |snap| && j < |snap[i]|
    requires CascadeRow(cols, d, j, fkName, snap[i], z, pi, 0) == Ok(e)
    ensures CascadeSnapshot(cols, d, j, fkName, snap, z, pi, i) == CascadeSnapshot(cols, e, j, fkName, snap, z, pi, i + 1)
  {
  }

  /** Once the matching rows are set, the remaining snapshot rows leave them set. */
  lemma {:induction false} SnapshotAfterSet(cols: Schema, d0: seq<Row>, j: nat, fkName: string, k: nat, col: string, v: Value,
                                            snap: seq<Row>, p: Row, pi: nat, i: nat)
    requires Fits(cols, d0) && Fits(cols, snap) && pi < |p|
    requires SingleUpdateAllowed(cols, k, col, v) && IndexOf(cols, fkName) == Some(j)
    ensures Fits(cols, SetWhere(d0, j, p[pi], k, v))
    ensures CascadeSnapshot(cols, SetWhere(d0, j, p[pi], k, v), j, fkName, snap, [Change(col, v, p)], pi, i) ==
      Ok(SetWhere(d0, j, p[pi], k, v))
    decreases |snap| - i
  {
    SetWhereFits(cols, d0, j, p[pi], k, v);
    if i < |snap| {
      assert snap[i] in snap;
      var f := SetWhere(d0, j, p[pi], k, v);
      SnapshotStep(cols, d0, f, j, fkName, k, col, v, snap[i], p, pi);
      SnapshotUnfold(cols, f, f, j, fkName, snap, [Change(col, v, p)], pi, i);
      SnapshotAfterSet(cols, d0, j, fkName, k, col, v, snap, p, pi, i + 1);
    }
  }

  /** Before any snapshot row has matched: a later match sets the rows, and without one nothing changes. */
  lemma {:induction false} SnapshotBeforeSet(cols: Schema, d0: seq<Row>, j: nat, fkName: string, k: nat, col: string, v: Value,
                                             snap: seq<Row>, p: Row, pi: nat, i: nat)
    requires Fits(cols, d0) && Fits(cols, snap) && pi < |p|
    requires SingleUpdateAllowed(cols, k, col, v) && IndexOf(cols, fkName) == Some(j)
    ensures CascadeSnapshot(cols, d0, j, fkName, snap, [Change(col, v, p)], pi, i) ==
      Ok(if CountMatches(snap, j, p[pi], i) > 0 then SetWhere(d0, j, p[pi], k, v) else d0)
    decreases |snap| - i
  {
    if i < |snap| {
      assert snap[i] in snap;
      SnapshotStep(cols, d0, d0, j, fkName, k, col, v, snap[i], p, pi);
      if PyEq(snap[i][j], p[pi]) {
        SnapshotAfterSet(cols, d0, j, fkName, k, col, v, snap, p, pi, i + 1);
        SnapshotUnfold(cols, d0, SetWhere(d0, j, p[pi], k, v), j, fkName, snap, [Change(col, v, p)], pi, i);
      } else {
        SnapshotUnfold(cols, d0, d0, j, fkName, snap, [Change(col, v, p)], pi, i);
        SnapshotBeforeSet(cols, d0, j, fkName, k, col, v, snap, p, pi, i + 1);
      }
    }
  }

  /** The whole snapshot loop, with the child's rows as snapshot, sets exactly the matching rows. */
  lemma SnapshotSetsMatching(cols: Schema, data: seq<Row>, j: nat, fkName: string, k: nat, col: string, v: Value, p: Row, pi: nat)
    requires Fits(cols, data) && SingleUpdateAllowed(cols, k, col, v) && IndexOf(cols, fkName) == Some(j) && pi < |p|
    ensures CascadeSnapshot(cols, data, j, fkName, data, [Change(col, v, p)], pi, 0) == Ok(SetWhere(data, j, p[pi], k, v))
  {
    SnapshotBeforeSet(cols, data, j, fkName, k, col, v, data, p, pi, 0);
    if CountMatches(data, j, p[pi], 0) == 0 {
      CountMatchesSuffix(data, j, p[pi], 0);
      assert data[0..] == data;
      SelectEmptyIff(data, j, p[pi], true);
      assert SetWhere(data, j, p[pi], k, v) == data;
    }
  }

  /** A child column the update passes over without writing or failing: not gated, or gated without `cascade` on a column the parent has. */
  predicate UpdateInert(c: ColDef, parent: string, pcols: Schema, names: seq<string>)
  {
    !UpdateGate(c, parent, names) || (c.fk.value.onUpdate != Cascade && IndexOf(pcols, c.name).Some?)
  }

  lemma {:induction false} InertSkip(cols: Schema, d: seq<Row>, parent: string, pcols: Schema, names: seq<string>, z: seq<Change>, k: nat, j: nat)
    requires Fits(cols, d)
    requires forall t :: 0 <= t < |z| ==> |z[t].pre| == |pcols|
    requires k <= j <= |cols|
    requires forall m :: k <= m < j ==> UpdateInert(cols[m], parent, pcols, names)
    ensures CascadeUpdateFrom(cols, d, parent, pcols, names, z, k) == CascadeUpdateFrom(cols, d, parent, pcols, names, z, j)
    decreases j - k
  {
    if k < j {
      InertSkip(cols, d, parent, pcols, names, z, k + 1, j);
    }
  }

  /** A gated, cascading column whose snapshot loop succeeds hands its result to the columns after it. */
  lemma CascadeColumnStep(cols: Schema, d: seq<Row>, parent: string, pcols: Schema, names: seq<string>, z: seq<Change>, j: nat, f: seq<Row>)
    requires Fits(cols, d) && Fits(cols, f)
    requires forall t :: 0 <= t < |z| ==> |z[t].pre| == |pcols|
    requires j < |cols| && UpdateGate(cols[j], parent, names) && cols[j].fk.value.onUpdate == Cascade
    requires IndexOf(pcols, cols[j].name).Some?
    requires CascadeSnapshot(cols, d, j, cols[j].fk.value.column, d, z, IndexOf(pcols, cols[j].name).value, 0) == Ok(f)
    ensures CascadeUpdateFrom(cols, d, parent, pcols, names, z, j) == CascadeUpdateFrom(cols, f, parent, pcols, names, z, j + 1)
  {
  }

  /**
   * A parent update whose single matched row had value `p[pi]` in the
   * parent column the child's column `j` cascades from. The zip pairs the
   * first changed name with that one pre-image, so every child row whose
   * column `j` holds `p[pi]` gets the first new value in the child column
   * called by the first changed name (which need not be column `j`), and
   * every other row stays as it was.
   */
  lemma UpdateCascadeSingle(cols: Schema, data: seq<Row>, parent: string, pcols: Schema,
                            names: seq<string>, values: seq<Value>, p: Row, j: nat, k: nat)
    requires Fits(cols, data) && DistinctNames(cols) && |p| == |pcols|
    requires |names| >= 1 && |values| >= 1
    requires j < |cols| && UpdateGate(cols[j], parent, names) && cols[j].fk.value.onUpdate == Cascade
    requires IndexOf(pcols, cols[j].name).Some?
    requires forall m :: 0 <= m < |cols| && m != j ==> UpdateInert(cols[m], parent, pcols, names)
    requires SingleUpdateAllowed(cols, k, names[0], values[0])
    ensures CascadeChildUpdate(cols, data, parent, pcols, names, values, [p]) ==
      Ok(SetWhere(data, j, p[IndexOf(pcols, cols[j].name).value], k, values[0]))
  {
    var pi := IndexOf(pcols, cols[j].name).value;
    var fkName := cols[j].fk.value.column;
    assert IndexOf(cols, fkName) == Some(j);
    var z := Zip3(names, values, [p]);
    assert z == [Change(names[0], values[0], p)];
    assert Fits(pcols, [p]);
    var f := SetWhere(data, j, p[pi], k, values[0]);
    InertSkip(cols, data, parent, pcols, names, z, 0, j);
    SetWhereFits(cols, data, j, p[pi], k, values[0]);
    SnapshotSetsMatching(cols, data, j, fkName, k, names[0], values[0], p, pi);
    CascadeColumnStep(cols, data, parent, pcols, names, z, j, f);
    UpdateWithoutCascadeFrom(cols, f, parent, pcols, names, z, j + 1);
  }

  /**
   * Parent `p(id pk, x)`, child `c(id -> p.id on update cascade, x)` with
   * the row `[1, 'a']`; the parent's row `[1, 'old']` is updated to
   * `x = 'new', id = 5`. The zip pairs `x` (not `id`) with the pre-image,
   * so the child's `x` becomes `'new'` and its foreign key keeps `1`.
   */
  lemma UpdateCascadePairsFirstName()
    ensures var pcols := [ColDef("id", TInt, true, None, false, false, false), ColDef("x", TStr, false, None, false, false, false)];
      var cols := [ColDef("id", TInt, false, Some(ForeignKey("p", "id", Cascade, DoNothing)), false, false, false),
                   ColDef("x", TStr, false, None, false, false, false)];
      CascadeChildUpdate(cols, [[VInt(1), VStr("a")]], "p", pcols, ["x", "id"], [VStr("new"), VInt(5)], [[VInt(1), VStr("old")]])
        == Ok([[VInt(1), VStr("new")]])
  {
    var pcols := [ColDef("id", TInt, true, None, false, false, false), ColDef("x", TStr, false, None, false, false, false)];
    var cols := [ColDef("id", TInt, false, Some(ForeignKey("p", "id", Cascade, DoNothing)), false, false, false),
                 ColDef("x", TStr, false, None, false, false, false)];
    var data := [[VInt(1), VStr("a")]];
    assert Fits(cols, data) && Fits(pcols, [[VInt(1), VStr("old")]]);
    assert DistinctNames(cols);
    assert IndexOf(pcols, "id") == Some(0);
    assert UpdateGate(cols[0], "p", ["x", "id"]);
    assert !UpdateGate(cols[1], "p", ["x", "id"]);
    assert IndexOf(cols, "x") == Some(1);
    assert CountTrue(AutoFlags(cols)) == 0;
    assert SingleUpdateAllowed(cols, 1, "x", VStr("new"));
    UpdateCascadeSingle(cols, data, "p", pcols, ["x", "id"], [VStr("new"), VInt(5)], [VInt(1), VStr("old")], 0, 1);
    var r := SetWhere(data, 0, VInt(1), 1, VStr("new"));
    assert Matches(data[0], 0, VInt(1));
    assert r[0] == [VInt(1), VStr("new")];
    assert r == [[VInt(1), VStr("new")]];
  }

  /**
   * When the first changed name is a parent column the child lacks, the
   * cascade's `update_row` on the child names that column and is refused with
   * an unknown column, although the child's foreign key is among the names.
   */
  lemma UpdateCascadeUnknownFirstName()
    ensures var pcols := [ColDef("id", TInt, true, None, false, false, false), ColDef("x", TStr, false, None, false, false, false)];
      var cols := [ColDef("id", TInt, false, Some(ForeignKey("p", "id", Cascade, DoNothing)), false, false, false)];
      CascadeChildUpdate(cols, [[VInt(1)]], "p", pcols, ["x", "id"], [VStr("new"), VInt(5)], [[VInt(1), VStr("old")]])
        == Err(UnknownColumn)
  {
  }

  /** With no triples, the loop over the snapshot rows writes nothing. */
  lemma {:induction false} NoTripleSnapshot(cols: Schema, data: seq<Row>, fkIdx: nat, fkName: string, snap: seq<Row>, z: seq<Change>, pi: nat, i: nat)
    requires Fits(cols, data) && Fits(cols, snap) && fkIdx < |cols| && PreImagesReach(z, pi) && |z| == 0
    ensures CascadeSnapshot(cols, data, fkIdx, fkName, snap, z, pi, i) == Ok(data)
    decreases |snap| - i
  {
    if i < |snap| {
      NoTripleSnapshot(cols, data, fkIdx, fkName, snap, z, pi, i + 1);
    }
  }

  /** With no triples, the column loop leaves the child as it is, unless a gated column's `.index` fails. */
  lemma {:induction false} NoTripleColumns(cols: Schema, data: seq<Row>, parent: string, pcols: Schema, names: seq<string>, z: seq<Change>, j: nat)
    requires Fits(cols, data) && |z| == 0
    ensures CascadeUpdateFrom(cols, data, parent, pcols, names, z, j) == Ok(data)
         || CascadeUpdateFrom(cols, data, parent, pcols, names, z, j) == Err(ColumnNotInParent)
    decreases |cols| - j
  {
    if j < |cols| {
      NoTripleColumns(cols, data, parent, pcols, names, z, j + 1);
      if UpdateGate(cols[j], parent, names) && IndexOf(pcols, cols[j].name).Some? && cols[j].fk.value.onUpdate == Cascade {
        NoTripleSnapshot(cols, data, j, cols[j].fk.value.column, data, z, IndexOf(pcols, cols[j].name).value, 0);
      }
    }
  }

  /**
   * A parent update that matched no row has no pre-images, and then the
   * cascade writes nothing into the child: it leaves the rows as they are,
   * or raises the `.index` error of a gated column the parent lacks.
   */
  lemma NoPreImageNoWrite(cols: Schema, data: seq<Row>, parent: string, pcols: Schema, names: seq<string>, values: seq<Value>)
    requires Fits(cols, data)
    ensures CascadeChildUpdate(cols, data, parent, pcols, names, values, []) == Ok(data)
         || CascadeChildUpdate(cols, data, parent, pcols, names, values, []) == Err(ColumnNotInParent)
  {
    assert Fits(pcols, []);
    NoTripleColumns(cols, data, parent, pcols, names, Zip3(names, values, []), 0);
  }

}
