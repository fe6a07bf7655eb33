/**
 * The catalog (`Database` in app/pydb/database.py): named tables, an insert
 * that first looks for each foreign-key value in the parent, and the
 * propagation of a parent's update or delete to the tables that refer to it.
 */
module Catalog {
  import opened Errors
  import opened Values
  import opened RowOps
  import opened Schema
  import opened RowStore
  import opened Propagation

  // ---------------------------------------------------------------------
  // The catalog object
  // ---------------------------------------------------------------------

  /** One table's section of the persisted document: its columns and its rows. */
  datatype Section = Section(columns: Schema, rows: seq<Row>)

  predicate Distinct(names: seq<string>)
  {
    forall i, j :: 0 <= i < j < |names| ==> names[i] != names[j]
  }

  /** The keys of a dictionary after `del d[n]`: the others, in their order, so `n`'s single entry is cut out. */
  function Without(names: seq<string>, n: string): (r: seq<string>)
    ensures forall m :: m in r <==> m in names && m != n
    ensures Distinct(names) ==> Distinct(r)
  {
    if |names| == 0 then []
    else
      var rest := Without(names[1..], n);
      assert forall m :: m in names[1..] ==> m in names;
      assert Distinct(names) ==> Distinct(names[1..]) && names[0] !in rest;
      if names[0] == n then rest else [names[0]] + rest
  }

  /** Without `n` among the keys, `del` leaves them all, in their order. */
  lemma {:induction false} WithoutAbsent(names: seq<string>, n: string)
    requires n !in names
    ensures Without(names, n) == names
  {
    if |names| > 0 {
      WithoutAbsent(names[1..], n);
      assert names == [names[0]] + names[1..];
    }
  }

  /** Among distinct keys, `del` cuts out the single entry of `n` and keeps the others in their order. */
  lemma {:induction false} WithoutCut(names: seq<string>, n: string, q: nat)
    requires Distinct(names) && q < |names| && names[q] == n
    ensures Without(names, n) == names[..q] + names[q + 1..]
  {
    assert names == [names[0]] + names[1..];
    if q == 0 {
      assert n !in names[1..];
      WithoutAbsent(names[1..], n);
    } else {
      assert names[0] != n;
      WithoutCut(names[1..], n, q - 1);
      assert names[..q] == [names[0]] + names[1..][..q - 1];
      assert names[q + 1..] == names[1..][q..];
    }
  }

  // ---------------------------------------------------------------------
  // Propagation into one child, as the source runs it
  // ---------------------------------------------------------------------

  /** The zip loop for one snapshot row: each matching pre-image runs `update_row` on the child. */
  method CascadeRowInto(child: Table, fkIdx: nat, fkName: string, row: Row, z: seq<Change>, pi: nat) returns (r: Result<()>)
    requires child.Valid() && fkIdx < |row| && PreImagesReach(z, pi)
    modifies child
    ensures child.Valid()
    ensures match CascadeRow(child.columns, old(child.data), fkIdx, fkName, row, z, pi, 0)
      case Err(e) => r == Err(e)
      case Ok(d) => r == Ok(()) && child.data == d
  {
    var t := 0;
    while t < |z|
      invariant t <= |z| && child.Valid()
      invariant CascadeRow(child.columns, child.data, fkIdx, fkName, row, z, pi, t) ==
                CascadeRow(child.columns, old(child.data), fkIdx, fkName, row, z, pi, 0)
    {
      if PyEq(row[fkIdx], z[t].pre[pi]) {
        var u := child.UpdateRow([z[t].name], [z[t].value], fkName, row[fkIdx]);
        if u.Err? {
          return Err(u.error);
        }
      }
      t := t + 1;
    }
    return Ok(());
  }

  /** The loop over the rows the child held when the cascade of one column began. */
  method CascadeSnapshotInto(child: Table, fkIdx: nat, fkName: string, snap: seq<Row>, z: seq<Change>, pi: nat) returns (r: Result<()>)
    requires child.Valid() && Fits(child.columns, snap) && fkIdx < |child.columns| && PreImagesReach(z, pi)
    modifies child
    ensures child.Valid()
    ensures match CascadeSnapshot(child.columns, old(child.data), fkIdx, fkName, snap, z, pi, 0)
      case Err(e) => r == Err(e)
      case Ok(d) => r == Ok(()) && child.data == d
  {
    var i := 0;
    while i < |snap|
      invariant i <= |snap| && child.Valid()
      invariant CascadeSnapshot(child.columns, child.data, fkIdx, fkName, snap, z, pi, i) ==
                CascadeSnapshot(child.columns, old(child.data), fkIdx, fkName, snap, z, pi, 0)
    {
      assert snap[i] in snap;
      r := CascadeRowInto(child, fkIdx, fkName, snap[i], z, pi);
      if r.Err? {
        return;
      }
      i := i + 1;
    }
    return Ok(());
  }

  /** The loop over the child's columns in `handle_fk_updates`. */
  method CascadeUpdateInto(child: Table, parent: string, pcols: Schema, names: seq<string>, z: seq<Change>) returns (r: Result<()>)
    requires child.Valid()
    requires forall t :: 0 <= t < |z| ==> |z[t].pre| == |pcols|
    modifies child
    ensures child.Valid()
    ensures match CascadeUpdateFrom(child.columns, old(child.data), parent, pcols, names, z, 0)
      case Err(e) => r == Err(e)
      case Ok(d) => r == Ok(()) && child.data == d
  {
    var j := 0;
    while j < |child.columns|
      invariant j <= |child.columns| && child.Valid()
      invariant CascadeUpdateFrom(child.columns, child.data, parent, pcols, names, z, j) ==
                CascadeUpdateFrom(child.columns, old(child.data), parent, pcols, names, z, 0)
    {
      var c := child.columns[j];
      if UpdateGate(c, parent, names) {
        var pi := IndexOf(pcols, c.name);
        if pi.None? {
          return Err(ColumnNotInParent);
        }
        if c.fk.value.onUpdate == Cascade {
          r := CascadeSnapshotInto(child, j, c.fk.value.column, child.data, z, pi.value);
          if r.Err? {
            return;
          }
        }
      }
      j := j + 1;
    }
    return Ok(());
  }

  /** `delete_row(fk_column, value, True)` for every snapshot row whose foreign key holds the value. */
  method DeleteRepeatInto(child: Table, fkIdx: nat, fkName: string, cv: Value, snap: seq<Row>) returns (r: Result<()>)
    requires child.Valid() && Fits(child.columns, snap) && fkIdx < |child.columns|
    modifies child
    ensures child.Valid()
    ensures match DeleteRepeat(child.columns, old(child.data), fkIdx, fkName, cv, snap, 0)
      case Err(e) => r == Err(e)
      case Ok(d) => r == Ok(()) && child.data == d
  {
    var i := 0;
    while i < |snap|
      invariant i <= |snap| && child.Valid()
      invariant DeleteRepeat(child.columns, child.data, fkIdx, fkName, cv, snap, i) ==
                DeleteRepeat(child.columns, old(child.data), fkIdx, fkName, cv, snap, 0)
    {
      assert snap[i] in snap;
      if PyEq(snap[i][fkIdx], cv) {
        var d := child.DeleteRow(fkName, cv, true);
        if d.Err? {
          return Err(d.error);
        }
      }
      i := i + 1;
    }
    return Ok(());
  }

  /** The loop over the child's columns in `handle_fk_deletes`. */
  method CascadeDeleteInto(child: Table, parent: string, cn: string, cv: Value) returns (r: Result<()>)
    requires child.Valid()
    modifies child
    ensures child.Valid()
    ensures match CascadeChildDelete(child.columns, old(child.data), parent, cn, cv)
      case Err(e) => r == Err(e)
      case Ok(d) => r == Ok(()) && child.data == d
  {
    var j := 0;
    while j < |child.columns|
      invariant j <= |child.columns| && child.Valid()
      invariant CascadeDeleteFrom(child.columns, child.data, parent, cn, cv, j) ==
                CascadeDeleteFrom(child.columns, old(child.data), parent, cn, cv, 0)
    {
      var c := child.columns[j];
      if DeleteGate(c, parent, cn) && c.fk.value.onDelete == Cascade {
        r := DeleteRepeatInto(child, j, cn, cv, child.data);
        if r.Err? {
          return;
        }
      }
      j := j + 1;
    }
    return Ok(());
  }

  // ---------------------------------------------------------------------
  // The parent lookup of `insert_into_table`
  // ---------------------------------------------------------------------

  /**
   * The value `v` of a foreign-key column `c` is present in its parent: the
   * parent is registered, has a column of the child column's own name, and
   * some parent row holds `v` there.
   */
  predicate Referenced(c: ColDef, v: Value, view: map<string, Section>)
    requires c.fk.Some?
  {
    && c.fk.value.table in view
    && IndexOf(view[c.fk.value.table].columns, c.name).Some?
    && ColumnHas(view[c.fk.value.table].rows, IndexOf(view[c.fk.value.table].columns, c.name).value, v)
  }

  /**
   * The loop over the child's columns from `k` on: an unregistered parent
   * raises, a parent without the column raises, a value the parent lacks
   * stops the insert (`Ok(false)`), and `Ok(true)` lets it go ahead.
   */
  function ParentsHold(cols: Schema, s: Row, view: map<string, Section>, k: nat): (r: Result<bool>)
    requires |s| == |cols|
    ensures r.Err? ==> r.error == NoSuchTable || r.error == ColumnNotInParent
    ensures r.Err? ==> exists j :: k <= j < |cols| && cols[j].fk.Some?
    decreases |cols| - k
  {
    if k >= |cols| then Ok(true)
    else if cols[k].fk.None? then ParentsHold(cols, s, view, k + 1)
    else
      var parent := cols[k].fk.value.table;
      if parent !in view then Err(NoSuchTable)
      else match IndexOf(view[parent].columns, cols[k].name)
        case None => Err(ColumnNotInParent)
        case Some(pi) =>
          if !ColumnHas(view[parent].rows, pi, s[k]) then Ok(false)
          else ParentsHold(cols, s, view, k + 1)
  }

  /**
   * The insert goes ahead exactly when every foreign-key value is
   * referenced; it is refused without an error only at a value missing from
   * a parent that could be searched; the only errors are the two lookups.
   */
  lemma {:induction false} ParentsHoldIff(cols: Schema, s: Row, view: map<string, Section>, k: nat)
    requires |s| == |cols|
    ensures ParentsHold(cols, s, view, k) == Ok(true) <==>
      forall j :: k <= j < |cols| && cols[j].fk.Some? ==> Referenced(cols[j], s[j], view)
    ensures ParentsHold(cols, s, view, k) == Ok(false) ==>
      exists j :: k <= j < |cols| && cols[j].fk.Some? && !Referenced(cols[j], s[j], view)
    ensures ParentsHold(cols, s, view, k).Err? ==>
      ParentsHold(cols, s, view, k).error in {NoSuchTable, ColumnNotInParent}
    ensures (forall j :: k <= j < |cols| && cols[j].fk.Some? ==>
               cols[j].fk.value.table in view && IndexOf(view[cols[j].fk.value.table].columns, cols[j].name).Some?) ==>
      ParentsHold(cols, s, view, k).Ok?
    decreases |cols| - k
  {
    if k < |cols| {
      ParentsHoldIff(cols, s, view, k + 1);
    }
  }

  // ---------------------------------------------------------------------
  // Propagation over every registered table
  // ---------------------------------------------------------------------

  /** Every section's rows have its columns' width. */
  predicate ViewFits(view: map<string, Section>)
  {
    forall n :: n in view ==> Fits(view[n].columns, view[n].rows)
  }

  /** `view` with the rows of `n` replaced. */
  function WithRows(view: map<string, Section>, n: string, rows: seq<Row>): (v: map<string, Section>)
    requires n in view
    ensures forall m :: m in v <==> m in view
    ensures forall m :: m in view && m != n ==> v[m] == view[m]
    ensures v[n] == Section(view[n].columns, rows)
  {
    view[n := Section(view[n].columns, rows)]
  }

  /**
   * The loop of `handle_fk_updates` over the registered names from `i` on:
   * every table but the parent gets the update propagated into it; the
   * first error stops the loop.
   */
  function UpdateChildren(view: map<string, Section>, order: seq<string>, parent: string, pcols: Schema,
                          names: seq<string>, z: seq<Change>, i: nat): (r: Result<map<string, Section>>)
    requires ViewFits(view) && (forall t :: 0 <= t < |z| ==> |z[t].pre| == |pcols|)
    requires forall n :: n in order ==> n in view
    ensures r.Ok? ==> (forall m :: m in r.value <==> m in view) && ViewFits(r.value)
    ensures r.Ok? ==> forall n :: n in view ==> r.value[n].columns == view[n].columns
    decreases |order| - i
  {
    if i >= |order| then Ok(view)
    else if order[i] == parent then UpdateChildren(view, order, parent, pcols, names, z, i + 1)
    else
      var c := view[order[i]];
      match CascadeUpdateFrom(c.columns, c.rows, parent, pcols, names, z, 0)
      case Err(e) => Err(e)
      case Ok(d) => UpdateChildren(WithRows(view, order[i], d), order, parent, pcols, names, z, i + 1)
  }

  /** The loop of `handle_fk_deletes` over the registered names from `i` on. */
  function DeleteChildren(view: map<string, Section>, order: seq<string>, parent: string, cn: string, cv: Value, i: nat): (r: Result<map<string, Section>>)
    requires ViewFits(view)
    requires forall n :: n in order ==> n in view
    ensures r.Ok? ==> (forall m :: m in r.value <==> m in view) && ViewFits(r.value)
    ensures r.Ok? ==> forall n :: n in view ==> r.value[n].columns == view[n].columns
    decreases |order| - i
  {
    if i >= |order| then Ok(view)
    else if order[i] == parent then DeleteChildren(view, order, parent, cn, cv, i + 1)
    else
      var c := view[order[i]];
      match CascadeChildDelete(c.columns, c.rows, parent, cn, cv)
      case Err(e) => Err(e)
      case Ok(d) => DeleteChildren(WithRows(view, order[i], d), order, parent, cn, cv, i + 1)
  }

  /** One turn of the loop of `handle_fk_updates`, at a table other than the parent. */
  lemma UpdateChildrenStep(view: map<string, Section>, order: seq<string>, parent: string, pcols: Schema,
                           names: seq<string>, z: seq<Change>, i: nat)
    requires ViewFits(view) && (forall t :: 0 <= t < |z| ==> |z[t].pre| == |pcols|) && (forall n :: n in order ==> n in view)
    requires i < |order| && order[i] != parent
    ensures var c := view[order[i]];
      UpdateChildren(view, order, parent, pcols, names, z, i) ==
      match CascadeUpdateFrom(c.columns, c.rows, parent, pcols, names, z, 0)
      case Err(e) => Err(e)
      case Ok(d) => UpdateChildren(WithRows(view, order[i], d), order, parent, pcols, names, z, i + 1)
  {
  }

  /** One turn of the loop of `handle_fk_deletes`, at a table other than the parent. */
  lemma DeleteChildrenStep(view: map<string, Section>, order: seq<string>, parent: string, cn: string, cv: Value, i: nat)
    requires ViewFits(view) && (forall n :: n in order ==> n in view)
    requires i < |order| && order[i] != parent
    ensures var c := view[order[i]];
      DeleteChildren(view, order, parent, cn, cv, i) ==
      match CascadeChildDelete(c.columns, c.rows, parent, cn, cv)
      case Err(e) => Err(e)
      case Ok(d) => DeleteChildren(WithRows(view, order[i], d), order, parent, cn, cv, i + 1)
  {
  }

  /** A name sits in `order` at `i` or later. */
  predicate VisitedFrom(order: seq<string>, i: nat, n: string)
  {
    exists k :: i <= k < |order| && order[k] == n
  }

  lemma VisitedStep(order: seq<string>, i: nat, n: string)
    requires i < |order| && Distinct(order)
    ensures VisitedFrom(order, i, n) <==> n == order[i] || VisitedFrom(order, i + 1, n)
    ensures !VisitedFrom(order, i + 1, order[i])
  {
    if VisitedFrom(order, i, n) && n != order[i] {
      var k :| i <= k < |order| && order[k] == n;
      assert k != i;
    }
  }

  /**
   * After a successful propagation of an update, table `n` holds what
   * propagating into its own rows gives when the loop visits it (it is
   * registered at `i` or later and is not the parent), and is as it was
   * otherwise: each child is touched once and the parent never.
   */
  lemma {:induction false} UpdateChildrenAt(view: map<string, Section>, order: seq<string>, parent: string, pcols: Schema,
                                            names: seq<string>, z: seq<Change>, i: nat, n: string)
    requires ViewFits(view) && (forall t :: 0 <= t < |z| ==> |z[t].pre| == |pcols|) && Distinct(order) && n in view
    requires forall m :: m in order ==> m in view
    requires UpdateChildren(view, order, parent, pcols, names, z, i).Ok?
    ensures n != parent && VisitedFrom(order, i, n) ==>
      CascadeUpdateFrom(view[n].columns, view[n].rows, parent, pcols, names, z, 0).Ok?
    ensures UpdateChildren(view, order, parent, pcols, names, z, i).value[n] ==
      if n != parent && VisitedFrom(order, i, n)
      then Section(view[n].columns, CascadeUpdateFrom(view[n].columns, view[n].rows, parent, pcols, names, z, 0).value)
      else view[n]
    decreases |order| - i
  {
    if i < |order| {
      VisitedStep(order, i, n);
      if order[i] == parent {
        UpdateChildrenAt(view, order, parent, pcols, names, z, i + 1, n);
      } else {
        var c := view[order[i]];
        var d := CascadeUpdateFrom(c.columns, c.rows, parent, pcols, names, z, 0).value;
        UpdateChildrenAt(WithRows(view, order[i], d), order, parent, pcols, names, z, i + 1, n);
      }
    }
  }

  /** The same for a delete. */
  lemma {:induction false} DeleteChildrenAt(view: map<string, Section>, order: seq<string>, parent: string,
                                            cn: string, cv: Value, i: nat, n: string)
    requires ViewFits(view) && Distinct(order) && n in view
    requires forall m :: m in order ==> m in view
    requires DeleteChildren(view, order, parent, cn, cv, i).Ok?
    ensures n != parent && VisitedFrom(order, i, n) ==>
      CascadeChildDelete(view[n].columns, view[n].rows, parent, cn, cv).Ok?
    ensures DeleteChildren(view, order, parent, cn, cv, i).value[n] ==
      if n != parent && VisitedFrom(order, i, n)
      then Section(view[n].columns, CascadeChildDelete(view[n].columns, view[n].rows, parent, cn, cv).value)
      else view[n]
    decreases |order| - i
  {
    if i < |order| {
      VisitedStep(order, i, n);
      if order[i] == parent {
        DeleteChildrenAt(view, order, parent, cn, cv, i + 1, n);
      } else {
        var c := view[order[i]];
        var d := CascadeChildDelete(c.columns, c.rows, parent, cn, cv).value;
        DeleteChildrenAt(WithRows(view, order[i], d), order, parent, cn, cv, i + 1, n);
      }
    }
  }

  /**
   * `update_table` over the catalog's view: the table must be registered,
   * its own update must pass every check, and then the rows it rewrote are
   * propagated into every other registered table, the rows matched before
   * the writes serving as the pre-images.
   */
  function UpdateTableSpec(view: map<string, Section>, order: seq<string>, name: string, names: seq<string>,
                           values: seq<Value>, cn: string, cv: Value): (r: Result<map<string, Section>>)
    requires ViewFits(view) && (forall n :: n in order ==> n in view)
    ensures name !in view ==> r == Err(NoSuchTable)
    ensures r.Ok? ==> (forall m :: m in r.value <==> m in view) && ViewFits(r.value)
  {
    if name !in view then Err(NoSuchTable)
    else
      var p := view[name];
      match UpdateSpec(p.columns, p.rows, names, values, cn, cv)
      case Err(e) => Err(e)
      case Ok(u) => UpdatePropagated(view, order, name, names, values, u)
  }

  /** What follows a successful own update of `name`: its new rows, then the propagation of the rows it matched. */
  function UpdatePropagated(view: map<string, Section>, order: seq<string>, name: string, names: seq<string>,
                            values: seq<Value>, u: Updated): (r: Result<map<string, Section>>)
    requires ViewFits(view) && (forall n :: n in order ==> n in view)
    requires name in view && Fits(view[name].columns, u.rows) && Fits(view[name].columns, u.prev)
    ensures r.Ok? ==> (forall m :: m in r.value <==> m in view) && ViewFits(r.value)
  {
    var z := Zip3(names, values, u.prev);
    assert forall t :: 0 <= t < |z| ==> |z[t].pre| == |view[name].columns|;
    UpdateChildren(WithRows(view, name, u.rows), order, name, view[name].columns, names, z, 0)
  }

  /**
   * `delete_from_table` over the catalog's view: the table must be
   * registered and its own delete (by primary key) must pass its checks;
   * the delete is then propagated into every other registered table, even
   * when no row of the parent matched.
   */
  function DeleteTableSpec(view: map<string, Section>, order: seq<string>, name: string, cn: string, cv: Value)
    : (r: Result<map<string, Section>>)
    requires ViewFits(view) && (forall n :: n in order ==> n in view)
    ensures name !in view ==> r == Err(NoSuchTable)
    ensures r.Ok? ==> (forall m :: m in r.value <==> m in view) && ViewFits(r.value)
  {
    if name !in view then Err(NoSuchTable)
    else
      var p := view[name];
      match DeleteSpec(p.columns, p.rows, cn, cv, false)
      case Err(e) => Err(e)
      case Ok(s) =>
        DeleteEffect(p.columns, p.rows, cn, cv, false);
        DeleteChildren(WithRows(view, name, s.rows), order, name, cn, cv, 0)
  }

  /**
   * A successful `update_table` leaves the updated table with the rows its
   * own update wrote, every other registered table with what propagating
   * that update into its rows gives, and every table it does not visit as
   * it was.
   */
  lemma UpdateTableEffect(view: map<string, Section>, order: seq<string>, name: string, names: seq<string>,
                          values: seq<Value>, cn: string, cv: Value, n: string)
    requires ViewFits(view) && (forall m :: m in order ==> m in view) && Distinct(order) && n in view
    requires UpdateTableSpec(view, order, name, names, values, cn, cv).Ok?
    ensures name in view && UpdateSpec(view[name].columns, view[name].rows, names, values, cn, cv).Ok?
    ensures Fits(view[name].columns, UpdateSpec(view[name].columns, view[name].rows, names, values, cn, cv).value.prev)
    ensures var u := UpdateSpec(view[name].columns, view[name].rows, names, values, cn, cv).value;
      var v := UpdateTableSpec(view, order, name, names, values, cn, cv).value;
      && (n == name ==> v[n] == Section(view[n].columns, u.rows))
      && (n != name && n in order ==>
            CascadeChildUpdate(view[n].columns, view[n].rows, name, view[name].columns, names, values, u.prev)
            == Ok(v[n].rows))
      && (n != name && n !in order ==> v[n] == view[n])
  {
    var u := UpdateTableUnfold(view, order, name, names, values, cn, cv);
    var p := view[name];
    var z := Zip3(names, values, u.prev);
    var w := WithRows(view, name, u.rows);
    UpdateChildrenAt(w, order, name, p.columns, names, z, 0, n);
    if n != name {
      assert w[n] == view[n];
      if n in order {
        var k :| 0 <= k < |order| && order[k] == n;
        assert VisitedFrom(order, 0, n);
      }
    }
  }

  /** `update_table` raises what the table's own update raises. */
  lemma UpdateTableRejected(view: map<string, Section>, order: seq<string>, name: string, names: seq<string>,
                            values: seq<Value>, cn: string, cv: Value)
    requires ViewFits(view) && (forall m :: m in order ==> m in view)
    requires name in view && UpdateSpec(view[name].columns, view[name].rows, names, values, cn, cv).Err?
    ensures UpdateTableSpec(view, order, name, names, values, cn, cv) ==
      Err(UpdateSpec(view[name].columns, view[name].rows, names, values, cn, cv).error)
  {
  }

  /** A successful `update_table` is its own update followed by the propagation of the rows that update matched. */
  lemma UpdateTableUnfold(view: map<string, Section>, order: seq<string>, name: string, names: seq<string>,
                          values: seq<Value>, cn: string, cv: Value) returns (u: Updated)
    requires ViewFits(view) && (forall m :: m in order ==> m in view)
    requires name in view && UpdateSpec(view[name].columns, view[name].rows, names, values, cn, cv).Ok?
    ensures UpdateSpec(view[name].columns, view[name].rows, names, values, cn, cv) == Ok(u)
    ensures Fits(view[name].columns, u.rows) && Fits(view[name].columns, u.prev)
    ensures forall t :: 0 <= t < |Zip3(names, values, u.prev)| ==> |Zip3(names, values, u.prev)[t].pre| == |view[name].columns|
    ensures UpdateTableSpec(view, order, name, names, values, cn, cv) ==
      UpdateChildren(WithRows(view, name, u.rows), order, name, view[name].columns, names, Zip3(names, values, u.prev), 0)
    ensures forall m :: m in view && m != name ==>
      CascadeChildUpdate(view[m].columns, view[m].rows, name, view[name].columns, names, values, u.prev)
      == CascadeUpdateFrom(view[m].columns, view[m].rows, name, view[name].columns, names, Zip3(names, values, u.prev), 0)
  {
    var p := view[name];
    u := UpdateSpec(p.columns, p.rows, names, values, cn, cv).value;
  }

  /** The same for a successful `delete_from_table`. */
  lemma DeleteTableEffect(view: map<string, Section>, order: seq<string>, name: string, cn: string, cv: Value, n: string)
    requires ViewFits(view) && (forall m :: m in order ==> m in view) && Distinct(order) && n in view
    requires DeleteTableSpec(view, order, name, cn, cv).Ok?
    ensures name in view && DeleteSpec(view[name].columns, view[name].rows, cn, cv, false).Ok?
    ensures var s := DeleteSpec(view[name].columns, view[name].rows, cn, cv, false).value;
      var v := DeleteTableSpec(view, order, name, cn, cv).value;
      && (n == name ==> v[n] == Section(view[n].columns, s.rows))
      && (n != name && n in order ==> CascadeChildDelete(view[n].columns, view[n].rows, name, cn, cv) == Ok(v[n].rows))
      && (n != name && n !in order ==> v[n] == view[n])
  {
    var p := view[name];
    var s := DeleteSpec(p.columns, p.rows, cn, cv, false).value;
    DeleteEffect(p.columns, p.rows, cn, cv, false);
    var w := WithRows(view, name, s.rows);
    DeleteChildrenAt(w, order, name, cn, cv, 0, n);
    if n in order {
      var k :| 0 <= k < |order| && order[k] == n;
      assert VisitedFrom(order, 0, n);
    }
  }

  /** `delete_from_table` raises what the table's own delete raises. */
  lemma DeleteTableRejected(view: map<string, Section>, order: seq<string>, name: string, cn: string, cv: Value)
    requires ViewFits(view) && (forall m :: m in order ==> m in view)
    requires name in view && DeleteSpec(view[name].columns, view[name].rows, cn, cv, false).Err?
    ensures DeleteTableSpec(view, order, name, cn, cv) == Err(DeleteSpec(view[name].columns, view[name].rows, cn, cv, false).error)
  {
  }

  /** A successful `delete_from_table` is its own delete followed by its propagation. */
  lemma DeleteTableUnfold(view: map<string, Section>, order: seq<string>, name: string, cn: string, cv: Value) returns (s: Scan)
    requires ViewFits(view) && (forall m :: m in order ==> m in view)
    requires name in view && DeleteSpec(view[name].columns, view[name].rows, cn, cv, false).Ok?
    ensures DeleteSpec(view[name].columns, view[name].rows, cn, cv, false) == Ok(s)
    ensures Fits(view[name].columns, s.rows)
    ensures DeleteTableSpec(view, order, name, cn, cv) == DeleteChildren(WithRows(view, name, s.rows), order, name, cn, cv, 0)
  {
    s := DeleteSpec(view[name].columns, view[name].rows, cn, cv, false).value;
    DeleteOkFits(view[name].columns, view[name].rows, cn, cv, false);
  }

  /**
   * The catalog: registered tables by name, in registration order, and the
   * persisted document's view of every table it holds, registered or not.
   * `remove_table` leaves a table's section in the document, so its rows
   * are kept in `detached` and reappear when the name is added again.
   */
  class Database {
    var order: seq<string>
    var tables: map<string, Table>
    var stored: map<string, Schema>
    var detached: map<string, seq<Row>>

    ghost function Objects(): set<Table>
      reads this
    {
      set n | n in tables :: tables[n]
    }

    /**
     * `order` lists the registered names once each; every table is valid
     * and registered under its own name (so no table object is registered
     * twice); the document holds a section for every registered name and
     * for every detached one, and for nothing else.
     */
    ghost predicate Valid()
      reads this, Objects()
    {
      && Distinct(order)
      && (forall n :: n in order <==> n in tables)
      && (forall n :: n in tables ==> tables[n].Valid() && tables[n].name == n)
      && (forall n :: n in stored <==> n in tables || n in detached)
      && (forall n :: n in tables ==> n !in detached)
    }

    /** Each registered table's columns and rows, by name. */
    ghost function View(): map<string, Section>
      reads this, Objects()
    {
      map n | n in tables :: Section(tables[n].columns, tables[n].data)
    }

    /** A catalog with no table registered, over the document found at the path. */
    constructor (doc: map<string, Section>)
      ensures Valid()
      ensures order == [] && tables == map[]
      ensures stored == map n | n in doc :: doc[n].columns
      ensures detached == map n | n in doc :: doc[n].rows
    {
      order := [];
      tables := map[];
      stored := map n | n in doc :: doc[n].columns;
      detached := map n | n in doc :: doc[n].rows;
    }

    /** `get_table`: the registered table of that name, or `NoSuchTable`. */
    function GetTable(name: string): (r: Result<Table>)
      reads this
      ensures r.Ok? <==> name in tables
      ensures r.Ok? ==> r.value == tables[name]
      ensures r.Err? ==> r.error == NoSuchTable
    {
      if name in tables then Ok(tables[name]) else Err(NoSuchTable)
    }

    /** `list_tables`: every registered name exactly once, in registration order. */
    function ListTables(): (names: seq<string>)
      reads this, Objects()
      requires Valid()
      ensures Distinct(names)
      ensures forall n :: n in names <==> n in tables
    {
      order
    }

    /**
     * `add_table`: a registered name is refused; otherwise the table is
     * built with the construction checks against the document's sections,
     * and takes over the rows the document already holds under its name.
     */
    method AddTable(name: string, specs: seq<(string, ColSpec)>) returns (r: Result<Table>)
      requires Valid() && DistinctKeys(specs)
      modifies this
      ensures Valid()
      ensures name in old(tables) ==> r == Err(TableExists)
      ensures name !in old(tables) && BuildSchema(specs, old(stored)).Err? ==> r == Err(BuildSchema(specs, old(stored)).error)
      ensures (name !in old(tables) && BuildSchema(specs, old(stored)).Ok? && name in old(stored) &&
               !Fits(BuildSchema(specs, old(stored)).value, old(detached)[name])) ==> r == Err(StoredRowsDoNotFit)
      ensures r.Err? ==> order == old(order) && tables == old(tables) && stored == old(stored) && detached == old(detached)
      ensures r.Ok? ==>
        && fresh(r.value)
        && r.value.name == name
        && r.value.columns == BuildSchema(specs, old(stored)).value
        && r.value.data == (if name in old(stored) then old(detached)[name] else [])
        && tables == old(tables)[name := r.value]
        && order == old(order) + [name]
        && stored == (if name in old(stored) then old(stored) else old(stored)[name := r.value.columns])
        && detached == old(detached) - {name}
    {
      if name in tables {
        return Err(TableExists);
      }
      var built := BuildSchema(specs, stored);
      if built.Err? {
        return Err(built.error);
      }
      var cols := built.value;
      var rows: seq<Row> := [];
      if name in stored {
        rows := detached[name];
        if !Fits(cols, rows) {
          return Err(StoredRowsDoNotFit);
        }
      }
      var t := Attach(name, cols, rows);
      return Ok(t);
    }

    /** Registers a new table over checked columns; a name the document lacks gets a section of its own. */
    method Attach(name: string, cols: Schema, rows: seq<Row>) returns (t: Table)
      requires Valid() && name !in tables
      requires Fits(cols, rows) && DistinctNames(cols) && CountPk(cols) <= 1
      modifies this
      ensures Valid()
      ensures fresh(t) && t.name == name && t.columns == cols && t.data == rows
      ensures tables == old(tables)[name := t]
      ensures order == old(order) + [name]
      ensures stored == (if name in old(stored) then old(stored) else old(stored)[name := cols])
      ensures detached == old(detached) - {name}
    {
      t := new Table(name, cols, rows);
      tables := tables[name := t];
      order := order + [name];
      if name !in stored {
        stored := stored[name := cols];
      }
      detached := detached - {name};
    }

    /** `remove_table`: an unregistered name is refused; the table's section stays in the document. */
    method RemoveTable(name: string) returns (r: Result<()>)
      requires Valid()
      modifies this
      ensures Valid()
      ensures name !in old(tables) ==> r == Err(NoSuchTable)
      ensures r.Err? ==> order == old(order) && tables == old(tables) && stored == old(stored) && detached == old(detached)
      ensures name in old(tables) ==>
        && r == Ok(())
        && tables == old(tables) - {name}
        && order == Without(old(order), name)
        && stored == old(stored)
        && detached == old(detached)[name := old(tables[name].data)]
    {
      if name !in tables {
        return Err(NoSuchTable);
      }
      detached := detached[name := tables[name].data];
      tables := tables - {name};
      order := Without(order, name);
      return Ok(());
    }

    /**
     * `insert_into_table`: the row is prepared (an error there is raised),
     * then every foreign-key value is looked up in its parent; the row is
     * inserted only when all of them are found (`Ok(true)`), and the
     * insert leaves every other table as it was.
     */
    method InsertIntoTable(name: string, row: Row) returns (r: Result<bool>)
      requires Valid()
      modifies Objects()
      ensures Valid()
      ensures name !in tables ==> r == Err(NoSuchTable)
      ensures forall n :: n in tables && n != name ==> tables[n].data == old(tables[n].data)
      ensures name in tables ==>
        match PrepInsert(tables[name].columns, old(tables[name].data), row)
        case Err(e) => r == Err(e) && tables[name].data == old(tables[name].data)
        case Ok(s) =>
          && |s| == |tables[name].columns|
          && r == ParentsHold(tables[name].columns, s, old(View()), 0)
          && tables[name].data == if r == Ok(true) then old(tables[name].data) + [s] else old(tables[name].data)
    {
      if name !in tables {
        return Err(NoSuchTable);
      }
      assert forall m :: m in tables && m != name ==> tables[m] != tables[name];
      r := InsertInto(tables[name], row);
      OthersStayValid(name);
    }

    /** `insert_into_table` once the table has been found. */
    method InsertInto(t: Table, row: Row) returns (r: Result<bool>)
      requires t.Valid()
      modifies t
      ensures t.Valid()
      ensures match PrepInsert(t.columns, old(t.data), row)
        case Err(e) => r == Err(e) && t.data == old(t.data)
        case Ok(s) =>
          && |s| == |t.columns|
          && r == ParentsHold(t.columns, s, old(View()), 0)
          && t.data == if r == Ok(true) then old(t.data) + [s] else old(t.data)
    {
      var p := t.PrepInsertRow(row);
      if p.Err? {
        r := Err(p.error);
      } else {
        PrepInsertOk(t.columns, t.data, row);
        assert forall n :: n in tables ==> tables[n].data == old(tables[n].data);
        assert View() == old(View());
        r := CheckParents(t.columns, p.value);
        if r == Ok(true) {
          PrepareTwice(t.columns, t.data, row);
          Commit(t, p.value);
        }
      }
    }

    /** `table.insert_row(row)` on a registered table, for a row that is known to be accepted. */
    method Commit(t: Table, s: Row)
      requires t.Valid()
      requires PrepInsert(t.columns, t.data, s) == Ok(s)
      modifies t
      ensures t.Valid()
      ensures t.data == old(t.data) + [s]
    {
      var ins := t.InsertRow(s);
    }

    /** The parent lookup loop of `insert_into_table` over a prepared row. */
    method CheckParents(cols: Schema, s: Row) returns (r: Result<bool>)
      requires |s| == |cols|
      ensures r == ParentsHold(cols, s, old(View()), 0)
    {
      var k := 0;
      while k < |cols|
        invariant k <= |cols|
        invariant ParentsHold(cols, s, View(), k) == ParentsHold(cols, s, View(), 0)
      {
        var fk := cols[k].fk;
        if fk.Some? {
          if fk.value.table !in tables {
            return Err(NoSuchTable);
          }
          var parent := tables[fk.value.table];
          assert View()[fk.value.table] == Section(parent.columns, parent.data);
          var pi := IndexOf(parent.columns, cols[k].name);
          if pi.None? {
            return Err(ColumnNotInParent);
          }
          if !ColumnHas(parent.data, pi.value, s[k]) {
            return Ok(false);
          }
        }
        k := k + 1;
      }
      return Ok(true);
    }

    /**
     * `handle_fk_updates`: the parent must be registered; every other
     * registered table, in registration order, gets the parent's update
     * propagated into it, and the first error is raised.
     */
    method HandleFkUpdates(name: string, names: seq<string>, values: seq<Value>, prev: seq<Row>) returns (r: Result<()>)
      requires Valid()
      requires name in tables ==> Fits(tables[name].columns, prev)
      modifies Objects()
      ensures Valid()
      ensures name !in tables ==> r == Err(NoSuchTable)
      ensures name in tables ==>
        match UpdateChildren(old(View()), order, name, tables[name].columns, names, Zip3(names, values, prev), 0)
        case Err(e) => r == Err(e)
        case Ok(v) => r == Ok(()) && View() == v
    {
      if name !in tables {
        return Err(NoSuchTable);
      }
      var z := Zip3(names, values, prev);
      assert forall t :: 0 <= t < |z| ==> |z[t].pre| == |tables[name].columns|;
      ViewOfValid();
      ghost var goal := UpdatePending(0, name, tables[name].columns, names, z);
      assert goal == UpdateChildren(old(View()), order, name, tables[name].columns, names, z, 0);
      r := PropagateUpdate(name, tables[name].columns, names, z, goal);
    }

    /**
     * The loop of `handle_fk_updates` over every registered table, with the
     * changes already paired with their pre-images: it ends with the
     * failure or the catalog that `goal`, the propagation from the first
     * registered name on, describes.
     */
    method PropagateUpdate(name: string, pcols: Schema, names: seq<string>, z: seq<Change>,
                           ghost goal: Result<map<string, Section>>) returns (r: Result<()>)
      requires Valid() && (forall t :: 0 <= t < |z| ==> |z[t].pre| == |pcols|)
      requires UpdatePending(0, name, pcols, names, z) == goal
      modifies Objects()
      ensures Valid()
      ensures goal.Err? ==> r == Err(goal.error)
      ensures goal.Ok? ==> r == Ok(()) && View() == goal.value
    {
      var i := 0;
      while i < |order|
        invariant i <= |order| && Valid() && UpdatePending(i, name, pcols, names, z) == goal
      {
        r := UpdateVisit(i, name, pcols, names, z, goal);
        if r.Err? {
          return;
        }
        i := i + 1;
      }
      ViewOfValid();
      return Ok(());
    }

    /** The propagation of a parent's changes into the current catalog, from registered name `i` on. */
    ghost function UpdatePending(i: nat, parent: string, pcols: Schema, names: seq<string>, z: seq<Change>)
      : Result<map<string, Section>>
      requires Valid() && (forall t :: 0 <= t < |z| ==> |z[t].pre| == |pcols|)
      reads this, Objects()
    {
      ViewOfValid();
      UpdateChildren(View(), order, parent, pcols, names, z, i)
    }

    /** One turn of the loop of `handle_fk_updates`: the table registered at `i`, unless it is the parent. */
    method UpdateVisit(i: nat, parent: string, pcols: Schema, names: seq<string>, z: seq<Change>,
                       ghost goal: Result<map<string, Section>>) returns (r: Result<()>)
      requires Valid() && i < |order| && (forall t :: 0 <= t < |z| ==> |z[t].pre| == |pcols|)
      requires UpdatePending(i, parent, pcols, names, z) == goal
      modifies Objects()
      ensures unchanged(this) && Valid()
      ensures r.Err? ==> goal == Err(r.error)
      ensures r.Ok? ==> UpdatePending(i + 1, parent, pcols, names, z) == goal
    {
      ViewOfValid();
      if order[i] == parent {
        return Ok(());
      }
      UpdateChildrenStep(View(), order, parent, pcols, names, z, i);
      assert View()[order[i]] == Section(tables[order[i]].columns, tables[order[i]].data);
      r := UpdateOne(order[i], parent, pcols, names, z);
      ViewOfValid();
    }

    /**
     * `handle_fk_deletes`: the parent must be registered; every other
     * registered table, in registration order, gets the parent's delete
     * propagated into it, and the first error is raised.
     */
    method HandleFkDeletes(name: string, cn: string, cv: Value) returns (r: Result<()>)
      requires Valid()
      modifies Objects()
      ensures Valid()
      ensures name !in tables ==> r == Err(NoSuchTable)
      ensures name in tables ==>
        match DeleteChildren(old(View()), order, name, cn, cv, 0)
        case Err(e) => r == Err(e)
        case Ok(v) => r == Ok(()) && View() == v
    {
      if name !in tables {
        return Err(NoSuchTable);
      }
      ViewOfValid();
      ghost var goal := DeletePending(0, name, cn, cv);
      assert goal == DeleteChildren(old(View()), order, name, cn, cv, 0);
      r := PropagateDelete(name, cn, cv, goal);
    }

    /**
     * The loop of `handle_fk_deletes` over every registered table: it ends
     * with the failure or the catalog that `goal`, the propagation from the
     * first registered name on, describes.
     */
    method PropagateDelete(name: string, cn: string, cv: Value, ghost goal: Result<map<string, Section>>)
      returns (r: Result<()>)
      requires Valid() && DeletePending(0, name, cn, cv) == goal
      modifies Objects()
      ensures Valid()
      ensures goal.Err? ==> r == Err(goal.error)
      ensures goal.Ok? ==> r == Ok(()) && View() == goal.value
    {
      var i := 0;
      while i < |order|
        invariant i <= |order| && Valid() && DeletePending(i, name, cn, cv) == goal
      {
        r := DeleteVisit(i, name, cn, cv, goal);
        if r.Err? {
          return;
        }
        i := i + 1;
      }
      ViewOfValid();
      return Ok(());
    }

    /** The propagation of a parent's delete into the current catalog, from registered name `i` on. */
    ghost function DeletePending(i: nat, parent: string, cn: string, cv: Value): Result<map<string, Section>>
      requires Valid()
      reads this, Objects()
    {
      ViewOfValid();
      DeleteChildren(View(), order, parent, cn, cv, i)
    }

    /** One turn of the loop of `handle_fk_deletes`: the table registered at `i`, unless it is the parent. */
    method DeleteVisit(i: nat, parent: string, cn: string, cv: Value, ghost goal: Result<map<string, Section>>)
      returns (r: Result<()>)
      requires Valid() && i < |order| && DeletePending(i, parent, cn, cv) == goal
      modifies Objects()
      ensures unchanged(this) && Valid()
      ensures r.Err? ==> goal == Err(r.error)
      ensures r.Ok? ==> DeletePending(i + 1, parent, cn, cv) == goal
    {
      ViewOfValid();
      if order[i] == parent {
        return Ok(());
      }
      DeleteChildrenStep(View(), order, parent, cn, cv, i);
      assert View()[order[i]] == Section(tables[order[i]].columns, tables[order[i]].data);
      r := DeleteOne(order[i], parent, cn, cv);
      ViewOfValid();
    }

    /**
     * `update_table`: the table's own update, then the propagation of the
     * rows it matched into every other registered table. When the table's
     * own update is rejected nothing has changed.
     */
    method UpdateTable(name: string, names: seq<string>, values: seq<Value>, cn: string, cv: Value) returns (r: Result<()>)
      requires Valid()
      modifies Objects()
      ensures Valid()
      ensures match UpdateTableSpec(old(View()), order, name, names, values, cn, cv)
        case Err(e) => r == Err(e)
        case Ok(v) => r == Ok(()) && View() == v
      ensures name in tables && UpdateSpec(tables[name].columns, old(tables[name].data), names, values, cn, cv).Err? ==>
        View() == old(View())
    {
      if name !in tables {
        ViewOfValid();
        return Err(NoSuchTable);
      }
      ViewOfValid();
      ghost var v0 := View();
      r := UpdateRegistered(name, names, values, cn, cv);
      if UpdateSpec(v0[name].columns, v0[name].rows, names, values, cn, cv).Ok? {
        ghost var x := UpdateTableUnfold(v0, order, name, names, values, cn, cv);
      } else {
        UpdateTableRejected(v0, order, name, names, values, cn, cv);
      }
    }

    /** `update_table` on a registered table: its own update, then the propagation of what that update matched. */
    method UpdateRegistered(name: string, names: seq<string>, values: seq<Value>, cn: string, cv: Value) returns (r: Result<()>)
      requires Valid() && name in tables
      modifies Objects()
      ensures Valid()
      ensures match UpdateSpec(tables[name].columns, old(tables[name].data), names, values, cn, cv)
        case Err(e) => r == Err(e) && View() == old(View())
        case Ok(u) =>
          match UpdatePropagated(old(View()), order, name, names, values, u)
          case Err(e) => r == Err(e)
          case Ok(v) => r == Ok(()) && View() == v
    {
      ghost var v0 := View();
      ghost var spec := UpdateSpec(tables[name].columns, tables[name].data, names, values, cn, cv);
      var u := OwnUpdate(name, names, values, cn, cv);
      if u.Err? {
        return Err(u.error);
      }
      assert View() == WithRows(v0, name, spec.value.rows) && u.value.1 == spec.value.prev;
      r := HandleFkUpdates(name, names, values, u.value.1);
    }

    /** The updated table's own `update_row`, which rewrites its rows and nothing else. */
    method OwnUpdate(name: string, names: seq<string>, values: seq<Value>, cn: string, cv: Value)
      returns (u: Result<(nat, seq<Row>)>)
      requires Valid() && name in tables
      modifies tables[name]
      ensures unchanged(this) && Valid()
      ensures match UpdateSpec(tables[name].columns, old(tables[name].data), names, values, cn, cv)
        case Err(e) => u == Err(e) && View() == old(View())
        case Ok(x) => u == Ok((x.count, x.prev)) && View() == WithRows(old(View()), name, x.rows)
    {
      var t := tables[name];
      assert forall m :: m in tables && m != name ==> tables[m] != t;
      u := t.UpdateRow(names, values, cn, cv);
      OnlyOneWritten(name);
    }

    /**
     * `delete_from_table`: the table's own delete by primary key, then its
     * propagation into every other registered table, whether or not a row
     * was removed. When the table's own delete is rejected nothing has
     * changed.
     */
    method DeleteFromTable(name: string, cn: string, cv: Value) returns (r: Result<()>)
      requires Valid()
      modifies Objects()
      ensures Valid()
      ensures match DeleteTableSpec(old(View()), order, name, cn, cv)
        case Err(e) => r == Err(e)
        case Ok(v) => r == Ok(()) && View() == v
      ensures name in tables && DeleteSpec(tables[name].columns, old(tables[name].data), cn, cv, false).Err? ==>
        View() == old(View())
    {
      if name !in tables {
        ViewOfValid();
        return Err(NoSuchTable);
      }
      ViewOfValid();
      ghost var v0 := View();
      r := DeleteRegistered(name, cn, cv);
      if DeleteSpec(v0[name].columns, v0[name].rows, cn, cv, false).Ok? {
        ghost var s := DeleteTableUnfold(v0, order, name, cn, cv);
      } else {
        DeleteTableRejected(v0, order, name, cn, cv);
      }
    }

    /** `delete_from_table` on a registered table: its own delete, then its propagation. */
    method DeleteRegistered(name: string, cn: string, cv: Value) returns (r: Result<()>)
      requires Valid() && name in tables
      modifies Objects()
      ensures Valid()
      ensures DeleteSpec(tables[name].columns, old(tables[name].data), cn, cv, false).Ok? ==>
        Fits(tables[name].columns, DeleteSpec(tables[name].columns, old(tables[name].data), cn, cv, false).value.rows)
      ensures match DeleteSpec(tables[name].columns, old(tables[name].data), cn, cv, false)
        case Err(e) => r == Err(e) && View() == old(View())
        case Ok(s) =>
          match DeleteChildren(WithRows(old(View()), name, s.rows), order, name, cn, cv, 0)
          case Err(e) => r == Err(e)
          case Ok(v) => r == Ok(()) && View() == v
    {
      DeleteOkFits(tables[name].columns, tables[name].data, cn, cv, false);
      var d := OwnDelete(name, cn, cv);
      if d.Err? {
        return Err(d.error);
      }
      r := HandleFkDeletes(name, cn, cv);
    }

    /** The table's own `delete_row` by primary key, which rewrites its rows and nothing else. */
    method OwnDelete(name: string, cn: string, cv: Value) returns (d: Result<nat>)
      requires Valid() && name in tables
      modifies tables[name]
      ensures unchanged(this) && Valid()
      ensures match DeleteSpec(tables[name].columns, old(tables[name].data), cn, cv, false)
        case Err(e) => d == Err(e) && View() == old(View())
        case Ok(x) => d == Ok(x.removed) && View() == WithRows(old(View()), name, x.rows)
    {
      var t := tables[name];
      assert forall m :: m in tables && m != name ==> tables[m] != t;
      d := t.DeleteRow(cn, cv, false);
      OnlyOneWritten(name);
    }

    /** Registered tables' rows fit their columns, and every registered name has a section. */
    lemma ViewOfValid()
      requires Valid()
      ensures ViewFits(View()) && (forall n :: n in View() <==> n in tables)
      ensures forall n :: n in order ==> n in View()
    {
    }

    /** When only the rows of table `n` changed, the catalog stays valid and its view changes at `n` alone. */
    twostate lemma OnlyOneWritten(n: string)
      requires old(Valid()) && unchanged(this) && n in tables
      requires forall m :: m in tables && m != n ==> unchanged(tables[m])
      requires tables[n].Valid()
      ensures Valid()
      ensures View() == WithRows(old(View()), n, tables[n].data)
    {
      OthersStayValid(n);
      var w := WithRows(old(View()), n, tables[n].data);
      forall m | m in tables
        ensures View()[m] == w[m]
      {
        if m != n {
          assert old(tables[m].data) == tables[m].data;
        }
      }
    }

    twostate lemma OthersStayValid(n: string)
      requires old(Valid()) && unchanged(this) && n in tables
      requires forall m :: m in tables && m != n ==> unchanged(tables[m])
      requires tables[n].Valid()
      ensures Valid()
    {
      forall m | m in tables && m != n
        ensures tables[m].Valid()
      {
        assert old(tables[m].Valid());
      }
    }

    /** Propagating an update into the registered table `n` rewrites its rows and nothing else. */
    method UpdateOne(n: string, parent: string, pcols: Schema, names: seq<string>, z: seq<Change>)
      returns (r: Result<()>)
      requires Valid() && n in tables && (forall t :: 0 <= t < |z| ==> |z[t].pre| == |pcols|)
      modifies tables[n]
      ensures unchanged(this) && Valid()
      ensures match CascadeUpdateFrom(tables[n].columns, old(tables[n].data), parent, pcols, names, z, 0)
        case Err(e) => r == Err(e)
        case Ok(d) => r == Ok(()) && View() == WithRows(old(View()), n, d)
    {
      var child := tables[n];
      assert forall m :: m in tables && m != n ==> tables[m] != child;
      r := CascadeUpdateInto(child, parent, pcols, names, z);
      OnlyOneWritten(n);
    }

    /** Propagating a delete into the registered table `n` rewrites its rows and nothing else. */
    method DeleteOne(n: string, parent: string, cn: string, cv: Value) returns (r: Result<()>)
      requires Valid() && n in tables
      modifies tables[n]
      ensures unchanged(this) && Valid()
      ensures match CascadeChildDelete(tables[n].columns, old(tables[n].data), parent, cn, cv)
        case Err(e) => r == Err(e)
        case Ok(d) => r == Ok(()) && View() == WithRows(old(View()), n, d)
    {
      var child := tables[n];
      assert forall m :: m in tables && m != n ==> tables[m] != child;
      r := CascadeDeleteInto(child, parent, cn, cv);
      OnlyOneWritten(n);
    }
  }
}
