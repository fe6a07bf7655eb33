/**
 * The current row store (`Table` in app/pydb/table.py): a fixed column
 * schema and a list of positional rows, with insert, conditional update
 * and delete, each of which checks its constraints before it changes a
 * row. The file the table is saved to after every change is modelled as
 * holding exactly `data`.
 */
module RowStore {
  import opened Errors
  import opened Values
  import opened RowOps
  import opened Schema

  /** Every row has one cell per column. */
  predicate Fits(cols: Schema, data: seq<Row>)
  {
    forall r :: r in data ==> |r| == |cols|
  }

  /** The auto-increment flag of every column, in column order. */
  function AutoFlags(cols: Schema): (f: seq<bool>)
    ensures |f| == |cols| && forall k :: 0 <= k < |cols| ==> f[k] == cols[k].autoInc
  {
    seq(|cols|, k requires 0 <= k < |cols| => cols[k].autoInc)
  }

  /** `v in [row[k] for row in data]`. */
  predicate ColumnHas(data: seq<Row>, k: nat, v: Value)
  {
    exists r :: r in data && k < |r| && PyEq(r[k], v)
  }

  /** A cell is acceptable in a column: `None` only where nullable, anything else of the column's type. */
  predicate CellOk(c: ColDef, v: Value)
  {
    if v.VNull? then c.nullable else HasTag(v, c.tag)
  }

  /** No two rows share a value in a primary-key column. */
  predicate KeysUnique(cols: Schema, data: seq<Row>)
  {
    forall k, i, j :: (0 <= k < |cols| && cols[k].pk && 0 <= i < j < |data| &&
      k < |data[i]| && k < |data[j]|) ==> !PyEq(data[i][k], data[j][k])
  }

  // ---------------------------------------------------------------------
  // Insert
  // ---------------------------------------------------------------------

  /** The primary-key loop of `prep_insert_row` from column `k` on. */
  function PkCheckFrom(cols: Schema, data: seq<Row>, row: Row, k: nat): Option<Error>
    requires |row| == |cols|
    decreases |cols| - k
  {
    if k >= |cols| then None
    else if cols[k].pk && ColumnHas(data, k, row[k]) then Some(DuplicatePrimaryKey)
    else PkCheckFrom(cols, data, row, k + 1)
  }

  /** The null and type loop of `prep_insert_row` from column `k` on. */
  function TypeCheckFrom(cols: Schema, row: Row, k: nat): Option<Error>
    requires |row| == |cols|
    decreases |cols| - k
  {
    if k >= |cols| then None
    else if row[k].VNull? && !cols[k].nullable then Some(NullViolation)
    else if !row[k].VNull? && !HasTag(row[k], cols[k].tag) then Some(TypeMismatch)
    else TypeCheckFrom(cols, row, k + 1)
  }

  /** A full-length row passes both loops. */
  predicate Admissible(cols: Schema, data: seq<Row>, s: Row)
  {
    && |s| == |cols|
    && (forall k :: 0 <= k < |cols| && cols[k].pk ==> !ColumnHas(data, k, s[k]))
    && (forall k :: 0 <= k < |cols| ==> CellOk(cols[k], s[k]))
  }

  /** The checks after the length has been settled: primary keys first, then nulls and types. */
  function Checked(cols: Schema, data: seq<Row>, s: Row): Result<Row>
    requires |s| == |cols|
  {
    match PkCheckFrom(cols, data, s, 0)
    case Some(e) => Err(e)
    case None =>
      match TypeCheckFrom(cols, s, 0)
      case Some(e) => Err(e)
      case None => Ok(s)
  }

  /** `prep_insert_row`: synthesis when values are missing, then the length, key and type checks. */
  function PrepInsert(cols: Schema, data: seq<Row>, row: Row): Result<Row>
  {
    if |row| < |cols| then
      match Synthesize(AutoFlags(cols), LastRow(data), row)
      case Err(e) => Err(e)
      case Ok(s) => if |s| != |cols| then Err(ValueCountMismatch) else Checked(cols, data, s)
    else if |row| > |cols| then Err(TooManyValues)
    else Checked(cols, data, row)
  }

  lemma {:induction false} PkCheckFromIff(cols: Schema, data: seq<Row>, row: Row, k: nat)
    requires |row| == |cols|
    ensures PkCheckFrom(cols, data, row, k).None? <==>
            forall j :: k <= j < |cols| && cols[j].pk ==> !ColumnHas(data, j, row[j])
    ensures PkCheckFrom(cols, data, row, k).Some? ==> PkCheckFrom(cols, data, row, k) == Some(DuplicatePrimaryKey)
    decreases |cols| - k
  {
    if k < |cols| {
      PkCheckFromIff(cols, data, row, k + 1);
    }
  }

  lemma {:induction false} TypeCheckFromIff(cols: Schema, row: Row, k: nat)
    requires |row| == |cols|
    ensures TypeCheckFrom(cols, row, k).None? <==> forall j :: k <= j < |cols| ==> CellOk(cols[j], row[j])
    decreases |cols| - k
  {
    if k < |cols| {
      TypeCheckFromIff(cols, row, k + 1);
    }
  }

  /** The checks accept exactly the admissible rows, and a key clash is reported before any type error. */
  lemma CheckedIff(cols: Schema, data: seq<Row>, s: Row)
    requires |s| == |cols|
    ensures Checked(cols, data, s).Ok? <==> Admissible(cols, data, s)
    ensures Checked(cols, data, s).Ok? ==> Checked(cols, data, s).value == s
    ensures (exists k :: 0 <= k < |cols| && cols[k].pk && ColumnHas(data, k, s[k])) ==>
            Checked(cols, data, s) == Err(DuplicatePrimaryKey)
  {
    PkCheckFromIff(cols, data, s, 0);
    TypeCheckFromIff(cols, s, 0);
  }

  /**
   * What a successful `prep_insert_row` hands back: a full-length row with
   * no primary-key value already in the table and every cell acceptable;
   * the caller's row itself when all values were given; otherwise the
   * caller's values at the ordinary columns in order and, at each
   * auto-increment column, the last row's value there plus one (0 in an
   * empty table).
   */
  lemma PrepInsertOk(cols: Schema, data: seq<Row>, row: Row)
    requires PrepInsert(cols, data, row).Ok?
    ensures var s := PrepInsert(cols, data, row).value;
      && Admissible(cols, data, s)
      && (|row| >= |cols| ==> s == row)
      && (|row| < |cols| ==>
           && |row| + CountTrue(AutoFlags(cols)) == |cols|
           && Kept(AutoFlags(cols), s) == row
           && forall j :: 0 <= j < |cols| && cols[j].autoInc ==> AutoValue(LastRow(data), j) == Some(s[j]))
  {
    var flags := AutoFlags(cols);
    if |row| < |cols| {
      var s := Synthesize(flags, LastRow(data), row).value;
      assert flags[0..] == flags;
      SynthLength(flags, LastRow(data), row, 0);
      SynthesizeAligned(flags, LastRow(data), row);
      CheckedIff(cols, data, s);
    } else {
      CheckedIff(cols, data, row);
    }
  }

  /**
   * The rejections of `prep_insert_row`: more values than columns; too few
   * values even after synthesis; a primary-key value already present; a
   * `None` in a non-nullable column or a value of the wrong type.
   */
  lemma PrepInsertRejects(cols: Schema, data: seq<Row>, row: Row)
    ensures |row| > |cols| ==> PrepInsert(cols, data, row) == Err(TooManyValues)
    ensures |row| < |cols| && |row| + CountTrue(AutoFlags(cols)) != |cols| ==> PrepInsert(cols, data, row).Err?
    ensures |row| == |cols| && !Admissible(cols, data, row) ==> PrepInsert(cols, data, row).Err?
    ensures |row| == |cols| && (exists k :: 0 <= k < |cols| && cols[k].pk && ColumnHas(data, k, row[k])) ==>
            PrepInsert(cols, data, row) == Err(DuplicatePrimaryKey)
  {
    var flags := AutoFlags(cols);
    if |row| < |cols| && Synthesize(flags, LastRow(data), row).Ok? {
      assert flags[0..] == flags;
      SynthLength(flags, LastRow(data), row, 0);
    }
    if |row| == |cols| {
      CheckedIff(cols, data, row);
    }
  }

  /**
   * Preparing an already prepared row against the same rows hands it back
   * unchanged, so the second `prep_insert_row` inside `insert_row` cannot
   * fail once the first one has succeeded.
   */
  lemma PrepareTwice(cols: Schema, data: seq<Row>, row: Row)
    requires PrepInsert(cols, data, row).Ok?
    ensures PrepInsert(cols, data, PrepInsert(cols, data, row).value) == PrepInsert(cols, data, row)
  {
    PrepInsertOk(cols, data, row);
    CheckedIff(cols, data, PrepInsert(cols, data, row).value);
  }

  /** A successful insert keeps primary-key values unique. */
  lemma InsertKeepsKeysUnique(cols: Schema, data: seq<Row>, row: Row)
    requires KeysUnique(cols, data)
    requires PrepInsert(cols, data, row).Ok?
    ensures KeysUnique(cols, data + [PrepInsert(cols, data, row).value])
  {
    PrepInsertOk(cols, data, row);
    var s := PrepInsert(cols, data, row).value;
    var d := data + [s];
    forall k, i, j | 0 <= k < |cols| && cols[k].pk && 0 <= i < j < |d| && k < |d[i]| && k < |d[j]|
      ensures !PyEq(d[i][k], d[j][k])
    {
      if j == |data| {
        assert !ColumnHas(data, k, s[k]);
        assert d[i] in data && d[j] == s;
      }
    }
  }

  // ---------------------------------------------------------------------
  // Update
  // ---------------------------------------------------------------------

  /** Auto-increment columns whose name is among `names`. */
  function CountAutoNamed(cols: Schema, names: seq<string>): nat
  {
    if |cols| == 0 then 0 else (if cols[0].autoInc && cols[0].name in names then 1 else 0) + CountAutoNamed(cols[1..], names)
  }

  /** The positions of the named columns that exist (all of them, or only the primary keys). */
  function Resolve(cols: Schema, names: seq<string>, pkOnly: bool): (r: seq<nat>)
    ensures |r| <= |names|
    ensures forall p :: 0 <= p < |r| ==> r[p] < |cols|
  {
    if |names| == 0 then []
    else
      var last := IndexOf(cols, names[|names| - 1]);
      Resolve(cols, names[..|names| - 1], pkOnly) +
      (if last.Some? && (!pkOnly || cols[last.value].pk) then [last.value] else [])
  }

  /** When every name resolves, the positions are the names' own columns, one per name. */
  lemma {:induction false} ResolveComplete(cols: Schema, names: seq<string>)
    requires |Resolve(cols, names, false)| == |names|
    ensures forall q :: 0 <= q < |names| ==>
      IndexOf(cols, names[q]).Some? && Resolve(cols, names, false)[q] == IndexOf(cols, names[q]).value
    decreases |names|
  {
    if |names| > 0 {
      var init := names[..|names| - 1];
      ResolveComplete(cols, init);
      assert forall q :: 0 <= q < |init| ==> init[q] == names[q];
    }
  }

  /** Without a resolvable name, no column is resolved. */
  lemma {:induction false} ResolveShort(cols: Schema, names: seq<string>, q: nat)
    requires q < |names| && IndexOf(cols, names[q]).None?
    ensures |Resolve(cols, names, false)| < |names|
    decreases |names|
  {
    var init := names[..|names| - 1];
    if q < |names| - 1 {
      assert init[q] == names[q];
      ResolveShort(cols, init, q);
    }
  }

  /** Some non-matching row holds, in the `q`-th primary-key position, the `q`-th proposed value. */
  predicate RowClash(row: Row, pks: seq<nat>, values: seq<Value>)
  {
    exists q :: 0 <= q < |pks| && q < |values| && pks[q] < |row| && PyEq(row[pks[q]], values[q])
  }

  predicate PkClash(data: seq<Row>, ci: nat, cv: Value, pks: seq<nat>, values: seq<Value>)
  {
    exists k :: 0 <= k < |data| && !Matches(data[k], ci, cv) && RowClash(data[k], pks, values)
  }

  /** `column_names.index(n)`: the first position of `n`. */
  function FirstPos(names: seq<string>, n: string): (p: nat)
    requires n in names
    ensures p < |names| && names[p] == n
    ensures forall q :: 0 <= q < p ==> names[q] != n
  {
    if names[0] == n then 0 else 1 + FirstPos(names[1..], n)
  }

  /** Some named column gets an unacceptable value (the value at the name's first position). */
  predicate Mismatch(cols: Schema, names: seq<string>, values: seq<Value>)
    requires |values| == |names|
  {
    exists q :: 0 <= q < |names| && BadCell(cols, names, values, q)
  }

  /** Name `q` resolves and its value (taken at the name's first position) is unacceptable. */
  predicate BadCell(cols: Schema, names: seq<string>, values: seq<Value>, q: nat)
    requires q < |names| == |values|
  {
    IndexOf(cols, names[q]).Some? &&
      !CellOk(cols[IndexOf(cols, names[q]).value], values[FirstPos(names, names[q])])
  }

  /** The writes into one row from write `q` on: `row[idxs[q]] = vals[q]`, in order. */
  function ApplyFrom(row: Row, idxs: seq<nat>, vals: seq<Value>, q: nat): (r: Row)
    requires forall p :: 0 <= p < |idxs| ==> idxs[p] < |row|
    requires |vals| >= |idxs|
    ensures |r| == |row|
    decreases |idxs| - q
  {
    if q >= |idxs| then row else ApplyFrom(row[idxs[q] := vals[q]], idxs, vals, q + 1)
  }

  /** Every row matching the condition gets the writes; the others stay. */
  function ApplyAll(data: seq<Row>, ci: nat, cv: Value, idxs: seq<nat>, vals: seq<Value>, width: nat): (r: seq<Row>)
    requires forall rw :: rw in data ==> |rw| == width
    requires forall p :: 0 <= p < |idxs| ==> idxs[p] < width
    requires |vals| >= |idxs|
    ensures |r| == |data|
  {
    seq(|data|, k requires 0 <= k < |data| =>
      if Matches(data[k], ci, cv) then ApplyFrom(data[k], idxs, vals, 0) else data[k])
  }

  /** Cells written, pre-images of the matched rows, and the rows afterwards. */
  datatype Updated = Updated(count: nat, prev: seq<Row>, rows: seq<Row>)

  /** The checks of `update_row`, in the source's order; the first one that fails. */
  function UpdateCheck(cols: Schema, data: seq<Row>, names: seq<string>, values: seq<Value>, cn: string, cv: Value): (r: Option<Error>)
    ensures r.None? ==> |names| == |values| && IndexOf(cols, cn).Some? && |Resolve(cols, names, false)| == |names|
  {
    if |names| != |values| then Some(NamesValuesMismatch)
    else if |names| > |cols| - CountTrue(AutoFlags(cols)) + CountAutoNamed(cols, names) then Some(TooManyColumns)
    else
      match IndexOf(cols, cn)
      case None => Some(UnknownConditionalColumn)
      case Some(ci) =>
        var pks := Resolve(cols, names, true);
        if |pks| >= 1 && |Matching(data, ci, cv)| > 1 then Some(PrimaryKeyCollisionRisk)
        else if PkClash(data, ci, cv, pks, values) then Some(DuplicatePrimaryKey)
        else if |Resolve(cols, names, false)| != |names| then Some(UnknownColumn)
        else if Mismatch(cols, names, values) then Some(UpdateTypeMismatch)
        else None
  }

  /** The writes of `update_row` once every check has passed. */
  function UpdateApply(cols: Schema, data: seq<Row>, names: seq<string>, values: seq<Value>, ci: nat, cv: Value): (u: Updated)
    requires Fits(cols, data)
    requires |values| == |names| && |Resolve(cols, names, false)| == |names|
    ensures Fits(cols, u.rows) && Fits(cols, u.prev)
  {
    var idxs := Resolve(cols, names, false);
    var matched := Matching(data, ci, cv);
    ApplyAllFits(cols, data, ci, cv, idxs, values);
    MatchingFits(cols, data, ci, cv);
    var count: nat := (ProductNat(|matched|, |names|); |matched| * |names|);
    Updated(count, matched, ApplyAll(data, ci, cv, idxs, values, |cols|))
  }

  lemma ProductNat(a: nat, b: nat)
    ensures a * b >= 0
  {
  }

  lemma MatchingFits(cols: Schema, data: seq<Row>, ci: nat, cv: Value)
    requires Fits(cols, data)
    ensures Fits(cols, Matching(data, ci, cv))
  {
    SelectWithin(data, ci, cv, true);
  }

  /** `update_row`: every check first; only then the writes. */
  function UpdateSpec(cols: Schema, data: seq<Row>, names: seq<string>, values: seq<Value>, cn: string, cv: Value): (r: Result<Updated>)
    requires Fits(cols, data)
    ensures r.Ok? ==> Fits(cols, r.value.rows) && Fits(cols, r.value.prev)
  {
    match UpdateCheck(cols, data, names, values, cn, cv)
    case Some(e) => Err(e)
    case None => Ok(UpdateApply(cols, data, names, values, IndexOf(cols, cn).value, cv))
  }

  /** The writes leave a cell alone when no later write targets it. */
  lemma {:induction false} ApplyUntouched(row: Row, idxs: seq<nat>, vals: seq<Value>, q: nat, j: nat)
    requires forall p :: 0 <= p < |idxs| ==> idxs[p] < |row|
    requires |vals| >= |idxs| && j < |row|
    requires forall p :: q <= p < |idxs| ==> idxs[p] != j
    ensures ApplyFrom(row, idxs, vals, q)[j] == row[j]
    decreases |idxs| - q
  {
    if q < |idxs| {
      ApplyUntouched(row[idxs[q] := vals[q]], idxs, vals, q + 1, j);
    }
  }

  /** The last write to a cell decides its value. */
  lemma {:induction false} ApplyLastWrite(row: Row, idxs: seq<nat>, vals: seq<Value>, q: nat, p: nat)
    requires forall p :: 0 <= p < |idxs| ==> idxs[p] < |row|
    requires |vals| >= |idxs|
    requires q <= p < |idxs|
    requires forall p' :: p < p' < |idxs| ==> idxs[p'] != idxs[p]
    ensures ApplyFrom(row, idxs, vals, q)[idxs[p]] == vals[p]
    decreases |idxs| - q
  {
    if q < p {
      ApplyLastWrite(row[idxs[q] := vals[q]], idxs, vals, q + 1, p);
    } else {
      ApplyUntouched(row[idxs[q] := vals[q]], idxs, vals, q + 1, idxs[p]);
    }
  }

  /**
   * `update_row` is rejected, before any row is touched, exactly when: the
   * name and value counts differ; more names are given than the
   * non-auto-increment columns plus the auto-increment columns named; the
   * conditional column is unknown; a primary key is named while more than
   * one row matches; a non-matching row holds a proposed key value; a name
   * is unknown; or a value is `None` for a non-nullable column or of the
   * wrong type.
   */
  lemma UpdateRejects(cols: Schema, data: seq<Row>, names: seq<string>, values: seq<Value>, cn: string, cv: Value)
    requires Fits(cols, data)
    ensures UpdateSpec(cols, data, names, values, cn, cv).Err? <==>
      || |names| != |values|
      || |names| > |cols| - CountTrue(AutoFlags(cols)) + CountAutoNamed(cols, names)
      || IndexOf(cols, cn).None?
      || (|Resolve(cols, names, true)| >= 1 && |Matching(data, IndexOf(cols, cn).value, cv)| > 1)
      || PkClash(data, IndexOf(cols, cn).value, cv, Resolve(cols, names, true), values)
      || !AllResolve(cols, names)
      || Mismatch(cols, names, values)
  {
    ResolveFullIff(cols, names);
    assert UpdateSpec(cols, data, names, values, cn, cv).Err? <==> UpdateCheck(cols, data, names, values, cn, cv).Some?;
  }

  /** Every name is a column of the table. */
  predicate AllResolve(cols: Schema, names: seq<string>)
  {
    forall q :: 0 <= q < |names| ==> IndexOf(cols, names[q]).Some?
  }

  lemma ResolveFullIff(cols: Schema, names: seq<string>)
    ensures |Resolve(cols, names, false)| == |names| <==> AllResolve(cols, names)
  {
    if |Resolve(cols, names, false)| == |names| {
      ResolveComplete(cols, names);
    }
    if !AllResolve(cols, names) {
      var q :| 0 <= q < |names| && IndexOf(cols, names[q]).None?;
      ResolveShort(cols, names, q);
    }
  }

  /**
   * A successful `update_row` returns (matched rows × named columns,
   * copies of the matched rows taken before the change); it changes only
   * the matching rows and, in them, only the named columns, each to the
   * value given at its last mention.
   */
  lemma UpdateEffect(cols: Schema, data: seq<Row>, names: seq<string>, values: seq<Value>, cn: string, cv: Value)
    requires Fits(cols, data) && DistinctNames(cols)
    requires UpdateSpec(cols, data, names, values, cn, cv).Ok?
    ensures IndexOf(cols, cn).Some? && AllResolve(cols, names) && |values| == |names|
    ensures var u := UpdateSpec(cols, data, names, values, cn, cv).value;
      var ci := IndexOf(cols, cn).value;
      && u.count == |Matching(data, ci, cv)| * |names|
      && u.prev == Matching(data, ci, cv)
      && |u.rows| == |data| && (forall k :: 0 <= k < |data| ==> |u.rows[k]| == |cols|)
      && (forall k :: 0 <= k < |data| && !Matches(data[k], ci, cv) ==> u.rows[k] == data[k])
      && (forall k, j :: 0 <= k < |data| && 0 <= j < |cols| && cols[j].name !in names ==> u.rows[k][j] == data[k][j])
      && (forall k, q :: (0 <= k < |data| && Matches(data[k], ci, cv) && 0 <= q < |names| &&
            (forall q' :: q < q' < |names| ==> names[q'] != names[q])) ==>
            u.rows[k][IndexOf(cols, names[q]).value] == values[q])
  {
    var ci := IndexOf(cols, cn).value;
    UpdateOkIsApply(cols, data, names, values, cn, cv);
    ResolveFullIff(cols, names);
    ApplyAllFits(cols, data, ci, cv, Resolve(cols, names, false), values);
    ApplyAllUnnamed(cols, data, names, values, ci, cv);
    ApplyAllLastWrite(cols, data, names, values, ci, cv);
  }

  lemma UpdateOkIsApply(cols: Schema, data: seq<Row>, names: seq<string>, values: seq<Value>, cn: string, cv: Value)
    requires Fits(cols, data)
    requires UpdateSpec(cols, data, names, values, cn, cv).Ok?
    ensures |values| == |names| && |Resolve(cols, names, false)| == |names| && IndexOf(cols, cn).Some?
    ensures UpdateSpec(cols, data, names, values, cn, cv).value == UpdateApply(cols, data, names, values, IndexOf(cols, cn).value, cv)
  {
  }

  lemma ApplyAllFits(cols: Schema, data: seq<Row>, ci: nat, cv: Value, idxs: seq<nat>, vals: seq<Value>)
    requires Fits(cols, data)
    requires forall p :: 0 <= p < |idxs| ==> idxs[p] < |cols|
    requires |vals| >= |idxs|
    ensures Fits(cols, ApplyAll(data, ci, cv, idxs, vals, |cols|))
  {
    var rows := ApplyAll(data, ci, cv, idxs, vals, |cols|);
    forall r | r in rows ensures |r| == |cols| {
      var k :| 0 <= k < |rows| && rows[k] == r;
      assert data[k] in data;
    }
  }

  lemma ApplyAllUnnamed(cols: Schema, data: seq<Row>, names: seq<string>, values: seq<Value>, ci: nat, cv: Value)
    requires Fits(cols, data)
    requires |values| == |names| && |Resolve(cols, names, false)| == |names|
    ensures var rows := ApplyAll(data, ci, cv, Resolve(cols, names, false), values, |cols|);
      forall k, j :: 0 <= k < |data| && 0 <= j < |cols| && cols[j].name !in names ==> rows[k][j] == data[k][j]
  {
    var idxs := Resolve(cols, names, false);
    var rows := ApplyAll(data, ci, cv, idxs, values, |cols|);
    ResolveComplete(cols, names);
    forall k, j | 0 <= k < |data| && 0 <= j < |cols| && cols[j].name !in names
      ensures rows[k][j] == data[k][j]
    {
      assert data[k] in data;
      if Matches(data[k], ci, cv) {
        forall p | 0 <= p < |idxs| ensures idxs[p] != j {
          assert cols[idxs[p]].name == names[p];
        }
        ApplyUntouched(data[k], idxs, values, 0, j);
      }
    }
  }

  lemma ApplyAllLastWrite(cols: Schema, data: seq<Row>, names: seq<string>, values: seq<Value>, ci: nat, cv: Value)
    requires Fits(cols, data) && DistinctNames(cols)
    requires |values| == |names| && |Resolve(cols, names, false)| == |names|
    ensures forall q :: 0 <= q < |names| ==> IndexOf(cols, names[q]).Some?
    ensures var rows := ApplyAll(data, ci, cv, Resolve(cols, names, false), values, |cols|);
      forall k, q :: (0 <= k < |data| && Matches(data[k], ci, cv) && 0 <= q < |names| &&
        (forall q' :: q < q' < |names| ==> names[q'] != names[q])) ==>
        rows[k][IndexOf(cols, names[q]).value] == values[q]
  {
    var idxs := Resolve(cols, names, false);
    var rows := ApplyAll(data, ci, cv, idxs, values, |cols|);
    ResolveComplete(cols, names);
    forall k, q | 0 <= k < |data| && Matches(data[k], ci, cv) && 0 <= q < |names| &&
        (forall q' :: q < q' < |names| ==> names[q'] != names[q])
      ensures rows[k][IndexOf(cols, names[q]).value] == values[q]
    {
      assert data[k] in data;
      forall p' | q < p' < |idxs| ensures idxs[p'] != idxs[q] {
        assert cols[idxs[p']].name == names[p'];
      }
      ApplyLastWrite(data[k], idxs, values, 0, q);
    }
  }

  /** No matching row: nothing is written and the result is `(0, [])`. */
  lemma UpdateNoMatch(cols: Schema, data: seq<Row>, names: seq<string>, values: seq<Value>, cn: string, cv: Value)
    requires Fits(cols, data)
    requires UpdateSpec(cols, data, names, values, cn, cv).Ok?
    requires |Matching(data, IndexOf(cols, cn).value, cv)| == 0
    ensures UpdateSpec(cols, data, names, values, cn, cv).value == Updated(0, [], data)
  {
    var ci := IndexOf(cols, cn).value;
    SelectEmptyIff(data, ci, cv, true);
    var u := UpdateSpec(cols, data, names, values, cn, cv).value;
    assert u.rows == data;
  }

  /**
   * The key-clash loop compares `row[pk_indices[idx][0]]` with
   * `column_values[idx]`, `idx` counting primary keys, not names. Naming
   * a plain column before the key column therefore compares the key with
   * the plain column's value, and an update can give a row the primary key
   * another row already holds.
   */
  lemma UpdateCanDuplicateKey()
    ensures
      && KeysUnique(DupCols, DupData)
      && UpdateSpec(DupCols, DupData, ["label", "id"], [VStr("c"), VInt(1)], "id", VInt(0)) ==
         Ok(Updated(2, [[VStr("a"), VInt(0)]], DupAfter))
      && !KeysUnique(DupCols, DupAfter)
  {
    DupChecksPass();
    DupWrites();
    assert PyEq(DupAfter[0][1], DupAfter[1][1]);
  }

  /** The two-column table of the example: a label and an integer key; it holds keys 0 and 1. */
  const DupCols: Schema := [ColDef("label", TStr, false, None, false, false, false),
                            ColDef("id", TInt, true, None, false, false, false)]
  const DupData: seq<Row> := [[VStr("a"), VInt(0)], [VStr("b"), VInt(1)]]
  const DupAfter: seq<Row> := [[VStr("c"), VInt(1)], [VStr("b"), VInt(1)]]

  lemma DupResolve()
    ensures IndexOf(DupCols, "id") == Some(1) && IndexOf(DupCols, "label") == Some(0)
    ensures Resolve(DupCols, ["label", "id"], false) == [0, 1]
    ensures Resolve(DupCols, ["label", "id"], true) == [1]
  {
    assert IndexOf(DupCols, "id") == Some(1);
    assert IndexOf(DupCols, "label") == Some(0);
    assert ["label", "id"][..1] == ["label"];
  }

  lemma DupMatching()
    ensures Matching(DupData, 1, VInt(0)) == [[VStr("a"), VInt(0)]]
  {
    assert DupData[..1] == [[VStr("a"), VInt(0)]];
  }

  lemma DupChecksPass()
    ensures UpdateCheck(DupCols, DupData, ["label", "id"], [VStr("c"), VInt(1)], "id", VInt(0)).None?
  {
    var names := ["label", "id"];
    var values := [VStr("c"), VInt(1)];
    DupResolve();
    DupMatching();
    assert !RowClash(DupData[1], [1], values);
    assert !PkClash(DupData, 1, VInt(0), [1], values);
    assert CountAutoNamed(DupCols, names) == 0;
    assert FirstPos(names, "label") == 0;
    assert FirstPos(names, "id") == 1;
    assert !Mismatch(DupCols, names, values);
  }

  lemma DupWrites()
    ensures Fits(DupCols, DupData)
    ensures UpdateApply(DupCols, DupData, ["label", "id"], [VStr("c"), VInt(1)], 1, VInt(0)) ==
      Updated(2, [[VStr("a"), VInt(0)]], DupAfter)
  {
    DupResolve();
    DupMatching();
    var values := [VStr("c"), VInt(1)];
    assert ApplyFrom(DupData[0], [0, 1], values, 0) == DupAfter[0];
    var rows := ApplyAll(DupData, 1, VInt(0), [0, 1], values, 2);
    assert rows[0] == DupAfter[0];
    assert rows[1] == DupAfter[1];
  }

  // ---------------------------------------------------------------------
  // Delete
  // ---------------------------------------------------------------------

  /** `delete_row`: the column must exist, be the primary key unless the call is a cascade, and the value must have its type. */
  function DeleteSpec(cols: Schema, data: seq<Row>, cn: string, cv: Value, isFk: bool): Result<Scan>
  {
    match IndexOf(cols, cn)
    case None => Err(UnknownColumn)
    case Some(i) =>
      if !isFk && !cols[i].pk then Err(NotPrimaryKey)
      else if !HasTag(cv, cols[i].tag) then Err(DeleteTypeMismatch)
      else Ok(DeleteMatching(data, i, cv))
  }

  /** A successful delete leaves rows as wide as the schema. */
  lemma DeleteOkFits(cols: Schema, data: seq<Row>, cn: string, cv: Value, isFk: bool)
    requires Fits(cols, data)
    ensures DeleteSpec(cols, data, cn, cv, isFk).Ok? ==> Fits(cols, DeleteSpec(cols, data, cn, cv, isFk).value.rows)
  {
    DeleteEffect(cols, data, cn, cv, isFk);
  }

  /**
   * `delete_row` rejects an unknown column, a non-key column unless called
   * for a cascade, and a value of the wrong type (so `None` always). It
   * removes as many rows as it returns, only matching ones (the others
   * survive in order), at least one when any matches, and exactly the
   * matching row when at most one does.
   */
  lemma DeleteEffect(cols: Schema, data: seq<Row>, cn: string, cv: Value, isFk: bool)
    requires Fits(cols, data)
    ensures DeleteSpec(cols, data, cn, cv, isFk).Err? <==>
      || IndexOf(cols, cn).None?
      || (!isFk && !cols[IndexOf(cols, cn).value].pk)
      || !HasTag(cv, cols[IndexOf(cols, cn).value].tag)
    ensures DeleteSpec(cols, data, cn, cv, isFk).Ok? ==>
      var r := DeleteSpec(cols, data, cn, cv, isFk).value;
      var i := IndexOf(cols, cn).value;
      && Fits(cols, r.rows)
      && |r.rows| == |data| - r.removed
      && |Matching(r.rows, i, cv)| == |Matching(data, i, cv)| - r.removed
      && (|Matching(data, i, cv)| > 0 ==> r.removed > 0)
      && Select(r.rows, i, cv, false) == Select(data, i, cv, false)
      && (|Matching(data, i, cv)| <= 1 ==> r.rows == Select(data, i, cv, false) && r.removed == |Matching(data, i, cv)|)
  {
    if DeleteSpec(cols, data, cn, cv, isFk).Ok? {
      var i := IndexOf(cols, cn).value;
      DeleteMatchingCounts(data, i, cv);
      ScanKeepsRows(data, i, cv, 0, 0);
      ScanKeepsNonMatching(data, i, cv, 0, 0);
      if |Matching(data, i, cv)| <= 1 {
        DeleteMatchingSingle(data, i, cv);
      }
    }
  }

  /** Deleting rows keeps primary-key values unique, as removing rows from a list can. */
  lemma {:induction false} ScanKeepsKeysUnique(cols: Schema, data: seq<Row>, c: nat, v: Value, k: nat, count: nat)
    requires KeysUnique(cols, data)
    ensures KeysUnique(cols, DeleteScan(data, c, v, k, count).rows)
    decreases |data| - k
  {
    if k < |data| {
      if Matches(data[k], c, v) {
        RowEqReflexive(data[k]);
        var rest := Remove(data, IndexOfRow(data, data[k]));
        RemoveKeepsKeysUnique(cols, data, IndexOfRow(data, data[k]));
        ScanKeepsKeysUnique(cols, rest, c, v, k + 1, count + 1);
      } else {
        ScanKeepsKeysUnique(cols, data, c, v, k + 1, count);
      }
    }
  }

  lemma RemoveKeepsKeysUnique(cols: Schema, data: seq<Row>, j: nat)
    requires j < |data| && KeysUnique(cols, data)
    ensures KeysUnique(cols, Remove(data, j))
  {
    var r := Remove(data, j);
    forall k, a, b | 0 <= k < |cols| && cols[k].pk && 0 <= a < b < |r| && k < |r[a]| && k < |r[b]|
      ensures !PyEq(r[a][k], r[b][k])
    {
      var a' := if a < j then a else a + 1;
      var b' := if b < j then b else b + 1;
      assert r[a] == data[a'] && r[b] == data[b'];
    }
  }

  // ---------------------------------------------------------------------
  // The table object
  // ---------------------------------------------------------------------

  /**
   * A table: its name, its validated columns, and its rows, which every
   * operation reads and rewrites in place.
   */
  class Table {
    const name: string
    const columns: Schema
    var data: seq<Row>

    /** The rows have the table's width, the column names are distinct, and there is one primary key at most. */
    ghost predicate Valid()
      reads this
    {
      Fits(columns, data) && DistinctNames(columns) && CountPk(columns) <= 1
    }

    /** A table over columns that passed the construction checks, holding the rows stored for it. */
    constructor (name: string, columns: Schema, data: seq<Row>)
      requires Fits(columns, data) && DistinctNames(columns) && CountPk(columns) <= 1
      ensures Valid()
      ensures this.name == name && this.columns == columns && this.data == data
    {
      this.name := name;
      this.columns := columns;
      this.data := data;
    }

    /** `v in [row[k] for row in self.data]`. */
    method ColumnContains(k: nat, v: Value) returns (found: bool)
      ensures found == ColumnHas(data, k, v)
    {
      var i := 0;
      while i < |data|
        invariant i <= |data|
        invariant forall i' :: 0 <= i' < i ==> !(k < |data[i']| && PyEq(data[i'][k], v))
      {
        if k < |data[i]| && PyEq(data[i][k], v) {
          assert data[i] in data;
          return true;
        }
        i := i + 1;
      }
      return false;
    }

    /**
     * `prep_insert_row`: the synthesis loop when values are missing, then the
     * length checks, the primary-key loop and the null and type loop.
     */
    method PrepInsertRow(row: Row) returns (r: Result<Row>)
      requires Valid()
      ensures r == PrepInsert(columns, data, row)
    {
      var s := row;
      if |s| < |columns| {
        var flags := AutoFlags(columns);
        var last := LastRow(data);
        var k := 0;
        while k < |columns|
          invariant k <= |columns|
          invariant SynthFrom(flags, last, s, k) == Synthesize(flags, last, row)
        {
          if columns[k].autoInc {
            var v := AutoValue(last, k);
            if v.None? {
              return Err(AutoIncrementNotNumeric);
            }
            s := ListInsert(s, k, v.value);
          }
          k := k + 1;
        }
        if |s| != |columns| {
          return Err(ValueCountMismatch);
        }
      } else if |s| > |columns| {
        return Err(TooManyValues);
      }
      var k := 0;
      while k < |columns|
        invariant k <= |columns|
        invariant PkCheckFrom(columns, data, s, k) == PkCheckFrom(columns, data, s, 0)
      {
        if columns[k].pk {
          var dup := ColumnContains(k, s[k]);
          if dup {
            return Err(DuplicatePrimaryKey);
          }
        }
        k := k + 1;
      }
      k := 0;
      while k < |columns|
        invariant k <= |columns|
        invariant TypeCheckFrom(columns, s, k) == TypeCheckFrom(columns, s, 0)
      {
        if s[k].VNull? {
          if !columns[k].nullable {
            return Err(NullViolation);
          }
        } else if !HasTag(s[k], columns[k].tag) {
          return Err(TypeMismatch);
        }
        k := k + 1;
      }
      return Ok(s);
    }

    /**
     * `insert_row`: the prepared row is appended; a rejected row leaves the
     * table as it was (the source prints the error instead of raising it).
     */
    method InsertRow(row: Row) returns (r: Result<Row>)
      requires Valid()
      modifies this
      ensures Valid()
      ensures r == PrepInsert(columns, old(data), row)
      ensures data == if r.Ok? then old(data) + [r.value] else old(data)
    {
      r := PrepInsertRow(row);
      if r.Ok? {
        PrepInsertOk(columns, data, row);
        data := data + [r.value];
      }
    }
  
    /** The loop over `column_names` that collects `row_indices` and `pk_indices`. */
    method ResolveIndices(names: seq<string>) returns (rowIdx: seq<nat>, pkIdx: seq<nat>)
      ensures rowIdx == Resolve(columns, names, false)
      ensures pkIdx == Resolve(columns, names, true)
    {
      rowIdx, pkIdx := [], [];
      var q := 0;
      while q < |names|
        invariant q <= |names|
        invariant rowIdx == Resolve(columns, names[..q], false)
        invariant pkIdx == Resolve(columns, names[..q], true)
      {
        assert names[..q + 1][..q] == names[..q];
        var j := IndexOf(columns, names[q]);
        if j.Some? && columns[j.value].pk {
          pkIdx := pkIdx + [j.value];
        }
        if j.Some? {
          rowIdx := rowIdx + [j.value];
        }
        q := q + 1;
      }
      assert names[..q] == names;
    }

    /** The loop that looks, in every non-matching row, for a proposed key value. */
    method FindPkClash(ci: nat, cv: Value, pks: seq<nat>, values: seq<Value>) returns (clash: bool)
      requires |pks| <= |values|
      ensures clash == PkClash(data, ci, cv, pks, values)
    {
      var k := 0;
      while k < |data|
        invariant k <= |data|
        invariant forall k' :: 0 <= k' < k ==> !(!Matches(data[k'], ci, cv) && RowClash(data[k'], pks, values))
      {
        if !Matches(data[k], ci, cv) {
          var q := 0;
          while q < |pks|
            invariant q <= |pks|
            invariant forall q' :: 0 <= q' < q ==> !(pks[q'] < |data[k]| && PyEq(data[k][pks[q']], values[q']))
          {
            if pks[q] < |data[k]| && PyEq(data[k][pks[q]], values[q]) {
              assert RowClash(data[k], pks, values);
              return true;
            }
            q := q + 1;
          }
        }
        k := k + 1;
      }
      return false;
    }

    /** The loop that collects the names whose value is `None` where not nullable, or of the wrong type. */
    method FindMismatch(names: seq<string>, values: seq<Value>) returns (bad: bool)
      requires |values| == |names| && AllResolve(columns, names)
      ensures bad == Mismatch(columns, names, values)
    {
      bad := false;
      var q := 0;
      while q < |names|
        invariant q <= |names|
        invariant bad <==> exists q' :: 0 <= q' < q && BadCell(columns, names, values, q')
      {
        var c := columns[IndexOf(columns, names[q]).value];
        var v := values[FirstPos(names, names[q])];
        assert BadCell(columns, names, values, q) <==> !CellOk(c, v);
        if v.VNull? {
          if !c.nullable {
            bad := true;
          }
        } else if !HasTag(v, c.tag) {
          bad := true;
        }
        q := q + 1;
      }
    }

    /** The inner write loop on one row: cell `idxs[q]` gets `values[q]`, one count per write. */
    static method WriteCells(row: Row, idxs: seq<nat>, values: seq<Value>) returns (written: Row, n: nat)
      requires forall p :: 0 <= p < |idxs| ==> idxs[p] < |row|
      requires |values| >= |idxs|
      ensures written == ApplyFrom(row, idxs, values, 0)
      ensures n == |idxs|
    {
      written, n := row, 0;
      while n < |idxs|
        invariant n <= |idxs| && |written| == |row|
        invariant ApplyFrom(written, idxs, values, n) == ApplyFrom(row, idxs, values, 0)
      {
        written := written[idxs[n] := values[n]];
        n := n + 1;
      }
    }

    /** The write loop over the rows: in every matching row, cell `idxs[q]` gets `values[q]`, counting each write. */
    static method WriteRows(rows: seq<Row>, width: nat, ci: nat, cv: Value, idxs: seq<nat>, values: seq<Value>)
      returns (written: seq<Row>, counter: nat)
      requires forall rw :: rw in rows ==> |rw| == width
      requires forall p :: 0 <= p < |idxs| ==> idxs[p] < width
      requires |values| >= |idxs|
      ensures written == ApplyAll(rows, ci, cv, idxs, values, width)
      ensures counter == |Matching(rows, ci, cv)| * |idxs|
    {
      ghost var after := ApplyAll(rows, ci, cv, idxs, values, width);
      ghost var m := 0;
      written, counter := rows, 0;
      var k := 0;
      while k < |rows|
        invariant |written| == |rows| && k <= |rows|
        invariant forall k' :: 0 <= k' < k ==> written[k'] == after[k']
        invariant forall k' :: k <= k' < |rows| ==> written[k'] == rows[k']
        invariant m == |Matching(rows[..k], ci, cv)| && counter == m * |idxs|
      {
        assert rows[k] in rows;
        MatchingStep(rows, k, ci, cv);
        if Matches(written[k], ci, cv) {
          var row, n := WriteCells(written[k], idxs, values);
          written := written[k := row];
          MulSucc(m, n);
          counter := counter + n;
          m := m + 1;
        }
        k := k + 1;
      }
      assert rows[..k] == rows;
    }

    /** The write loop of `update_row`, in place on the table's rows. */
    method ApplyWrites(ci: nat, cv: Value, idxs: seq<nat>, values: seq<Value>) returns (counter: nat)
      requires Valid()
      requires forall p :: 0 <= p < |idxs| ==> idxs[p] < |columns|
      requires |values| >= |idxs|
      modifies this
      ensures Valid()
      ensures data == ApplyAll(old(data), ci, cv, idxs, values, |columns|)
      ensures counter == |Matching(old(data), ci, cv)| * |idxs|
    {
      ApplyAllFits(columns, data, ci, cv, idxs, values);
      data, counter := WriteRows(data, |columns|, ci, cv, idxs, values);
    }

    /**
     * `update_row`: every check in the source's order, then the writes;
     * the result is the number of cells written and the matched rows as
     * they were before.
     */
    method UpdateRow(names: seq<string>, values: seq<Value>, cn: string, cv: Value) returns (r: Result<(nat, seq<Row>)>)
      requires Valid()
      modifies this
      ensures Valid()
      ensures match UpdateSpec(columns, old(data), names, values, cn, cv)
        case Err(e) => r == Err(e) && data == old(data)
        case Ok(u) => r == Ok((u.count, u.prev)) && data == u.rows
    {
      if |names| != |values| {
        return Err(NamesValuesMismatch);
      }
      if |names| > |columns| - CountTrue(AutoFlags(columns)) + CountAutoNamed(columns, names) {
        return Err(TooManyColumns);
      }
      var rowIdx, pkIdx := ResolveIndices(names);
      var c := IndexOf(columns, cn);
      if c.None? {
        return Err(UnknownConditionalColumn);
      }
      var ci := c.value;
      var matching := Matching(data, ci, cv);
      if |pkIdx| >= 1 && |matching| > 1 {
        return Err(PrimaryKeyCollisionRisk);
      }
      var clash := FindPkClash(ci, cv, pkIdx, values);
      if clash {
        return Err(DuplicatePrimaryKey);
      }
      if |rowIdx| != |names| {
        return Err(UnknownColumn);
      }
      ResolveFullIff(columns, names);
      var bad := FindMismatch(names, values);
      if bad {
        return Err(UpdateTypeMismatch);
      }
      var counter := ApplyWrites(ci, cv, rowIdx, values);
      return Ok((counter, matching));
    }

    /**
     * `delete_row`: the column, key and type checks, then the loop that
     * removes matching rows from the list it is iterating over.
     */
    method DeleteRow(cn: string, cv: Value, isFk: bool) returns (r: Result<nat>)
      requires Valid()
      modifies this
      ensures Valid()
      ensures match DeleteSpec(columns, old(data), cn, cv, isFk)
        case Err(e) => r == Err(e) && data == old(data)
        case Ok(s) => r == Ok(s.removed) && data == s.rows
    {
      var c := IndexOf(columns, cn);
      if c.None? {
        return Err(UnknownColumn);
      }
      var i := c.value;
      if !isFk && !columns[i].pk {
        return Err(NotPrimaryKey);
      }
      if !HasTag(cv, columns[i].tag) {
        return Err(DeleteTypeMismatch);
      }
      ghost var before := data;
      var counter := 0;
      var k := 0;
      while k < |data|
        invariant DeleteScan(data, i, cv, k, counter) == DeleteMatching(before, i, cv)
        invariant forall rw :: rw in data ==> rw in before
        decreases |data| - k
      {
        if Matches(data[k], i, cv) {
          RowEqReflexive(data[k]);
          var j := IndexOfRow(data, data[k]);
          RemoveKeepsRows(data, j);
          data := Remove(data, j);
          counter := counter + 1;
        }
        k := k + 1;
      }
      assert Fits(columns, data) by {
        forall rw | rw in data ensures |rw| == |columns| {
          assert rw in before;
        }
      }
      return Ok(counter);
    }
  }

  lemma MulSucc(m: nat, n: nat)
    ensures (m + 1) * n == m * n + n
  {
  }

  /** Looking at one more row adds it to the matching rows when it matches. */
  lemma MatchingStep(data: seq<Row>, k: nat, c: nat, v: Value)
    requires k < |data|
    ensures |Matching(data[..k + 1], c, v)| == |Matching(data[..k], c, v)| + (if Matches(data[k], c, v) then 1 else 0)
  {
    assert data[..k + 1][..k] == data[..k];
  }
}
