/**
 * The earlier row store (`Table` in PyDB/table.py). Columns keep the
 * dictionary the caller wrote, with no defaults filled in: a column
 * without an `auto_inc` key counts as auto-increment, and a column
 * without a `PK` key makes every lookup of that key fail. Construction
 * checks foreign keys only; insert checks lengths and types but neither
 * nulls nor primary-key uniqueness; `update_row` validates and changes
 * nothing; `delete_row` uses the same remove-while-iterating loop as the
 * current store. The JSON file is modelled as a map from table names to
 * their stored columns and rows.
 */
module DraftTable {
  import opened Errors
  import opened Values
  import opened RowOps

  /** The `FK` dictionary; the draft reads only the parent table and column. */
  datatype DraftFk = DraftFk(table: string, column: string)

  /** One column as the caller wrote it, with `column_name` added; a missing key is `None`. */
  datatype RawCol = RawCol(name: string, tag: TypeTag, pk: Option<bool>, autoInc: Option<bool>, fk: Option<DraftFk>)

  /** A table's section of the JSON file. */
  datatype Stored = Stored(columns: seq<RawCol>, data: seq<Row>)

  /** Column names are distinct, as the keys of a dictionary are. */
  predicate DistinctRaw(cols: seq<RawCol>)
  {
    forall i, j :: 0 <= i < j < |cols| ==> cols[i].name != cols[j].name
  }

  /** Every row has one cell per column. */
  predicate Fits(cols: seq<RawCol>, data: seq<Row>)
  {
    forall r :: r in data ==> |r| == |cols|
  }

  /** `columns[name]`: the position of the column called `name`, if there is one. */
  function RawIndex(cols: seq<RawCol>, name: string): (r: Option<nat>)
    ensures r.Some? ==> r.value < |cols| && cols[r.value].name == name
    ensures r.Some? ==> forall k :: 0 <= k < r.value ==> cols[k].name != name
    ensures r.None? <==> forall k :: 0 <= k < |cols| ==> cols[k].name != name
  {
    if |cols| == 0 then None
    else if cols[0].name == name then Some(0)
    else match RawIndex(cols[1..], name)
      case None => None
      case Some(j) => Some(j + 1)
  }

  /** `[idx for idx, key in enumerate(columns) if key == name]`. */
  function Positions(cols: seq<RawCol>, name: string): (ps: seq<nat>)
    ensures forall p :: p in ps ==> p < |cols| && cols[p].name == name
    ensures forall k :: 0 <= k < |cols| && cols[k].name == name ==> k in ps
    ensures |ps| <= |cols|
  {
    if |cols| == 0 then []
    else
      var rest := Positions(cols[..|cols| - 1], name);
      rest + (if cols[|cols| - 1].name == name then [|cols| - 1] else [])
  }

  /** Under distinct names a name has at most one position, and it is the one `columns[name]` finds. */
  lemma PositionsDistinct(cols: seq<RawCol>, name: string)
    requires DistinctRaw(cols)
    ensures |Positions(cols, name)| <= 1
    ensures |Positions(cols, name)| == 1 <==> RawIndex(cols, name).Some?
    ensures RawIndex(cols, name).Some? ==> Positions(cols, name) == [RawIndex(cols, name).value]
  {
    var ps := Positions(cols, name);
    if |ps| > 1 {
      assert ps[0] in ps && ps[1] in ps;
      PositionsIncreasing(cols, name);
    }
    if RawIndex(cols, name).Some? {
      var i := RawIndex(cols, name).value;
      assert i in ps;
    }
  }

  lemma {:induction false} PositionsIncreasing(cols: seq<RawCol>, name: string)
    ensures forall i, j :: 0 <= i < j < |Positions(cols, name)| ==> Positions(cols, name)[i] < Positions(cols, name)[j]
    decreases |cols|
  {
    if |cols| > 0 {
      var init := cols[..|cols| - 1];
      PositionsIncreasing(init, name);
      var rest := Positions(init, name);
      var ps := Positions(cols, name);
      assert ps == rest + (if cols[|cols| - 1].name == name then [|cols| - 1] else []);
      forall i, j | 0 <= i < j < |ps| ensures ps[i] < ps[j] {
        if j >= |rest| {
          assert ps[i] == rest[i] && rest[i] in rest;
        }
      }
    }
  }

  // ---------------------------------------------------------------------
  // Construction
  // ---------------------------------------------------------------------

  /**
   * What is wrong with column `c`'s foreign key against the file `doc`:
   * an unknown parent table, a parent column missing (a `KeyError`), a
   * parent column of another type, a parent column without a `PK` key (a
   * `KeyError`), or a parent column that is not a primary key.
   */
  function ParentError(c: RawCol, doc: map<string, Stored>): Option<Error>
  {
    match c.fk
    case None => None
    case Some(fk) =>
      if fk.table !in doc then Some(UnknownParentTable)
      else match RawIndex(doc[fk.table].columns, fk.column)
        case None => Some(MissingKey)
        case Some(j) =>
          var parent := doc[fk.table].columns[j];
          if parent.tag != c.tag then Some(ForeignKeyTypeMismatch)
          else if parent.pk.None? then Some(MissingKey)
          else if !parent.pk.value then Some(ParentNotPrimaryKey)
          else None
  }

  /** A foreign key is sound: its parent table is in the file and holds a primary-key column of that name and type. */
  predicate ParentSound(c: RawCol, doc: map<string, Stored>)
  {
    c.fk.Some? ==>
      && c.fk.value.table in doc
      && RawIndex(doc[c.fk.value.table].columns, c.fk.value.column).Some?
      && var parent := doc[c.fk.value.table].columns[RawIndex(doc[c.fk.value.table].columns, c.fk.value.column).value];
         parent.tag == c.tag && parent.pk == Some(true)
  }

  /** The loop over the columns that raises at the first broken foreign key. */
  function ParentCheckFrom(cols: seq<RawCol>, doc: map<string, Stored>, k: nat): Option<Error>
    decreases |cols| - k
  {
    if k >= |cols| then None
    else if ParentError(cols[k], doc).Some? then ParentError(cols[k], doc)
    else ParentCheckFrom(cols, doc, k + 1)
  }

  lemma {:induction false} ParentCheckFromIff(cols: seq<RawCol>, doc: map<string, Stored>, k: nat)
    ensures ParentCheckFrom(cols, doc, k).None? <==> forall j :: k <= j < |cols| ==> ParentSound(cols[j], doc)
    decreases |cols| - k
  {
    if k < |cols| {
      ParentCheckFromIff(cols, doc, k + 1);
    }
  }

  /**
   * `build_table`: every foreign key is checked in column order; then the
   * table takes the rows the file holds for its name, or none when the
   * name is new. There is no check on the number of primary keys.
   */
  function Build(name: string, cols: seq<RawCol>, doc: map<string, Stored>): (r: Result<seq<Row>>)
    ensures r.Ok? <==>
      (forall k :: 0 <= k < |cols| ==> ParentSound(cols[k], doc)) && (name in doc ==> Fits(cols, doc[name].data))
    ensures r.Ok? ==> Fits(cols, r.value)
    ensures r.Ok? ==> r.value == if name in doc then doc[name].data else []
  {
    ParentCheckFromIff(cols, doc, 0);
    match ParentCheckFrom(cols, doc, 0)
    case Some(e) => Err(e)
    case None =>
      if name !in doc then Ok([])
      else if Fits(cols, doc[name].data) then Ok(doc[name].data)
      else Err(StoredRowsDoNotFit)
  }

  /** The file after construction: a new name gets a section with the columns and no rows; a known one is left alone. */
  function Persist(name: string, cols: seq<RawCol>, doc: map<string, Stored>): (d: map<string, Stored>)
    ensures name in d && forall n :: n in doc ==> n in d && d[n] == doc[n]
    ensures forall n :: n in d ==> n in doc || n == name
    ensures name !in doc ==> d[name] == Stored(cols, [])
  {
    if name in doc then doc else doc[name := Stored(cols, [])]
  }

  /** The first broken foreign key decides the error, whatever the later columns hold. */
  lemma BuildReportsFirst(name: string, cols: seq<RawCol>, doc: map<string, Stored>, k: nat)
    requires k < |cols| && ParentError(cols[k], doc).Some?
    requires forall j :: 0 <= j < k ==> ParentError(cols[j], doc).None?
    ensures Build(name, cols, doc) == Err(ParentError(cols[k], doc).value)
  {
    ParentCheckFirst(cols, doc, 0, k);
  }

  lemma {:induction false} ParentCheckFirst(cols: seq<RawCol>, doc: map<string, Stored>, i: nat, k: nat)
    requires i <= k < |cols| && ParentError(cols[k], doc).Some?
    requires forall j :: i <= j < k ==> ParentError(cols[j], doc).None?
    ensures ParentCheckFrom(cols, doc, i) == ParentError(cols[k], doc)
    decreases k - i
  {
    if i < k {
      ParentCheckFirst(cols, doc, i + 1, k);
    }
  }

  /** Two primary-key columns are accepted: the draft never counts them. */
  lemma BuildAcceptsTwoKeys()
    ensures Build("t", [RawCol("a", TInt, Some(true), None, None), RawCol("b", TInt, Some(true), None, None)], map[]) == Ok([])
  {
  }

  // ---------------------------------------------------------------------
  // Insert
  // ---------------------------------------------------------------------

  /** `metadata.get('auto_inc', True)` for every column, in column order. */
  function AutoFlags(cols: seq<RawCol>): (f: seq<bool>)
    ensures |f| == |cols| && forall k :: 0 <= k < |cols| ==> f[k] == (cols[k].autoInc != Some(false))
  {
    seq(|cols|, k requires 0 <= k < |cols| => cols[k].autoInc != Some(false))
  }

  /** `isinstance(metadata['type'], type(row_data[index]))` for every column. */
  predicate Typed(cols: seq<RawCol>, s: Row)
    requires |s| == |cols|
  {
    forall k :: 0 <= k < |cols| ==> HasTag(s[k], cols[k].tag)
  }

  /**
   * `insert_row`: synthesis when fewer values than columns are given, the
   * length checks, and the type loop; no null and no primary-key check.
   */
  function Insert(cols: seq<RawCol>, data: seq<Row>, row: Row): (r: Result<Row>)
    ensures r.Ok? ==> |r.value| == |cols| && Typed(cols, r.value)
  {
    if |row| < |cols| then
      match Synthesize(AutoFlags(cols), LastRow(data), row)
      case Err(e) => Err(e)
      case Ok(s) =>
        if |s| != |cols| then Err(ValueCountMismatch)
        else if Typed(cols, s) then Ok(s) else Err(TypeMismatch)
    else if |row| > |cols| then Err(TooManyValues)
    else if Typed(cols, row) then Ok(row) else Err(TypeMismatch)
  }

  /**
   * A successful insert hands back a full-length row whose every cell has
   * its column's type (so never `None`): the caller's row itself when all
   * values were given; otherwise the caller's values at the ordinary
   * columns in order and, at each auto-increment column, the last row's
   * value there plus one (0 in an empty table).
   */
  lemma InsertOk(cols: seq<RawCol>, data: seq<Row>, row: Row)
    requires Insert(cols, data, row).Ok?
    ensures var s := Insert(cols, data, row).value;
      && (forall k :: 0 <= k < |cols| ==> s[k] != VNull)
      && (|row| >= |cols| ==> s == row)
      && (|row| < |cols| ==>
           && |row| + CountTrue(AutoFlags(cols)) == |cols|
           && Kept(AutoFlags(cols), s) == row
           && forall j :: 0 <= j < |cols| && cols[j].autoInc != Some(false) ==> AutoValue(LastRow(data), j) == Some(s[j]))
  {
    var flags := AutoFlags(cols);
    if |row| < |cols| {
      assert flags[0..] == flags;
      SynthLength(flags, LastRow(data), row, 0);
      SynthesizeAligned(flags, LastRow(data), row);
    }
  }

  /**
   * The rejections of `insert_row`: more values than columns; too few
   * values even after synthesis; a full-length row with a cell of the
   * wrong type (`None` included).
   */
  lemma InsertRejects(cols: seq<RawCol>, data: seq<Row>, row: Row)
    ensures |row| > |cols| ==> Insert(cols, data, row) == Err(TooManyValues)
    ensures |row| < |cols| && |row| + CountTrue(AutoFlags(cols)) != |cols| ==> Insert(cols, data, row).Err?
    ensures |row| == |cols| ==> (Insert(cols, data, row).Ok? <==> Typed(cols, row))
  {
    var flags := AutoFlags(cols);
    if |row| < |cols| && Synthesize(flags, LastRow(data), row).Ok? {
      assert flags[0..] == flags;
      SynthLength(flags, LastRow(data), row, 0);
    }
  }

  /** A primary-key value already in the table is accepted again: the draft has no uniqueness check. */
  lemma InsertAcceptsDuplicateKey()
    ensures Insert([RawCol("id", TInt, Some(true), Some(false), None)], [[VInt(1)]], [VInt(1)]) == Ok([VInt(1)])
  {
  }

  // ---------------------------------------------------------------------
  // Update (a validation-only stub)
  // ---------------------------------------------------------------------

  /**
   * The checks of the draft `update_row`. `row_indices` gets one (possibly
   * empty) list per name, so its length always equals the number of names
   * and an unknown column name is never reported. Then: more names than
   * columns; the conditional column missing, without a `PK` key, or not a
   * primary key.
   */
  function UpdateCheck(cols: seq<RawCol>, names: seq<string>, cn: string): Option<Error>
  {
    if |names| > |cols| then Some(TooManyColumns)
    else match RawIndex(cols, cn)
      case None => Some(MissingKey)
      case Some(i) =>
        if cols[i].pk.None? then Some(MissingKey)
        else if !cols[i].pk.value then Some(ConditionalNotPrimaryKey)
        else None
  }

  /** The stub accepts exactly: at most as many names as columns, and a conditional column marked as primary key. */
  lemma UpdateCheckIff(cols: seq<RawCol>, names: seq<string>, cn: string)
    ensures UpdateCheck(cols, names, cn).None? <==>
      |names| <= |cols| && RawIndex(cols, cn).Some? && cols[RawIndex(cols, cn).value].pk == Some(true)
    ensures |names| > |cols| ==> UpdateCheck(cols, names, cn) == Some(TooManyColumns)
    ensures |names| <= |cols| && RawIndex(cols, cn).None? ==> UpdateCheck(cols, names, cn) == Some(MissingKey)
  {
  }

  /** Names of columns the table does not have pass the stub's checks. */
  lemma UpdateIgnoresUnknownNames()
    ensures UpdateCheck([RawCol("id", TInt, Some(true), None, None)], ["nope"], "id").None?
  {
  }

  // ---------------------------------------------------------------------
  // Delete
  // ---------------------------------------------------------------------

  /**
   * The draft `delete_row`: two columns of the name (which a dictionary
   * cannot hold); the column missing or without a `PK` key; a non-key
   * column; a value of another type (so `None` always). Then the
   * remove-while-iterating loop.
   */
  function DeleteSpec(cols: seq<RawCol>, data: seq<Row>, cn: string, cv: Value): Result<Scan>
  {
    if |Positions(cols, cn)| > 1 then Err(IdenticalColumnNames)
    else match RawIndex(cols, cn)
      case None => Err(MissingKey)
      case Some(i) =>
        if cols[i].pk.None? then Err(MissingKey)
        else if !cols[i].pk.value then Err(NotPrimaryKey)
        else if !HasTag(cv, cols[i].tag) then Err(DeleteTypeMismatch)
        else Ok(DeleteMatching(data, i, cv))
  }

  /**
   * Over distinct column names the delete is rejected exactly for a missing
   * column or key, a non-key column and a value of the wrong type; on
   * success it removes as many rows as it counts, only matching ones, at
   * least one when any matches, and exactly the matching row when at most
   * one does; every row left was in the table, and the non-matching rows all
   * survive, in order.
   */
  lemma DeleteEffect(cols: seq<RawCol>, data: seq<Row>, cn: string, cv: Value)
    requires DistinctRaw(cols) && Fits(cols, data)
    ensures DeleteSpec(cols, data, cn, cv).Err? <==>
      || RawIndex(cols, cn).None?
      || cols[RawIndex(cols, cn).value].pk != Some(true)
      || !HasTag(cv, cols[RawIndex(cols, cn).value].tag)
    ensures DeleteSpec(cols, data, cn, cv).Err? ==> DeleteSpec(cols, data, cn, cv).error != IdenticalColumnNames
    ensures DeleteSpec(cols, data, cn, cv).Ok? ==>
      var r := DeleteSpec(cols, data, cn, cv).value;
      var i := RawIndex(cols, cn).value;
      && Fits(cols, r.rows)
      && |r.rows| == |data| - r.removed
      && |Matching(r.rows, i, cv)| == |Matching(data, i, cv)| - r.removed
      && (|Matching(data, i, cv)| > 0 ==> r.removed > 0)
      && (|Matching(data, i, cv)| <= 1 ==> r.rows == Select(data, i, cv, false) && r.removed == |Matching(data, i, cv)|)
      && Select(r.rows, i, cv, false) == Select(data, i, cv, false)
      && (forall rw :: rw in r.rows ==> rw in data)
  {
    PositionsDistinct(cols, cn);
    if DeleteSpec(cols, data, cn, cv).Ok? {
      var i := RawIndex(cols, cn).value;
      assert DeleteSpec(cols, data, cn, cv).value == DeleteMatching(data, i, cv);
      DeleteLoopEffect(cols, data, i, cv);
    }
  }

  /** The remove-while-iterating loop on column `i`, as `DeleteEffect` states it on success. */
  lemma DeleteLoopEffect(cols: seq<RawCol>, data: seq<Row>, i: nat, cv: Value)
    requires Fits(cols, data)
    ensures var r := DeleteMatching(data, i, cv);
      && Fits(cols, r.rows)
      && |r.rows| == |data| - r.removed
      && |Matching(r.rows, i, cv)| == |Matching(data, i, cv)| - r.removed
      && (|Matching(data, i, cv)| > 0 ==> r.removed > 0)
      && (|Matching(data, i, cv)| <= 1 ==> r.rows == Select(data, i, cv, false) && r.removed == |Matching(data, i, cv)|)
      && Select(r.rows, i, cv, false) == Select(data, i, cv, false)
      && (forall rw :: rw in r.rows ==> rw in data)
  {
    DeleteMatchingCounts(data, i, cv);
    ScanKeepsRows(data, i, cv, 0, 0);
    ScanKeepsNonMatching(data, i, cv, 0, 0);
    if |Matching(data, i, cv)| <= 1 {
      DeleteMatchingSingle(data, i, cv);
    }
  }

  /** A table of the draft: its name, the caller's columns, and its rows, which insert and delete rewrite in place. */
  class Table {
    const name: string
    const columns: seq<RawCol>
    var data: seq<Row>

    /** The column names are distinct and every row has the table's width. */
    ghost predicate Valid()
      reads this
    {
      DistinctRaw(columns) && Fits(columns, data)
    }

    /** A table whose construction checks passed, holding the rows `Build` found for it. */
    constructor (name: string, columns: seq<RawCol>, data: seq<Row>)
      requires DistinctRaw(columns) && Fits(columns, data)
      ensures Valid()
      ensures this.name == name && this.columns == columns && this.data == data
    {
      this.name := name;
      this.columns := columns;
      this.data := data;
    }

    /**
     * Construction (`__post_init__` running `build_table`) against the file
     * `doc`: a broken foreign key raises and leaves the file alone;
     * otherwise a new name is written to the file with no rows, and the
     * table takes the rows the file then holds for its name.
     */
    static method Create(name: string, columns: seq<RawCol>, doc: map<string, Stored>) returns (r: Result<Table>, file: map<string, Stored>)
      requires DistinctRaw(columns)
      ensures Build(name, columns, doc).Err? ==> r == Err(Build(name, columns, doc).error) && file == doc
      ensures Build(name, columns, doc).Ok? ==>
        && r.Ok? && fresh(r.value) && r.value.Valid()
        && r.value.name == name && r.value.columns == columns
        && r.value.data == Build(name, columns, doc).value
        && file == Persist(name, columns, doc)
        && name in file && r.value.data == file[name].data
    {
      var rows := Build(name, columns, doc);
      if rows.Err? {
        return Err(rows.error), doc;
      }
      file := Persist(name, columns, doc);
      var t := new Table(name, columns, rows.value);
      r := Ok(t);
    }

    /** `insert_row`: the synthesis loop, the length checks, the type loop, then the append. */
    method InsertRow(row: Row) returns (r: Result<Row>)
      requires Valid()
      modifies this
      ensures Valid()
      ensures r == Insert(columns, old(data), row)
      ensures data == if r.Ok? then old(data) + [r.value] else old(data)
    {
      var s := row;
      if |s| < |columns| {
        var flags := AutoFlags(columns);
        var last := LastRow(data);
        var k := 0;
        while k < |columns|
          invariant k <= |columns|
          invariant SynthFrom(flags, last, s, k) == Synthesize(flags, last, row)
        {
          if columns[k].autoInc != Some(false) {
            var v := AutoValue(last, k);
            if v.None? {
              return Err(AutoIncrementNotNumeric);
            }
            s := ListInsert(s, k, v.value);
          }
          k := k + 1;
        }
        if |s| != |columns| {
          return Err(ValueCountMismatch);
        }
      } else if |s| > |columns| {
        return Err(TooManyValues);
      }
      var k := 0;
      while k < |columns|
        invariant k <= |columns|
        invariant forall j :: 0 <= j < k ==> HasTag(s[j], columns[j].tag)
      {
        if !HasTag(s[k], columns[k].tag) {
          return Err(TypeMismatch);
        }
        k := k + 1;
      }
      data := data + [s];
      return Ok(s);
    }

    /**
     * The draft `update_row`: the loop that collects one list of positions
     * per name, the checks, and nothing else; the rows are never touched.
     */
    method UpdateRow(names: seq<string>, values: seq<Value>, cn: string, cv: Value) returns (r: Result<()>)
      ensures r == match UpdateCheck(columns, names, cn) case Some(e) => Err(e) case None => Ok(())
    {
      var rowIndices: seq<seq<nat>> := [];
      var k := 0;
      while k < |names|
        invariant k <= |names| && |rowIndices| == k
      {
        rowIndices := rowIndices + [Positions(columns, names[k])];
        k := k + 1;
      }
      if |rowIndices| != |names| {
        return Err(UnknownColumn);
      }
      if |rowIndices| > |columns| {
        return Err(TooManyColumns);
      }
      var c := RawIndex(columns, cn);
      if c.None? || columns[c.value].pk.None? {
        return Err(MissingKey);
      }
      if !columns[c.value].pk.value {
        return Err(ConditionalNotPrimaryKey);
      }
      return Ok(());
    }

    /** The draft `delete_row`: the checks, then the loop that removes matching rows from the list it iterates over. */
    method DeleteRow(cn: string, cv: Value) returns (r: Result<()>)
      requires Valid()
      modifies this
      ensures Valid()
      ensures match DeleteSpec(columns, old(data), cn, cv)
        case Err(e) => r == Err(e) && data == old(data)
        case Ok(s) => r == Ok(()) && data == s.rows
    {
      var index := Positions(columns, cn);
      if |index| > 1 {
        return Err(IdenticalColumnNames);
      }
      var c := RawIndex(columns, cn);
      if c.None? || columns[c.value].pk.None? {
        return Err(MissingKey);
      }
      var i := c.value;
      if !columns[i].pk.value {
        return Err(NotPrimaryKey);
      }
      if !HasTag(cv, columns[i].tag) {
        return Err(DeleteTypeMismatch);
      }
      ghost var before := data;
      ghost var counter := 0;
      var k := 0;
      while k < |data|
        invariant DeleteScan(data, i, cv, k, counter) == DeleteMatching(before, i, cv)
        invariant forall rw :: rw in data ==> rw in before
        decreases |data| - k
      {
        if Matches(data[k], i, cv) {
          RowEqReflexive(data[k]);
          var j := IndexOfRow(data, data[k]);
          RemoveKeepsRows(data, j);
          data := Remove(data, j);
          counter := counter + 1;
        }
        k := k + 1;
      }
      assert Fits(columns, data) by {
        forall rw | rw in data ensures |rw| == |columns| {
          assert rw in before;
        }
      }
      return Ok(());
    }
  }
}
