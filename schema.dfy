/**
 * Column definitions of the current row store: the defaults that
 * `default_columns` fills in and the checks `build_table` makes before a
 * table exists (one primary key at most, foreign keys that point at an
 * existing primary-key column of the same type in a persisted table).
 */
module Schema {
  import opened Errors
  import opened Values

  /** What a child does when its parent row changes. */
  datatype Action = Cascade | SetNull | DoNothing

  /** A validated foreign key: parent table and column, and the two actions. */
  datatype ForeignKey = ForeignKey(table: string, column: string, onUpdate: Action, onDelete: Action)

  /** A column as the table holds it after construction. */
  datatype ColDef = ColDef(
    name: string,
    tag: TypeTag,
    pk: bool,
    fk: Option<ForeignKey>,
    autoInc: bool,
    nullable: bool,
    temporary: bool)

  type Schema = seq<ColDef>

  /** The foreign-key dictionary a caller writes; the actions are optional strings. */
  datatype FkSpec = FkSpec(table: string, column: string, onUpdate: Option<string>, onDelete: Option<string>)

  /** The keyword arguments of one column definition; only the type is required. */
  datatype ColSpec = ColSpec(
    tag: TypeTag,
    pk: Option<bool>,
    fk: Option<FkSpec>,
    autoInc: Option<bool>,
    nullable: Option<bool>,
    temporary: Option<bool>)

  /** An action string: one of the three recognised names, anything else (or nothing) is `do_nothing`. */
  function ParseAction(s: Option<string>): (a: Action)
    ensures a == Cascade <==> s == Some("cascade")
    ensures a == SetNull <==> s == Some("set_null")
    ensures a == DoNothing <==> s != Some("cascade") && s != Some("set_null")
  {
    if s == Some("cascade") then Cascade
    else if s == Some("set_null") then SetNull
    else DoNothing
  }

  function GetOr(o: Option<bool>, d: bool): bool
  {
    if o.Some? then o.value else d
  }

  /** One column with its defaults filled in and its name recorded. */
  function Normalise(name: string, spec: ColSpec): (c: ColDef)
    ensures c.name == name && c.tag == spec.tag
    ensures c.pk <==> spec.pk == Some(true)
    ensures c.autoInc <==> spec.autoInc == Some(true)
    ensures c.nullable <==> spec.nullable == Some(true)
    ensures !c.temporary
    ensures c.fk.None? <==> spec.fk.None?
    ensures spec.fk.Some? ==>
      c.fk.value.table == spec.fk.value.table && c.fk.value.column == spec.fk.value.column &&
      c.fk.value.onUpdate == ParseAction(spec.fk.value.onUpdate) &&
      c.fk.value.onDelete == ParseAction(spec.fk.value.onDelete)
  {
    var fk := match spec.fk
      case None => None
      case Some(f) => Some(ForeignKey(f.table, f.column, ParseAction(f.onUpdate), ParseAction(f.onDelete)));
    ColDef(name, spec.tag, GetOr(spec.pk, false), fk, GetOr(spec.autoInc, false), GetOr(spec.nullable, false), false)
  }

  /** The whole schema, in the caller's column order. */
  function Normalised(specs: seq<(string, ColSpec)>): (cols: Schema)
    ensures |cols| == |specs|
    ensures forall k :: 0 <= k < |specs| ==> cols[k] == Normalise(specs[k].0, specs[k].1)
  {
    seq(|specs|, k requires 0 <= k < |specs| => Normalise(specs[k].0, specs[k].1))
  }

  /** Column names are distinct, as the keys of a dictionary are. */
  predicate DistinctNames(cols: Schema)
  {
    forall i, j :: 0 <= i < j < |cols| ==> cols[i].name != cols[j].name
  }

  predicate DistinctKeys(specs: seq<(string, ColSpec)>)
  {
    forall i, j :: 0 <= i < j < |specs| ==> specs[i].0 != specs[j].0
  }

  /** Number of columns marked primary key. */
  function CountPk(cols: Schema): nat
  {
    if |cols| == 0 then 0 else (if cols[0].pk then 1 else 0) + CountPk(cols[1..])
  }

  /** Position of the column called `name`, if any. */
  function IndexOf(cols: Schema, name: string): (r: Option<nat>)
    ensures r.Some? ==> r.value < |cols| && cols[r.value].name == name
    ensures r.Some? ==> forall k :: 0 <= k < r.value ==> cols[k].name != name
    ensures r.None? <==> forall k :: 0 <= k < |cols| ==> cols[k].name != name
  {
    if |cols| == 0 then None
    else if cols[0].name == name then Some(0)
    else match IndexOf(cols[1..], name)
      case None => None
      case Some(j) => Some(j + 1)
  }

  /** The column called `name`, if any. */
  function FindCol(cols: Schema, name: string): (r: Option<ColDef>)
    ensures r.Some? <==> IndexOf(cols, name).Some?
    ensures r.Some? ==> r.value == cols[IndexOf(cols, name).value]
  {
    match IndexOf(cols, name)
    case None => None
    case Some(j) => Some(cols[j])
  }

  /** What is wrong with column `c`'s foreign key against the persisted schemas `doc`, if anything. */
  function FkError(c: ColDef, doc: map<string, Schema>): Option<Error>
  {
    match c.fk
    case None => None
    case Some(fk) =>
      if fk.table !in doc then Some(UnknownParentTable)
      else match FindCol(doc[fk.table], fk.column)
        case None => Some(UnknownParentColumn)
        case Some(parent) =>
          if parent.tag != c.tag then Some(ForeignKeyTypeMismatch)
          else if !parent.pk then Some(ParentNotPrimaryKey)
          else None
  }

  /** A foreign key is sound: its parent table is persisted and holds a primary-key column of that name and type. */
  predicate FkSound(c: ColDef, doc: map<string, Schema>)
  {
    c.fk.Some? ==>
      && c.fk.value.table in doc
      && FindCol(doc[c.fk.value.table], c.fk.value.column).Some?
      && FindCol(doc[c.fk.value.table], c.fk.value.column).value.tag == c.tag
      && FindCol(doc[c.fk.value.table], c.fk.value.column).value.pk
  }

  lemma FkErrorIff(c: ColDef, doc: map<string, Schema>)
    ensures FkError(c, doc).None? <==> FkSound(c, doc)
  {
  }

  /** The loop over columns that raises at the first broken foreign key. */
  function FkCheckFrom(cols: Schema, doc: map<string, Schema>, k: nat): Option<Error>
    decreases |cols| - k
  {
    if k >= |cols| then None
    else if FkError(cols[k], doc).Some? then FkError(cols[k], doc)
    else FkCheckFrom(cols, doc, k + 1)
  }

  lemma {:induction false} FkCheckFromIff(cols: Schema, doc: map<string, Schema>, k: nat)
    ensures FkCheckFrom(cols, doc, k).None? <==> forall j :: k <= j < |cols| ==> FkSound(cols[j], doc)
    decreases |cols| - k
  {
    if k < |cols| {
      FkErrorIff(cols[k], doc);
      FkCheckFromIff(cols, doc, k + 1);
    }
  }

  /**
   * The validation in `build_table` after `default_columns`: at most one
   * primary key (checked first), then every foreign key in column order.
   */
  function BuildSchema(specs: seq<(string, ColSpec)>, doc: map<string, Schema>): (r: Result<Schema>)
    requires DistinctKeys(specs)
    ensures r.Ok? <==>
      CountPk(Normalised(specs)) <= 1 &&
      forall k :: 0 <= k < |specs| ==> FkSound(Normalised(specs)[k], doc)
    ensures CountPk(Normalised(specs)) > 1 ==> r == Err(MultiplePrimaryKeys)
    ensures r.Ok? ==> r.value == Normalised(specs) && DistinctNames(r.value) && CountPk(r.value) <= 1
  {
    var cols := Normalised(specs);
    FkCheckFromIff(cols, doc, 0);
    if CountPk(cols) > 1 then Err(MultiplePrimaryKeys)
    else match FkCheckFrom(cols, doc, 0)
      case Some(e) => Err(e)
      case None => Ok(cols)
  }
}
