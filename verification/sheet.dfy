/** The spreadsheet as a value: `ensure_columns_exist` (schema repair) and
    `add_to_excel` (deduplicate on the company name, then append). The file
    reads and writes around them are left to the caller. */
module Sheet {
  import opened Wrappers
  import opened Company

  datatype Table = Table(columns: seq<string>, rows: seq<Record>)

  /** What the selected path holds when an operation reads it: no file, a
      file the reader rejects, or a loaded table. */
  datatype Workbook = Missing | Unreadable | Present(table: Table)

  /** The exceptions the source catches: a failed read, and the `KeyError`
      of looking up a column the sheet lacks. */
  datatype StoreError = ReadFailed | NoSuchColumn(name: string)

  /** What `add_to_excel` did; the source returns `True` for `Inserted`
      only. */
  datatype AddOutcome = Inserted(table: Table) | Duplicate | Failed(error: StoreError)

  /** A data frame: distinct column names, and every row has a cell for
      exactly those columns. */
  ghost predicate WellFormed(t: Table)
  {
    && Distinct(t.columns)
    && forall i :: 0 <= i < |t.rows| ==> t.rows[i].Keys == ColumnSet(t.columns)
  }

  ghost predicate ValidWorkbook(wb: Workbook)
  {
    wb.Present? ==> WellFormed(wb.table)
  }

  ghost predicate HasRequiredColumns(t: Table)
  {
    forall c :: c in RequiredColumns ==> c in t.columns
  }

  /** `r` grows `t` by columns only: same number of rows, the old columns
      first and in their order, every old cell kept, every new cell empty. */
  ghost predicate Extends(t: Table, r: Table)
  {
    && |r.rows| == |t.rows|
    && |t.columns| <= |r.columns|
    && r.columns[..|t.columns|] == t.columns
    && (forall i, k :: 0 <= i < |t.rows| && k in t.rows[i] ==> k in r.rows[i] && r.rows[i][k] == t.rows[i][k])
    && (forall i, k :: 0 <= i < |t.rows| && k in r.rows[i] && k !in t.rows[i] ==> r.rows[i][k] == None)
  }

  /** `df[column] = None` for a column the frame lacks. */
  function AddColumn(t: Table, c: string): (r: Table)
    requires WellFormed(t) && c !in t.columns
    ensures WellFormed(r) && Extends(t, r)
    ensures r.columns == t.columns + [c]
  {
    var r := Table(t.columns + [c], seq(|t.rows|, i requires 0 <= i < |t.rows| => t.rows[i][c := None]));
    assert r.columns[..|t.columns|] == t.columns;
    assert ColumnSet(r.columns) == ColumnSet(t.columns) + {c};
    r
  }

  /** The names of `names` that `columns` lacks, in the order of `names`,
      each once: a name is taken at its first occurrence and counts as
      present from then on. */
  function Absent(columns: seq<string>, names: seq<string>): seq<string>
    decreases |names|
  {
    if names == [] then []
    else if names[0] in columns then Absent(columns, names[1..])
    else [names[0]] + Absent(columns + [names[0]], names[1..])
  }

  /** The loop of `ensure_columns_exist`: each name of `names` the table
      lacks is appended as an empty column, in the order of `names`. */
  function AddMissingColumns(t: Table, names: seq<string>): (r: Table)
    requires WellFormed(t)
    ensures WellFormed(r) && Extends(t, r)
    ensures forall c :: c in r.columns <==> c in t.columns || c in names
    decreases |names|
  {
    if names == [] then t
    else
      var t' := if names[0] in t.columns then t else AddColumn(t, names[0]);
      var r := AddMissingColumns(t', names[1..]);
      assert forall c :: c in names <==> c == names[0] || c in names[1..];
      assert r.columns[..|t.columns|] == r.columns[..|t'.columns|][..|t.columns|];
      r
  }

  /** The loop appends the missing names in the order of `names`. */
  lemma {:induction false} AddMissingColumnsOrder(t: Table, names: seq<string>)
    requires WellFormed(t)
    ensures AddMissingColumns(t, names).columns == t.columns + Absent(t.columns, names)
    decreases |names|
  {
    if names != [] {
      var t' := if names[0] in t.columns then t else AddColumn(t, names[0]);
      assert AddMissingColumns(t, names) == AddMissingColumns(t', names[1..]);
      AddMissingColumnsOrder(t', names[1..]);
      if names[0] !in t.columns {
        assert t.columns + [names[0]] + Absent(t'.columns, names[1..]) == t.columns + Absent(t.columns, names);
      }
    }
  }

  /** A table that already has every name keeps its value. */
  lemma {:induction false} AddMissingColumnsNoop(t: Table, names: seq<string>)
    requires WellFormed(t)
    requires forall c :: c in names ==> c in t.columns
    ensures AddMissingColumns(t, names) == t
    decreases |names|
  {
    if names != [] {
      assert names[0] in names;
      assert forall c :: c in names[1..] ==> c in names;
      AddMissingColumnsNoop(t, names[1..]);
    }
  }

  function RepairSchema(t: Table): (r: Table)
    requires WellFormed(t)
    ensures WellFormed(r) && Extends(t, r) && HasRequiredColumns(r)
    ensures forall c :: c in r.columns ==> c in t.columns || c in RequiredColumns
    ensures r.columns == t.columns + Absent(t.columns, RequiredColumns)
  {
    AddMissingColumnsOrder(t, RequiredColumns);
    AddMissingColumns(t, RequiredColumns)
  }

  /** Repairing a repaired table changes nothing. */
  lemma RepairSchemaIdempotent(t: Table)
    requires WellFormed(t)
    ensures RepairSchema(RepairSchema(t)) == RepairSchema(t)
  {
    AddMissingColumnsNoop(RepairSchema(t), RequiredColumns);
  }

  /** A table that has every required column is left as it is. */
  lemma RepairSchemaKeepsComplete(t: Table)
    requires WellFormed(t) && HasRequiredColumns(t)
    ensures RepairSchema(t) == t
  {
    AddMissingColumnsNoop(t, RequiredColumns);
  }

  /** `ensure_columns_exist`: a missing file becomes an empty table with
      exactly the required columns in order; a readable one is repaired; an
      unreadable one is reported and left alone. */
  function EnsureColumnsExist(wb: Workbook): (r: Result<Table, StoreError>)
    requires ValidWorkbook(wb)
    ensures wb.Missing? ==> r.Success? && r.value.columns == RequiredColumns && r.value.rows == []
    ensures wb.Unreadable? ==> r == Failure(ReadFailed)
    ensures wb.Present? ==> r.Success? && Extends(wb.table, r.value)
    ensures wb.Present? ==> forall c :: c in r.value.columns ==> c in wb.table.columns || c in RequiredColumns
    ensures wb.Present? ==> r.value.columns == wb.table.columns + Absent(wb.table.columns, RequiredColumns)
    ensures r.Success? ==> WellFormed(r.value) && HasRequiredColumns(r.value)
  {
    match wb
    case Missing =>
      KeysDistinct();
      Success(Table(RequiredColumns, []))
    case Unreadable => Failure(ReadFailed)
    case Present(t) => Success(RepairSchema(t))
  }

  /** Running the repair on the file it wrote gives back the same table. */
  lemma EnsureColumnsExistIdempotent(wb: Workbook)
    requires ValidWorkbook(wb)
    requires EnsureColumnsExist(wb).Success?
    ensures EnsureColumnsExist(Present(EnsureColumnsExist(wb).value)) == EnsureColumnsExist(wb)
  {
    RepairSchemaKeepsComplete(EnsureColumnsExist(wb).value);
  }

  /** Some existing row has `name` as its company name. A record name of
      `None` matches no row: pandas compares a column with `None` as all
      false. */
  predicate Listed(t: Table, name: Option<string>)
  {
    name.Some? && exists i :: 0 <= i < |t.rows| && NameKey in t.rows[i] && t.rows[i][NameKey] == name
  }

  /** The one-row frame `pd.DataFrame([company_data])` aligned to
      `columns`: a cell per column, empty where the record has no value. */
  function NewRow(columns: seq<string>, rec: Record): (row: Record)
    ensures row.Keys == ColumnSet(columns)
  {
    map c | c in columns :: if c in rec then rec[c] else None
  }

  /** A record with a value for exactly the given columns is its own row. */
  lemma NewRowOfFullRecord(columns: seq<string>, rec: Record)
    requires rec.Keys == ColumnSet(columns)
    ensures NewRow(columns, rec) == rec
  {
  }

  /** `pd.concat([df, new_data], ignore_index=True)`: the record's keys the
      frame lacks become new columns (in the record's key order, which is
      the order of the required columns), then the record is the last row. */
  function Append(t: Table, rec: Record): (r: Table)
    requires WellFormed(t) && rec.Keys == KeySet()
    ensures WellFormed(r)
    ensures |r.rows| == |t.rows| + 1
    ensures Extends(t, Table(r.columns, r.rows[..|t.rows|]))
    ensures forall c :: c in r.columns <==> c in t.columns || c in rec
    ensures r.columns == t.columns + Absent(t.columns, RequiredColumns)
    ensures forall k :: k in rec ==> k in r.rows[|t.rows|] && r.rows[|t.rows|][k] == rec[k]
    ensures forall k :: k in r.rows[|t.rows|] && k !in rec ==> r.rows[|t.rows|][k] == None
  {
    var t' := RepairSchema(t);
    var row := NewRow(t'.columns, rec);
    var r := Table(t'.columns, t'.rows + [row]);
    assert r.rows[..|t.rows|] == t'.rows;
    assert r.rows[|t.rows|] == row;
    assert forall c :: c in rec <==> c in RequiredColumns;
    r
  }

  /** `add_to_excel` on the table read from the selected file. */
  function AddToExcel(wb: Workbook, rec: Record): (r: AddOutcome)
    requires ValidWorkbook(wb) && rec.Keys == KeySet()
    ensures r.Duplicate? <==> wb.Present? && NameKey in wb.table.columns && Listed(wb.table, rec[NameKey])
    ensures r.Failed? <==> !wb.Present? || NameKey !in wb.table.columns
    ensures r.Inserted? ==> r.table == Append(wb.table, rec)
  {
    match wb
    case Missing => Failed(ReadFailed)
    case Unreadable => Failed(ReadFailed)
    case Present(t) =>
      if NameKey !in t.columns then Failed(NoSuchColumn(NameKey))
      else if Listed(t, rec[NameKey]) then Duplicate
      else Inserted(Append(t, rec))
  }

  /** The file after `add_to_excel`: rewritten only when a row was added. */
  function Stored(wb: Workbook, r: AddOutcome): Workbook
  {
    if r.Inserted? then Present(r.table) else wb
  }

  /** A record whose company name is already in the sheet is refused, the
      source returns `False`, and the file is not rewritten. */
  lemma DuplicateLeavesSheetUnchanged(t: Table, rec: Record, i: int)
    requires WellFormed(t) && rec.Keys == KeySet()
    requires NameKey in t.columns
    requires 0 <= i < |t.rows| && rec[NameKey].Some? && t.rows[i][NameKey] == rec[NameKey]
    ensures AddToExcel(Present(t), rec) == Duplicate
    ensures Stored(Present(t), AddToExcel(Present(t), rec)) == Present(t)
  {
  }

  /** A record whose company name is new adds exactly one row: earlier rows
      keep their cells, and the new last row holds the record's values. On
      a sheet that already has the required columns, the columns and the
      earlier rows are exactly as they were. */
  lemma InsertAddsOneRow(t: Table, rec: Record)
    requires WellFormed(t) && rec.Keys == KeySet()
    requires NameKey in t.columns && !Listed(t, rec[NameKey])
    ensures AddToExcel(Present(t), rec).Inserted?
    ensures var r := AddToExcel(Present(t), rec).table;
      && WellFormed(r)
      && |r.rows| == |t.rows| + 1
      && (forall i, k :: 0 <= i < |t.rows| && k in t.rows[i] ==> r.rows[i][k] == t.rows[i][k])
      && (forall k :: k in rec ==> r.rows[|t.rows|][k] == rec[k])
      && (HasRequiredColumns(t) ==> r.columns == t.columns && r.rows[..|t.rows|] == t.rows)
  {
    if HasRequiredColumns(t) {
      RepairSchemaKeepsComplete(t);
    }
  }

  /** Selecting a path with no file behind it and then adding a record
      gives a sheet of the required columns with that record as its single
      row, cell for cell. */
  lemma NewFileFirstRecord(rec: Record)
    requires rec.Keys == KeySet()
    ensures EnsureColumnsExist(Missing).Success?
    ensures AddToExcel(Present(EnsureColumnsExist(Missing).value), rec) == Inserted(Table(RequiredColumns, [rec]))
  {
    var t := EnsureColumnsExist(Missing).value;
    assert ColumnSet(t.columns) == KeySet();
    FirstRecordOfEmptyTable(t, rec);
  }

  /** Into an empty table whose columns are exactly the record's keys, the
      record goes in as the only row, unchanged. */
  lemma FirstRecordOfEmptyTable(t: Table, rec: Record)
    requires WellFormed(t) && HasRequiredColumns(t) && t.rows == []
    requires rec.Keys == KeySet() && ColumnSet(t.columns) == KeySet()
    ensures AddToExcel(Present(t), rec) == Inserted(Table(t.columns, [rec]))
  {
    RepairSchemaKeepsComplete(t);
    NewRowOfFullRecord(t.columns, rec);
  }
}
