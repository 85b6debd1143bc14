/** The two SQLite tables the bot writes, as values: `users(id, name, gender,
    photo, location, bio)` and `hrv(id, name, summary, graphs, details)`,
    with the two statements the handlers run on them (an INSERT of a bare
    name and an UPDATE of one column for every row with a given name) and
    the closing of the connection. */
module Store {
  import opened Common

  datatype TableName = Users | Hrv

  datatype Column = Gender | Photo | Location | Bio | Summary | Graphs | Details

  /** A cell: SQL NULL, a text, or the location object the source binds. */
  datatype Value = Null | Str(s: string) | Geo(point: GeoPoint)

  /** A row: its INTEGER PRIMARY KEY, the `name` column, and the other cells. */
  datatype Row = Row(id: nat, name: string, cells: map<Column, Value>)

  datatype DbState = DbState(users: seq<Row>, hrv: seq<Row>, closed: bool)

  /** The columns besides `id` and `name` that each table declares. */
  function Schema(t: TableName): set<Column> {
    match t
    case Users => {Gender, Photo, Location, Bio}
    case Hrv => {Summary, Graphs, Details}
  }

  function Other(t: TableName): TableName {
    if t == Users then Hrv else Users
  }

  function Rows(db: DbState, t: TableName): seq<Row> {
    if t == Users then db.users else db.hrv
  }

  function WithRows(db: DbState, t: TableName, rows: seq<Row>): DbState {
    if t == Users then db.(users := rows) else db.(hrv := rows)
  }

  /** The largest row id in the table, 0 when it is empty. */
  function MaxId(rows: seq<Row>): (m: nat)
    ensures forall i | 0 <= i < |rows| :: rows[i].id <= m
    ensures rows != [] ==> exists i | 0 <= i < |rows| :: rows[i].id == m
  {
    if rows == [] then 0
    else
      var rest := MaxId(rows[1..]);
      assert forall i | 1 <= i < |rows| :: rows[i] == rows[1..][i - 1];
      if rows[0].id >= rest then rows[0].id else rest
  }

  /** The rowid SQLite gives a row inserted without one: one more than the
      largest rowid in the table, 1 for an empty table. */
  function NextId(rows: seq<Row>): (id: nat)
    ensures id >= 1
    ensures forall i | 0 <= i < |rows| :: rows[i].id < id
  {
    MaxId(rows) + 1
  }

  /** The cells of a freshly inserted row: NULL in every declared column. */
  function Nulls(t: TableName): (cells: map<Column, Value>)
    ensures cells.Keys == Schema(t)
    ensures forall c | c in cells :: cells[c] == Null
  {
    match t
    case Users => map[Gender := Null, Photo := Null, Location := Null, Bio := Null]
    case Hrv => map[Summary := Null, Graphs := Null, Details := Null]
  }

  /** The row `INSERT INTO t (name) VALUES (?)` creates. */
  function NewRow(id: nat, name: string, t: TableName): Row {
    Row(id, name, Nulls(t))
  }

  /** INSERT INTO t (name) VALUES (name). */
  function Insert(db: DbState, t: TableName, name: string): (r: Result<DbState>)
    ensures r.Failure? <==> db.closed
    ensures r.Failure? ==> r.error == ClosedDatabase
    ensures r.Success? ==>
      && |Rows(r.value, t)| == |Rows(db, t)| + 1
      && Rows(r.value, t)[..|Rows(db, t)|] == Rows(db, t)
      && Rows(r.value, Other(t)) == Rows(db, Other(t))
      && !r.value.closed
  {
    if db.closed then Failure(ClosedDatabase)
    else
      var rows := Rows(db, t);
      Success(WithRows(db, t, rows + [NewRow(NextId(rows), name, t)]))
  }

  function SetCell(row: Row, col: Column, v: Value): Row {
    row.(cells := row.cells[col := v])
  }

  /** The rows after `SET col = v WHERE name = name`, row by row. */
  function SetWhereName(rows: seq<Row>, col: Column, v: Value, name: string): (r: seq<Row>)
    ensures |r| == |rows|
    ensures forall i | 0 <= i < |rows| ::
      r[i] == if rows[i].name == name then SetCell(rows[i], col, v) else rows[i]
  {
    if rows == [] then []
    else
      var head := if rows[0].name == name then SetCell(rows[0], col, v) else rows[0];
      [head] + SetWhereName(rows[1..], col, v, name)
  }

  /** UPDATE t SET col = v WHERE name = name. */
  function Update(db: DbState, t: TableName, col: Column, v: Value, name: string): (r: Result<DbState>)
    ensures r.Failure? <==> db.closed || col !in Schema(t)
    ensures r.Failure? ==> r.error == if db.closed then ClosedDatabase else NoSuchColumn
    ensures r.Success? ==>
      && |Rows(r.value, t)| == |Rows(db, t)|
      && Rows(r.value, Other(t)) == Rows(db, Other(t))
      && !r.value.closed
  {
    if db.closed then Failure(ClosedDatabase)
    else if col !in Schema(t) then Failure(NoSuchColumn)
    else Success(WithRows(db, t, SetWhereName(Rows(db, t), col, v, name)))
  }

  /** db.close(); closing a closed connection does nothing. */
  function Close(db: DbState): (r: DbState)
    ensures r.closed
    ensures r.users == db.users && r.hrv == db.hrv
  {
    db.(closed := true)
  }

  // ---------------------------------------------------------------------
  // What the two statements mean, stated independently of how they are
  // computed.

  /** `after` is `before` with one new row for `name`: a fresh id, every
      other column NULL. */
  predicate AppendsNewRow(before: seq<Row>, after: seq<Row>, name: string, t: TableName) {
    && |after| == |before| + 1
    && after[..|before|] == before
    && var row := after[|before|];
       && row.name == name
       && row.cells.Keys == Schema(t)
       && (forall c | c in row.cells :: row.cells[c] == Null)
       && (forall i | 0 <= i < |before| :: before[i].id != row.id)
  }

  /** `after` is `before` with column `col` set to `v` on every row whose
      name is `name`; ids, names, every other column and every other row
      are as they were. */
  predicate SetsColumnWhere(before: seq<Row>, after: seq<Row>, col: Column, v: Value, name: string) {
    && |after| == |before|
    && forall i | 0 <= i < |before| ::
         && after[i].id == before[i].id
         && after[i].name == before[i].name
         && (before[i].name == name ==> after[i].cells == before[i].cells[col := v])
         && (before[i].name != name ==> after[i] == before[i])
  }

  /** `after` results from an INSERT into table `t` alone. */
  predicate InsertedInto(before: DbState, after: DbState, t: TableName, name: string) {
    && AppendsNewRow(Rows(before, t), Rows(after, t), name, t)
    && Rows(after, Other(t)) == Rows(before, Other(t))
    && after.closed == before.closed
  }

  /** `after` results from an UPDATE of table `t` alone. */
  predicate UpdatedIn(before: DbState, after: DbState, t: TableName, col: Column, v: Value, name: string) {
    && SetsColumnWhere(Rows(before, t), Rows(after, t), col, v, name)
    && Rows(after, Other(t)) == Rows(before, Other(t))
    && after.closed == before.closed
  }

  /** Every row carries exactly its table's columns and ids are unique. */
  predicate WellFormedRows(rows: seq<Row>, t: TableName) {
    && (forall i | 0 <= i < |rows| :: rows[i].cells.Keys == Schema(t))
    && (forall i, j | 0 <= i < j < |rows| :: rows[i].id != rows[j].id)
  }

  predicate WellFormed(db: DbState) {
    WellFormedRows(db.users, Users) && WellFormedRows(db.hrv, Hrv)
  }

  /** An older row of the dialog's name after the dialog's UPDATEs: it keeps
      its id and name, holds the dialog's values in the `agreed` columns and
      its own old values in every other column. */
  predicate SameNameRowFollows(before: Row, after: Row, cells: map<Column, Value>, agreed: set<Column>) {
    && after.id == before.id && after.name == before.name
    && (forall c | c in agreed :: c in cells && c in after.cells && after.cells[c] == cells[c])
    && (forall c | c in before.cells && c !in agreed :: c in after.cells && after.cells[c] == before.cells[c])
  }

  /** `after` is `before` plus one row for `name`, with a fresh id, holding
      `cells`; older rows keep their ids, older rows of other names are
      unchanged and older rows of that name agree with `cells` on the
      columns in `agreed` and keep every other cell. */
  predicate AddedRow(before: seq<Row>, after: seq<Row>, name: string,
                     cells: map<Column, Value>, agreed: set<Column>) {
    && |after| == |before| + 1
    && after[|before|].name == name && after[|before|].cells == cells
    && (forall i | 0 <= i < |before| :: after[i].id == before[i].id && before[i].id != after[|before|].id)
    && (forall i | 0 <= i < |before| && before[i].name != name :: after[i] == before[i])
    && (forall i | 0 <= i < |before| && before[i].name == name ::
          SameNameRowFollows(before[i], after[i], cells, agreed))
  }

  // ---------------------------------------------------------------------
  // Lemmas

  /** An INSERT fails exactly on a closed connection; otherwise it appends
      one row holding only the name and leaves the other table alone. */
  lemma InsertAppendsOneRow(db: DbState, t: TableName, name: string)
    ensures Insert(db, t, name).Failure? <==> db.closed
    ensures db.closed ==> Insert(db, t, name) == Failure(ClosedDatabase)
    ensures !db.closed ==> InsertedInto(db, Insert(db, t, name).value, t, name)
  {
    if !db.closed {
      var rows := Rows(db, t);
      var after := Rows(Insert(db, t, name).value, t);
      assert after == rows + [NewRow(NextId(rows), name, t)];
    }
  }

  /** An UPDATE fails exactly on a closed connection or an unknown column;
      otherwise it sets the one column on the rows with that name only. */
  lemma UpdateSetsOneColumn(db: DbState, t: TableName, col: Column, v: Value, name: string)
    ensures Update(db, t, col, v, name).Failure? <==> db.closed || col !in Schema(t)
    ensures db.closed ==> Update(db, t, col, v, name) == Failure(ClosedDatabase)
    ensures Update(db, t, col, v, name).Success? ==>
      UpdatedIn(db, Update(db, t, col, v, name).value, t, col, v, name)
  {
  }

  /** An UPDATE whose name matches no row changes nothing. */
  lemma UpdateOfUnknownNameChangesNothing(db: DbState, t: TableName, col: Column, v: Value, name: string)
    requires !db.closed && col in Schema(t)
    requires forall i | 0 <= i < |Rows(db, t)| :: Rows(db, t)[i].name != name
    ensures Update(db, t, col, v, name) == Success(db)
  {
    var rows := Rows(db, t);
    var after := SetWhereName(rows, col, v, name);
    assert after == rows;
  }

  lemma InsertKeepsRowsWellFormed(rows: seq<Row>, t: TableName, name: string)
    requires WellFormedRows(rows, t)
    ensures WellFormedRows(rows + [NewRow(NextId(rows), name, t)], t)
  {
    var after := rows + [NewRow(NextId(rows), name, t)];
    forall i, j | 0 <= i < j < |after| ensures after[i].id != after[j].id {
      assert after[i] == rows[i];
      if j < |rows| {
        assert after[j] == rows[j];
      }
    }
  }

  lemma UpdateKeepsRowsWellFormed(rows: seq<Row>, t: TableName, col: Column, v: Value, name: string)
    requires WellFormedRows(rows, t) && col in Schema(t)
    ensures WellFormedRows(SetWhereName(rows, col, v, name), t)
  {
    var after := SetWhereName(rows, col, v, name);
    forall i | 0 <= i < |after| ensures after[i].cells.Keys == Schema(t) && after[i].id == rows[i].id {
    }
  }

  lemma InsertPreservesWellFormed(db: DbState, t: TableName, name: string)
    requires WellFormed(db) && !db.closed
    ensures WellFormed(Insert(db, t, name).value)
  {
    InsertKeepsRowsWellFormed(Rows(db, t), t, name);
  }

  lemma UpdatePreservesWellFormed(db: DbState, t: TableName, col: Column, v: Value, name: string)
    requires WellFormed(db)
    requires Update(db, t, col, v, name).Success?
    ensures WellFormed(Update(db, t, col, v, name).value)
  {
    UpdateKeepsRowsWellFormed(Rows(db, t), t, col, v, name);
  }

  /** An INSERT starts an added row holding only NULLs, and leaves every
      older row as it was. */
  lemma AppendStartsAddedRow(before: seq<Row>, after: seq<Row>, name: string, t: TableName)
    requires AppendsNewRow(before, after, name, t)
    ensures AddedRow(before, after, name, Nulls(t), {})
    ensures forall i | 0 <= i < |before| :: after[i] == before[i]
  {
    var n := |before|;
    assert after[n].cells == Nulls(t);
    forall i | 0 <= i < n ensures after[i] == before[i] {
      assert after[i] == after[..n][i];
    }
  }

  /** A later UPDATE by the same name sets the column on the added row and
      on the older rows of that name alike. */
  lemma {:induction false} UpdateExtendsAddedRow(before: seq<Row>, mid: seq<Row>, after: seq<Row>, name: string,
                                                 cells: map<Column, Value>, agreed: set<Column>,
                                                 col: Column, v: Value)
    requires AddedRow(before, mid, name, cells, agreed)
    requires SetsColumnWhere(mid, after, col, v, name)
    ensures AddedRow(before, after, name, cells[col := v], agreed + {col})
  {
    var n := |before|;
    assert after[n].cells == cells[col := v];
    forall i | 0 <= i < n && before[i].name == name
      ensures SameNameRowFollows(before[i], after[i], cells[col := v], agreed + {col})
    {
      assert after[i].cells == mid[i].cells[col := v];
      assert SameNameRowFollows(before[i], mid[i], cells, agreed);
    }
  }
}
