/** The one process-wide SQLite connection the handlers share (`db` in the
    source), holding both tables. Its statements change the tables in place:
    an INSERT appends a row, an UPDATE rewrites one column of every row with
    the given name, and `close` makes every later statement raise. */
module Connection {
  import opened Common
  import opened Store

  /** How a statement's return relates to the specification of its effect:
      on success the tables become `expected`'s value, on failure the
      statement raises that error and nothing changes. */
  predicate Applied(r: Result<()>, expected: Result<DbState>, before: DbState, after: DbState) {
    match expected
    case Success(d) => r == Success(()) && after == d
    case Failure(e) => r == Failure(e) && after == before
  }

  class Database {
    var users: seq<Row>
    var hrv: seq<Row>
    var closed: bool

    function State(): DbState
      reads this
    {
      DbState(users, hrv, closed)
    }

    /** sqlite3.connect on a file that already holds `initial`. */
    constructor (initial: DbState)
      ensures State() == initial
    {
      users := initial.users;
      hrv := initial.hrv;
      closed := initial.closed;
    }

    /** INSERT INTO t (name) VALUES (?) */
    method Insert(t: TableName, name: string) returns (r: Result<()>)
      modifies this
      ensures Applied(r, Store.Insert(old(State()), t, name), old(State()), State())
    {
      if closed {
        return Failure(ClosedDatabase);
      }
      if t == Users {
        users := users + [NewRow(NextId(users), name, Users)];
      } else {
        hrv := hrv + [NewRow(NextId(hrv), name, Hrv)];
      }
      return Success(());
    }

    /** UPDATE t SET col=? WHERE name=?, visiting the rows one at a time. */
    method Update(t: TableName, col: Column, v: Value, name: string) returns (r: Result<()>)
      modifies this
      ensures Applied(r, Store.Update(old(State()), t, col, v, name), old(State()), State())
    {
      if closed {
        return Failure(ClosedDatabase);
      }
      if col !in Schema(t) {
        return Failure(NoSuchColumn);
      }
      var rows := if t == Users then users else hrv;
      ghost var original := rows;
      var i := 0;
      while i < |rows|
        invariant 0 <= i <= |rows| == |original|
        invariant forall k | 0 <= k < i ::
          rows[k] == if original[k].name == name then SetCell(original[k], col, v) else original[k]
        invariant forall k | i <= k < |rows| :: rows[k] == original[k]
      {
        if rows[i].name == name {
          rows := rows[i := SetCell(rows[i], col, v)];
        }
        i := i + 1;
      }
      assert rows == SetWhereName(original, col, v, name);
      assert Store.Update(old(State()), t, col, v, name) == Success(WithRows(old(State()), t, rows));
      if t == Users {
        users := rows;
      } else {
        hrv := rows;
      }
      return Success(());
    }

    /** db.close() */
    method Close()
      modifies this
      ensures State() == Store.Close(old(State()))
    {
      closed := true;
    }
  }
}
