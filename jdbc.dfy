/** The JDBC layer as plain data: a statement is its SQL text with the
    values bound to its `?` placeholders, a query either yields the rows of
    a result set or throws, and a result set is a scrollable cursor over
    those rows. */
module Jdbc {

  /** One row of a result set: its column values, column 1 first. */
  type Row = seq<string>

  /** A prepared statement: the SQL text and the values bound to its
      placeholders, in placeholder order. Bound values are data and never
      part of the SQL text. */
  datatype Statement = Statement(sql: string, parameters: seq<string>)

  /** An exception, by the only distinction the lessons make. */
  datatype Failure =
    | SqlException(message: string)
    | OtherException(message: string)

  /** The outcome of a call that can throw. */
  datatype Step<+T> = Ok(value: T) | Thrown(failure: Failure) {
    predicate IsFailure() {
      Thrown?
    }

    function PropagateFailure<U>(): Step<U>
      requires Thrown?
    {
      Thrown(failure)
    }

    function Extract(): T
      requires Ok?
    {
      value
    }
  }

  /** The message of the SQLException a driver throws when a column is read
      with no current row or past the last column; its wording is the
      driver's and is not modelled. */
  const InvalidCursorAccess := "invalid cursor position or column index"

  /** A scrollable, read-only java.sql.ResultSet. `pos` is the cursor
      position: 0 before the first row, k on the k-th row (1-based, as
      getRow() reports it), |rows| + 1 after the last row. */
  class Cursor {
    const rows: seq<Row>
    var pos: nat

    ghost predicate Valid()
      reads this
    {
      pos <= |rows| + 1
    }

    /** The cursor is on a row. */
    predicate OnRow()
      reads this
    {
      1 <= pos <= |rows|
    }

    /** The rows a `while (rs.next())` loop started now would visit. */
    function Unread(): seq<Row>
      reads this
    {
      if pos < |rows| then rows[pos..] else []
    }

    /** What executeQuery returns: a cursor before the first row. */
    constructor (rows: seq<Row>)
      ensures this.rows == rows && pos == 0 && Valid()
    {
      this.rows := rows;
      pos := 0;
    }

    /** first(): move to the first row, if there is one. */
    method First() returns (onRow: bool)
      requires Valid()
      modifies this
      ensures Valid()
      ensures onRow == (rows != [])
      ensures pos == if rows != [] then 1 else old(pos)
    {
      onRow := rows != [];
      if onRow {
        pos := 1;
      }
    }

    /** beforeFirst(): rewind to before the first row. */
    method BeforeFirst()
      modifies this
      ensures Valid() && pos == 0 && Unread() == rows
    {
      pos := 0;
    }

    /** last(): move to the last row, if there is one. */
    method Last() returns (onRow: bool)
      requires Valid()
      modifies this
      ensures Valid()
      ensures onRow == (rows != [])
      ensures pos == if rows != [] then |rows| else old(pos)
    {
      onRow := rows != [];
      if onRow {
        pos := |rows|;
      }
    }

    /** next(): advance one row; true while the cursor is on a row. */
    method Next() returns (onRow: bool)
      requires Valid()
      modifies this
      ensures Valid()
      ensures pos == if old(pos) <= |rows| then old(pos) + 1 else old(pos)
      ensures onRow == OnRow()
    {
      if pos <= |rows| {
        pos := pos + 1;
      }
      onRow := pos <= |rows|;
    }

    /** getRow(): the current row number, 0 when there is no current row. */
    method GetRow() returns (n: nat)
      ensures OnRow() ==> n == pos
      ensures !OnRow() ==> n == 0
    {
      n := if 1 <= pos <= |rows| then pos else 0;
    }

    /** getString(column): the value of a 1-based column of the current row. */
    method GetString(column: int) returns (v: Step<string>)
      ensures OnRow() && 1 <= column <= |rows[pos - 1]| ==> v == Ok(rows[pos - 1][column - 1])
      ensures !(OnRow() && 1 <= column <= |rows[pos - 1]|) ==> v == Thrown(SqlException(InvalidCursorAccess))
    {
      if 1 <= pos <= |rows| && 1 <= column <= |rows[pos - 1]| {
        v := Ok(rows[pos - 1][column - 1]);
      } else {
        v := Thrown(SqlException(InvalidCursorAccess));
      }
    }
  }
}
