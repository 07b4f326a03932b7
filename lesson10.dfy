/** The availability assignment: the learner's action string filters the
    access log through a prepared statement, and the only way to solve the
    assignment is to make the access_log table disappear. */
module SqlInjectionLesson10 {
  import opened Text
  import opened Jdbc
  import opened Assignments

  const AvailabilityQuery := "SELECT * FROM access_log WHERE action LIKE ?"
  const EntriesKey := "sql-injection.10.entries"
  const SuccessKey := "sql-injection.10.success"
  /** The fragment of the database's message that means the table is gone. */
  const TableNotFound := "object not found: ACCESS_LOG"

  /** What `SELECT * FROM access_log` reports to the probe: the column
      count of the result's metadata, or the message of the SQLException. */
  datatype ProbeResult =
    | Described(columnCount: int)
    | ProbeFailed(message: string)

  /** Everything the endpoint learns from the database and its
      collaborators:
      - execute: the outcome of acquiring a connection, preparing the
        statement and running it;
      - render: SqlInjectionLesson8.generateTable over the rows it reads;
      - probe: what the table probe sees;
      - reconnect: whether the handler's second getConnection succeeds. */
  datatype Environment = Environment(
    execute: Statement -> Step<seq<Row>>,
    render: seq<Row> -> Step<string>,
    probe: ProbeResult,
    reconnect: Step<()>)

  function NegativeSpan(message: string): string
  {
    "<span class='feedback-negative'>" + message + "</span>"
  }

  /** The statement sent to the database: constant SQL text, with the
      action wrapped in LIKE wildcards as its one bound value. */
  function AvailabilityStatement(action: string): Statement
  {
    Statement(AvailabilityQuery, ["%" + action + "%"])
  }

  /** tableExists: a described result exists when it has columns; a failed
      probe means the table is missing exactly when the message says so. */
  function TableExists(probe: ProbeResult): (present: bool)
    ensures probe.Described? ==> (present <==> probe.columnCount > 0)
    ensures probe.ProbeFailed? ==> (present <==> !Contains(probe.message, TableNotFound))
  {
    match probe
    case Described(columnCount) => columnCount > 0
    case ProbeFailed(message) => !Contains(message, TableNotFound)
  }

  /** The two catch clauses: an SQLException re-probes the table on a new
      connection (the output buffer is still empty there); any other
      exception, or a failure to reconnect, is reported as a failure. */
  function Caught(f: Failure, env: Environment): AttackResult
  {
    match f
    case SqlException(message) =>
      if env.reconnect.Thrown? then Failed(None, NegativeSpan(env.reconnect.failure.message))
      else if TableExists(env.probe) then Failed(None, NegativeSpan(message) + "<br>")
      else Solved(SuccessKey)
    case OtherException(message) => Failed(None, NegativeSpan(message))
  }

  /** The verdict of injectableQueryAvailability, as a function of what the
      database and the renderer do. */
  function Availability(action: string, env: Environment): AttackResult
  {
    match env.execute(AvailabilityStatement(action))
    case Thrown(f) => Caught(f, env)
    case Ok(rows) =>
      if rows == [] then
        if TableExists(env.probe) then Failed(Some(EntriesKey), "") else Solved(SuccessKey)
      else
        match env.render(rows)
        case Ok(table) => Failed(Some(EntriesKey), table)
        case Thrown(f) => Caught(f, env)
  }

  /** injectableQueryAvailability, step by step: the cursor is moved with
      first() and rewound with beforeFirst() before the table is rendered,
      and the rendered table is appended to the output buffer. */
  method InjectableQueryAvailability(action: string, env: Environment) returns (r: AttackResult)
    ensures r == Availability(action, env)
  {
    var output := new StringBuilder();
    var caught: Failure;
    var executed := env.execute(AvailabilityStatement(action));
    if executed.Ok? {
      var results := new Cursor(executed.value);
      var onRow := results.First();
      if !onRow {
        if TableExists(env.probe) {
          return Failed(Some(EntriesKey), output.ToString());
        }
        return Solved(SuccessKey);
      }
      results.BeforeFirst();
      var table := env.render(results.Unread());
      if table.Ok? {
        output.Append(table.value);
        return Failed(Some(EntriesKey), output.ToString());
      }
      caught := table.failure;
    } else {
      caught := executed.failure;
    }
    match caught
    case SqlException(message) =>
      if env.reconnect.Thrown? {
        return Failed(None, NegativeSpan(env.reconnect.failure.message));
      }
      if TableExists(env.probe) {
        return Failed(None, NegativeSpan(message) + "<br>" + output.ToString());
      }
      return Solved(SuccessKey);
    case OtherException(message) =>
      return Failed(None, NegativeSpan(message));
  }

  /** The exception that escapes the query, if any: thrown by running the
      statement, or thrown by rendering a non-empty result. */
  function Escaping(executed: Step<seq<Row>>, render: seq<Row> -> Step<string>): Option<Failure>
  {
    match executed
    case Thrown(f) => Some(f)
    case Ok(rows) => if rows != [] && render(rows).Thrown? then Some(render(rows).failure) else None
  }

  /** An SQLException escapes the query. */
  predicate SqlFailureEscapes(executed: Step<seq<Row>>, render: seq<Row> -> Step<string>)
  {
    Escaping(executed, render).Some? && Escaping(executed, render).value.SqlException?
  }

  /** The action never changes the SQL text, and the bound value carries it
      unaltered (two actions give the same statement only if they are equal). */
  lemma ActionIsBoundNotConcatenated(a: string, b: string)
    ensures AvailabilityStatement(a).sql == AvailabilityQuery
    ensures AvailabilityStatement(a).parameters == ["%" + a + "%"]
    ensures AvailabilityStatement(a) == AvailabilityStatement(b) <==> a == b
  {
    var p, q := "%" + a + "%", "%" + b + "%";
    if p == q {
      assert a == p[1..|p| - 1];
      assert b == q[1..|q| - 1];
    }
  }

  /** The one way to succeed is that the table is gone: the verdict is a
      success exactly when the probe reports the table missing and either
      the query returned no rows or an SQLException escaped and the handler
      could reconnect. A success always carries the success key and nothing
      else. */
  lemma SuccessOnlyWhenTableMissing(action: string, env: Environment)
    ensures var r := Availability(action, env);
            var executed := env.execute(AvailabilityStatement(action));
            r.success <==>
              !TableExists(env.probe) &&
              (executed == Ok([]) || (env.reconnect.Ok? && SqlFailureEscapes(executed, env.render)))
    ensures Availability(action, env).success ==> Availability(action, env) == Solved(SuccessKey)
  {
  }

  /** No entries in a table that exists: failure with the entries key and
      an empty output. */
  lemma NoEntriesInExistingTable(action: string, env: Environment)
    requires env.execute(AvailabilityStatement(action)) == Ok([])
    requires TableExists(env.probe)
    ensures Availability(action, env) == AttackResult(false, Some(EntriesKey), "", [])
  {
  }

  /** Rows that render are a failure: the rendered table is shown under
      the entries key. */
  lemma RenderedRowsFail(action: string, env: Environment, rows: seq<Row>, table: string)
    requires env.execute(AvailabilityStatement(action)) == Ok(rows) && rows != []
    requires env.render(rows) == Ok(table)
    ensures Availability(action, env) == AttackResult(false, Some(EntriesKey), table, [])
  {
  }

  /** An SQLException, from the query or from the renderer, while the
      table still exists: failure showing the message in the
      negative-feedback span, followed by a line break. */
  lemma SqlFailureWithTablePresent(action: string, env: Environment, message: string)
    requires Escaping(env.execute(AvailabilityStatement(action)), env.render) == Some(SqlException(message))
    requires env.reconnect.Ok? && TableExists(env.probe)
    ensures Availability(action, env) ==
      AttackResult(false, None, "<span class='feedback-negative'>" + message + "</span><br>", [])
  {
  }

  /** Any other exception, from the query or from the renderer, and a
      failed reconnect in the handler, is a failure showing that
      exception's message; it is never a success. */
  lemma OtherFailuresNeverSucceed(action: string, env: Environment, f: Failure)
    requires Escaping(env.execute(AvailabilityStatement(action)), env.render) == Some(f)
    requires f.OtherException? || env.reconnect.Thrown?
    ensures !Availability(action, env).success
    ensures f.OtherException? ==> Availability(action, env).output == NegativeSpan(f.message)
    ensures f.SqlException? ==> Availability(action, env).output == NegativeSpan(env.reconnect.failure.message)
  {
  }

  /** The database's own message for a dropped table makes the probe report
      it missing; a message about anything else does not. */
  lemma ProbeRecognisesMissingTable()
    ensures !TableExists(ProbeFailed("user lacks privilege or object not found: ACCESS_LOG"))
  {
    var message := "user lacks privilege or object not found: ACCESS_LOG";
    assert message[24..] == TableNotFound;
    assert Contains(message, TableNotFound);
  }

  /** Other probe failures, and a described result with columns, mean the
      table is still there. */
  lemma ProbeRecognisesPresentTable()
    ensures TableExists(ProbeFailed("unexpected token: FROM"))
    ensures TableExists(Described(3)) && !TableExists(Described(0))
  {
  }
}
