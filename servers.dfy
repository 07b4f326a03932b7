/** The server list of the mitigation lesson: the requested sort column is
    passed through a whitelist before it is concatenated into the ORDER BY
    clause, and every row of the result becomes a Server. */
module Servers {
  import opened Jdbc

  datatype Server = Server(
    id: string,
    hostname: string,
    ip: string,
    mac: string,
    status: string,
    description: string)

  /** The names a request may sort by. */
  const AllowedNames: set<string> := {"id", "hostname", "ip", "mac", "status", "description"}

  /** ALLOWED_COLUMNS as the source writes it: each name mapped to itself. */
  const AllowedColumns: map<string, string> := map[
    "id" := "id",
    "hostname" := "hostname",
    "ip" := "ip",
    "mac" := "mac",
    "status" := "status",
    "description" := "description"]

  const DefaultColumn := "id"

  const SelectServers := "SELECT id, hostname, ip, mac, status, description "
    + "FROM SERVERS " + "WHERE status <> 'out of order' "

  /** The whitelist is the identity on exactly the allowed names. */
  lemma WhitelistIsIdentity()
    ensures AllowedColumns.Keys == AllowedNames
    ensures forall name :: name in AllowedColumns ==> AllowedColumns[name] == name
  {
  }

  /** ALLOWED_COLUMNS.getOrDefault(column, "id"): the column itself when it
      is (case-sensitively) an allowed name, the default otherwise. */
  function OrderBy(column: string): (orderBy: string)
    ensures orderBy in AllowedNames
    ensures column in AllowedNames ==> orderBy == column
    ensures column !in AllowedNames ==> orderBy == DefaultColumn
  {
    if column in AllowedColumns then AllowedColumns[column] else DefaultColumn
  }

  /** The SQL text of the sort query. */
  function SortSql(column: string): string
  {
    SelectServers + "ORDER BY " + OrderBy(column)
  }

  /** Feeding the chosen column back in chooses it again. */
  lemma OrderByIsIdempotent(column: string)
    ensures OrderBy(OrderBy(column)) == OrderBy(column)
  {
  }

  /** The six SQL texts the endpoint can send. */
  function SortStatements(): set<string>
  {
    set name | name in AllowedNames :: SelectServers + "ORDER BY " + name
  }

  /** Request text reaches the SQL only as one of the allowed names: every
      request yields one of the six statements, an unrecognised column
      yields the default one, and two requests give the same SQL exactly
      when they choose the same column. */
  lemma SortSqlIsWhitelisted(column: string, other: string)
    ensures SortSql(column) in SortStatements()
    ensures column !in AllowedNames ==> SortSql(column) == SortSql(DefaultColumn)
    ensures SortSql(column) == SortSql(other) <==> OrderBy(column) == OrderBy(other)
  {
    var prefix := SelectServers + "ORDER BY ";
    if SortSql(column) == SortSql(other) {
      assert OrderBy(column) == SortSql(column)[|prefix|..];
      assert OrderBy(other) == SortSql(other)[|prefix|..];
    }
  }

  /** There are exactly six of them. */
  lemma SixSortStatements()
    ensures |SortStatements()| == 6
  {
    var prefix := SelectServers + "ORDER BY ";
    var statements := {prefix + "id", prefix + "hostname", prefix + "ip", prefix + "mac",
                       prefix + "status", prefix + "description"};
    assert SortStatements() == statements;
    assert (prefix + "id")[|prefix|..] == "id";
    assert (prefix + "hostname")[|prefix|..] == "hostname";
    assert (prefix + "ip")[|prefix|..] == "ip";
    assert (prefix + "mac")[|prefix|..] == "mac";
    assert (prefix + "status")[|prefix|..] == "status";
    assert (prefix + "description")[|prefix|..] == "description";
  }

  /** A row with the six selected columns. */
  predicate HasServerColumns(row: Row)
  {
    |row| >= 6
  }

  /** The Server built from columns 1 to 6 of a row. */
  function ServerOf(row: Row): Server
    requires HasServerColumns(row)
  {
    Server(row[0], row[1], row[2], row[3], row[4], row[5])
  }

  /** Reads columns 1 to 6 of the current row into a Server. */
  method ReadServer(rs: Cursor) returns (server: Step<Server>)
    ensures rs.OnRow() && HasServerColumns(rs.rows[rs.pos - 1]) ==>
      server == Ok(ServerOf(rs.rows[rs.pos - 1]))
    ensures !(rs.OnRow() && HasServerColumns(rs.rows[rs.pos - 1])) ==>
      server == Thrown(SqlException(InvalidCursorAccess))
  {
    var id :- rs.GetString(1);
    var hostname :- rs.GetString(2);
    var ip :- rs.GetString(3);
    var mac :- rs.GetString(4);
    var status :- rs.GetString(5);
    var description :- rs.GetString(6);
    return Ok(Server(id, hostname, ip, mac, status, description));
  }

  /** sort: one Server per row, in the order the database returned the
      rows; an exception from the database, or a row without the six
      columns, propagates. */
  method Sort(column: string, execute: Statement -> Step<seq<Row>>) returns (result: Step<seq<Server>>)
    ensures execute(Statement(SortSql(column), [])).Thrown? ==>
      result == Thrown(execute(Statement(SortSql(column), [])).failure)
    ensures execute(Statement(SortSql(column), [])).Ok? ==>
      var rows := execute(Statement(SortSql(column), [])).value;
      if forall i :: 0 <= i < |rows| ==> HasServerColumns(rows[i]) then
        result.Ok? && |result.value| == |rows| &&
        forall i :: 0 <= i < |rows| ==> result.value[i] == ServerOf(rows[i])
      else
        result == Thrown(SqlException(InvalidCursorAccess))
    ensures execute(Statement(SortSql(column), [])) == Ok([]) ==> result == Ok([])
  {
    var servers: seq<Server> := [];
    var orderBy := OrderBy(column);
    var sql := SelectServers + "ORDER BY " + orderBy;
    var rows :- execute(Statement(sql, []));
    var rs := new Cursor(rows);
    var more := rs.Next();
    while more
      invariant rs.Valid() && rs.rows == rows
      invariant 1 <= rs.pos && more == rs.OnRow()
      invariant !more ==> rs.pos == |rows| + 1
      invariant |servers| == rs.pos - 1
      invariant forall i :: 0 <= i < |servers| ==> HasServerColumns(rows[i]) && servers[i] == ServerOf(rows[i])
      decreases |rows| + 1 - rs.pos
    {
      var server :- ReadServer(rs);
      servers := servers + [server];
      more := rs.Next();
    }
    return Ok(servers);
  }
}
