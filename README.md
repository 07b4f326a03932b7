# WebGoat SQL-injection assignment verdicts, modelled in Dafny

This project models the decision logic of three WebGoat SQL-injection endpoints.
Each endpoint takes the learner's input, runs a query and turns the outcome into
an `AttackResult`. The JDBC layer is replaced by plain data. A statement is its
SQL text plus its bound values. A query either yields rows of strings or throws
an exception that carries a message. A result set is a scrollable cursor over
those rows.

- `SqlInjectionLesson10` (availability assignment). The action string becomes
  the bound `LIKE` pattern of a fixed statement. The verdict depends on three
  things: whether rows came back, what exception was thrown, and a probe of the
  `access_log` table. The model proves that the only way to succeed is for the
  probe to report that the table is gone.
- `SqlInjectionLesson6a` (advanced UNION assignment). A hand-written scan stands
  in for the regular expression `(?i)(^[^-/*;)]*)(\s*)UNION(.*$)` matched with
  `String.matches`. It is proved equal to a declarative split of the input into
  three parts: a prefix without `- / * ; )`, the keyword in any ASCII case, and
  a rest without line terminators. The verdict is a success exactly when the
  scan fires and rows came back. The model also covers the two helpers that no
  live code calls.
- `Servers` (mitigation lesson). A fixed whitelist chooses the `ORDER BY`
  column. The model proves that request text reaches the SQL only when it
  equals one of the six allowed names. The cursor loop produces one `Server`
  per row, in row order.

Supporting modules:
- `Jdbc`: statements, exceptions, the `Step` outcome type, and the `Cursor`
  class with `first`, `beforeFirst`, `last`, `next`, `getRow` and `getString`.
- `Assignments`: the `AttackResult` record.
- `Text`: `String.contains`, the decimal printing of an int, and
  `StringBuilder`.

Each endpoint's collaborators are parameters. These are the database (a
function from the statement to its outcome), SqlInjectionLesson8's table
renderer, the table probe, and the second connection in Lesson 10's handler.

Two facts about the code shape the model:
- In the live code of lesson 6a, success depends on the UNION check and the
  row count. The tokens `dave` and `passW0rD` are checked only in
  `verifySqlInjection`, which nothing calls.
- Lesson 10's `tableExists` recognises a missing table in two ways: the
  probe's error message contains the substring `object not found: ACCESS_LOG`,
  or the probe succeeds with no columns.

The Java `\s` escape appears inside a string literal. Since Java 15 that is the
escape for a single space, so the group is ` *`. `RegexMatches` models the
group that way, and `RegexMeansUnionSpec` shows the prefix class absorbs it.

## Model

| member | source | states |
|---|---|---|
| `SqlInjectionLesson10.TableExists` | src/main/java/org/owasp/webgoat/lessons/sqlinjection/introduction/SqlInjectionLesson10.java:119-136 | A described probe result means the table exists exactly when the column count is positive. A failed probe means it is missing exactly when the message contains `object not found: ACCESS_LOG`. |
| `SqlInjectionLesson10.ProbeRecognisesMissingTable` | src/main/java/org/owasp/webgoat/lessons/sqlinjection/introduction/SqlInjectionLesson10.java:128-131 | The database's dropped-table message `user lacks privilege or object not found: ACCESS_LOG` makes the probe report the table missing. |
| `SqlInjectionLesson10.ProbeRecognisesPresentTable` | src/main/java/org/owasp/webgoat/lessons/sqlinjection/introduction/SqlInjectionLesson10.java:126-134 | Any other error message, or a result with columns, counts as the table being present. Zero columns counts as missing. |
| `SqlInjectionLesson10.InjectableQueryAvailability` | src/main/java/org/owasp/webgoat/lessons/sqlinjection/introduction/SqlInjectionLesson10.java:52-117 | The step-by-step method (cursor moved by first(), rewound by beforeFirst(), StringBuilder output) gives exactly `Availability`. After the rewind, the renderer sees every row. On the SQLException path, the output buffer is still empty. |
| `SqlInjectionLesson10.ActionIsBoundNotConcatenated` | src/main/java/org/owasp/webgoat/lessons/sqlinjection/introduction/SqlInjectionLesson10.java:54-64 | The SQL text is always `SELECT * FROM access_log WHERE action LIKE ?`, whatever the action. The only bound value is `%` + action + `%`. Two actions give the same statement only when they are equal. |
| `SqlInjectionLesson10.SuccessOnlyWhenTableMissing` | src/main/java/org/owasp/webgoat/lessons/sqlinjection/introduction/SqlInjectionLesson10.java:69-106 | Success holds if and only if the probe reports the table missing and either (a) the query returned no rows or (b) an SQLException escaped and the handler could reconnect. A success carries only the key `sql-injection.10.success`. |
| `SqlInjectionLesson10.NoEntriesInExistingTable` | src/main/java/org/owasp/webgoat/lessons/sqlinjection/introduction/SqlInjectionLesson10.java:69-75 | No rows and an existing table give a failure with the key `sql-injection.10.entries` and empty output. |
| `SqlInjectionLesson10.RenderedRowsFail` | src/main/java/org/owasp/webgoat/lessons/sqlinjection/introduction/SqlInjectionLesson10.java:83-90 | Rows that render give a failure with the key `sql-injection.10.entries`, and the output is the rendered table. |
| `SqlInjectionLesson10.SqlFailureWithTablePresent` | src/main/java/org/owasp/webgoat/lessons/sqlinjection/introduction/SqlInjectionLesson10.java:85-101 | An SQLException while the table exists, thrown by running the query or by rendering a non-empty result, gives a failure whose output is `<span class='feedback-negative'>` + message + `</span><br>`. |
| `SqlInjectionLesson10.OtherFailuresNeverSucceed` | src/main/java/org/owasp/webgoat/lessons/sqlinjection/introduction/SqlInjectionLesson10.java:85-116 | Take an exception thrown by running the query or by rendering a non-empty result. If it is not an SQLException, or the handler cannot reconnect, the result is a failure, never a success. Its output shows the message of that exception, or of the failed reconnect, in the negative span. |
| `SqlInjectionLesson6a.UnionQueryChecker` | src/main/java/org/owasp/webgoat/lessons/sqlinjection/advanced/SqlInjectionLesson6a.java:78-80 | The checker is true if and only if the input splits as prefix + `UNION` (any ASCII case) + rest. The prefix has none of `- / * ; )`. The rest has no line terminator (`\n`, `\r`, U+0085, U+2028, U+2029). |
| `SqlInjectionLesson6a.UnionFrom` | src/main/java/org/owasp/webgoat/lessons/sqlinjection/advanced/SqlInjectionLesson6a.java:79 | Starting from a safe prefix, the scan is true exactly when some later offset starts a matching split. It stops at the first forbidden character. |
| `SqlInjectionLesson6a.RegexMeansUnionSpec` | src/main/java/org/owasp/webgoat/lessons/sqlinjection/advanced/SqlInjectionLesson6a.java:79 | The regex read group by group (prefix class, ` *`, keyword, `.*` to the end) matches exactly the inputs of the three-part split. |
| `SqlInjectionLesson6a.UnionAtSplit` | src/main/java/org/owasp/webgoat/lessons/sqlinjection/advanced/SqlInjectionLesson6a.java:79 | Any safe prefix, followed by the keyword, followed by a single-line rest, is detected. |
| `SqlInjectionLesson6a.DocumentedAnswerIsUnion` | src/main/java/org/owasp/webgoat/lessons/sqlinjection/advanced/SqlInjectionLesson6a.java:48-49 | The documented answer `Smith' union select userid,user_name, password,cookie,cookie, cookie,userid from user_system_data --` is detected as a UNION attack. |
| `SqlInjectionLesson6a.PlainNameIsNotUnion` | src/main/java/org/owasp/webgoat/lessons/sqlinjection/advanced/SqlInjectionLesson6a.java:79 | `Smith` is not detected. |
| `SqlInjectionLesson6a.ForbiddenBeforeOnlyUnion` | src/main/java/org/owasp/webgoat/lessons/sqlinjection/advanced/SqlInjectionLesson6a.java:79 | A `-` or `)` before the only occurrence of the keyword means the input is not detected. |
| `SqlInjectionLesson6a.LineBreakAfterUnion` | src/main/java/org/owasp/webgoat/lessons/sqlinjection/advanced/SqlInjectionLesson6a.java:79 | `x UNION` followed by a newline is not detected, because `.` does not match a line terminator and `matches` needs the whole input. |
| `SqlInjectionLesson6a.AccountNameIsBoundNotConcatenated` | src/main/java/org/owasp/webgoat/lessons/sqlinjection/advanced/SqlInjectionLesson6a.java:53-64 | The SQL text is always `SELECT * FROM user_data WHERE last_name = ?`. The account name is the one bound value, unchanged. |
| `SqlInjectionLesson6a.BuildAttackResult` | src/main/java/org/owasp/webgoat/lessons/sqlinjection/advanced/SqlInjectionLesson6a.java:83-97 | Success holds if and only if a UNION was detected and the cursor has rows. On success the output is `Well done, your query returned N rows.`, where N is the row count read by getRow() after last(). Otherwise it is `No results for that last name. YOUR QUERY WAS: ` + query. After a UNION with rows the cursor is on the last row; otherwise it is not moved. |
| `SqlInjectionLesson6a.InjectableQuery` | src/main/java/org/owasp/webgoat/lessons/sqlinjection/advanced/SqlInjectionLesson6a.java:52-76 | An exception gives the output class name + ` : ` + message + `<br> Your query was: ` + query. Otherwise success holds if and only if the input is a UNION split and rows came back, so rows without a UNION are a failure with the no-results output. |
| `SqlInjectionLesson6a.AppendSuccededMessage` | src/main/java/org/owasp/webgoat/lessons/sqlinjection/advanced/SqlInjectionLesson6a.java:120-126 | The message is the fixed prefix, followed by `appending a new SQL Statement?` when a UNION was used, or `using a UNION?` otherwise. |
| `SqlInjectionLesson6a.AppendSuccededMessageIsInjective` | src/main/java/org/owasp/webgoat/lessons/sqlinjection/advanced/SqlInjectionLesson6a.java:120-126 | The two messages differ, so the message tells which technique was used. |
| `SqlInjectionLesson6a.RevealsSecretNeedsBoth` | src/main/java/org/owasp/webgoat/lessons/sqlinjection/advanced/SqlInjectionLesson6a.java:130 | `dave passW0rD` passes the secret test, but `dave` alone does not. |
| `SqlInjectionLesson6a.VerifySqlInjection` | src/main/java/org/owasp/webgoat/lessons/sqlinjection/advanced/SqlInjectionLesson6a.java:128-140 | Without both `dave` and `passW0rD`, the result is a failure with output + `<br> Your query was: ` + query, and the buffer is unchanged. With both, the hint is appended to the buffer. The success then carries `sql-injection.advanced.6a.success`, the extended buffer as its one feedback argument, and ` Your query was: ` + query. |
| `Servers.WhitelistIsIdentity` | src/main/java/org/owasp/webgoat/lessons/sqlinjection/mitigation/Servers.java:51-58 | The whitelist's keys are exactly the six names `id, hostname, ip, mac, status, description`, and each maps to itself. |
| `Servers.OrderBy` | src/main/java/org/owasp/webgoat/lessons/sqlinjection/mitigation/Servers.java:61 | The chosen column is always an allowed name. It is the request's column when that is exactly (case-sensitively) allowed, and `id` otherwise. |
| `Servers.OrderByIsIdempotent` | src/main/java/org/owasp/webgoat/lessons/sqlinjection/mitigation/Servers.java:51-61 | Feeding the chosen column back in chooses the same column. |
| `Servers.SortSqlIsWhitelisted` | src/main/java/org/owasp/webgoat/lessons/sqlinjection/mitigation/Servers.java:61-67 | Every request yields one of the six whitelisted statements, and an unknown column yields the `id` statement. Two requests give the same SQL exactly when they choose the same column. |
| `Servers.SixSortStatements` | src/main/java/org/owasp/webgoat/lessons/sqlinjection/mitigation/Servers.java:63-67 | Exactly six SQL strings are possible. |
| `Servers.ReadServer` | src/main/java/org/owasp/webgoat/lessons/sqlinjection/mitigation/Servers.java:74-81 | A current row with six columns becomes the Server built from columns 1..6 in the field order id, hostname, ip, mac, status, description. Otherwise getString throws. |
| `Servers.Sort` | src/main/java/org/owasp/webgoat/lessons/sqlinjection/mitigation/Servers.java:47-87 | A database exception propagates. Otherwise the list has one Server per row, in cursor order, built from columns 1..6, and an empty cursor gives an empty list. A row without six columns makes getString's exception propagate. |
| `Text.DecimalString` | src/main/java/org/owasp/webgoat/lessons/sqlinjection/advanced/SqlInjectionLesson6a.java:90 | The row number is printed as non-empty decimal digits with no leading zero. |
| `Text.DecimalRoundTrip` | src/main/java/org/owasp/webgoat/lessons/sqlinjection/advanced/SqlInjectionLesson6a.java:90 | Reading the printed row number back gives the number. |
| `Text.Contains` | src/main/java/org/owasp/webgoat/lessons/sqlinjection/introduction/SqlInjectionLesson10.java:130 | `contains` is true for the empty string and for any prefix of the string, and false for any longer string. |
| `Text.ContainsInContext` | src/main/java/org/owasp/webgoat/lessons/sqlinjection/advanced/SqlInjectionLesson6a.java:130 | A substring of a string is also a substring of any string that surrounds it. |
| `Text.StringBuilder.Append` | src/main/java/org/owasp/webgoat/lessons/sqlinjection/advanced/SqlInjectionLesson6a.java:134 | `append` leaves the old content followed by the appended text. |
| `Jdbc.Cursor.GetString` | src/main/java/org/owasp/webgoat/lessons/sqlinjection/mitigation/Servers.java:76-81 | `getString(k)` on a current row with at least k columns gives column k (1-based). With no current row, or a column out of range, it throws an SQLException. |
| `Jdbc.Cursor.Last` | src/main/java/org/owasp/webgoat/lessons/sqlinjection/advanced/SqlInjectionLesson6a.java:88 | last() is true exactly when there are rows, and it then moves to the last row. |
| `Jdbc.Cursor.GetRow` | src/main/java/org/owasp/webgoat/lessons/sqlinjection/advanced/SqlInjectionLesson6a.java:88-90 | getRow() is the 1-based position on a row, and 0 when there is no current row. |
| `Jdbc.Cursor.First` | src/main/java/org/owasp/webgoat/lessons/sqlinjection/introduction/SqlInjectionLesson10.java:69 | first() is true exactly when there are rows, and it then moves to row 1. |
| `Jdbc.Cursor.BeforeFirst` | src/main/java/org/owasp/webgoat/lessons/sqlinjection/introduction/SqlInjectionLesson10.java:84 | beforeFirst() rewinds the cursor, so every row is unread again. |
| `Jdbc.Cursor.Next` | src/main/java/org/owasp/webgoat/lessons/sqlinjection/mitigation/Servers.java:73 | next() advances one row and is true while the cursor is on a row. |

## Left out

- Connection acquisition, statement preparation, parameter binding and try-with-resources closing are JDBC calls. Their outcome is one input: the rows, or the exception thrown.
- The database's own work (`LIKE` matching, `WHERE status <> 'out of order'`, `ORDER BY`) is not modelled. Which rows come back, and in what order, is an input.
- SqlInjectionLesson8.generateTable and SqlInjectionLesson5a.writeTable are not part of this model. The renderer is a parameter that may throw.
- Lines 99-118 of SqlInjectionLesson6a.java are statements outside any method and do not compile, so they are not modelled. `appendSuccededMessage` and `verifySqlInjection`, modelled above, therefore have no live caller.
- The unused field `results` of SqlInjectionLesson6a is left out.
- The `Statement` and `ResultSet` that `tableExists` leaves open are left out, because resource leaks are not expressed here.
- `results == null` after executeQuery is left out, because JDBC never returns null there.
- Null parameters, null exception messages and SQL NULL column values (for which `getString` returns null) are left out. The same goes for exceptions from `tableExists` other than the SQLException it catches, and for SQLExceptions from cursor moves other than getString.
- Spring routing, `@AssignmentHints` and the builder's own defaults are left out. When a builder is given no feedback key the model has `None`, and when it is given no output the model has `""`.
- The class name in lesson 6a's exception output is the declared class name. A runtime proxy subclass would print a different name.
- The database can see a different `access_log` state on the handler's second connection than on the first. The model gives one probe result, because each run consults the probe at most once.
- The wording of the driver's SQLException for a missing column is not modelled. It is a fixed placeholder message.
- Java's 32-bit `int` row number is modelled as an unbounded `nat`, because a result set cannot have more than 2^31 - 1 rows.
- Java strings are UTF-16. The model's characters are Unicode scalar values. The pattern's classes and the line terminators are all in the Basic Multilingual Plane and `.` matches a whole code point, so the two views agree for this pattern.
