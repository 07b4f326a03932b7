/** The advanced UNION assignment: the learner's last name is bound into a
    prepared statement, a pattern check tells whether the input looks like a
    UNION attack, and the attempt succeeds when it does and rows came back. */
module SqlInjectionLesson6a {
  import opened Text
  import opened Jdbc
  import opened Assignments

  const UserDataQuery := "SELECT * FROM user_data WHERE last_name = ?"
  const YourQueryWas := "<br> Your query was: "
  /** The fully qualified name of the endpoint's class. */
  const ClassName := "org.owasp.webgoat.lessons.sqlinjection.advanced.SqlInjectionLesson6a"
  const NoResults := "No results for that last name. YOUR QUERY WAS: "
  const WellDonePrefix := "Well done! Can you also figure out a solution, by "
  const AppendHint := "appending a new SQL Statement?"
  const UnionHint := "using a UNION?"
  const SuccessKey := "sql-injection.advanced.6a.success"

  // ---------------------------------------------------------------------
  // The UNION detector: the whole account name must match a pattern made of
  // a prefix class, a run of spaces, the keyword in any case and a rest
  // that runs to the end of the input
  // ---------------------------------------------------------------------

  /** The characters the prefix class of the pattern rejects. */
  predicate Forbidden(c: char)
  {
    c == '-' || c == '/' || c == '*' || c == ';' || c == ')'
  }

  /** The characters `.` does not match: Java's line terminators. */
  predicate LineTerminator(c: char)
  {
    c == '\n' || c == '\r' || c == '\U{0085}' || c == '\U{2028}' || c == '\U{2029}'
  }

  /** Upper-casing of US-ASCII letters only, which is what (?i) uses
      without the UNICODE_CASE flag. */
  function AsciiUpper(c: char): char
  {
    if 'a' <= c <= 'z' then (c as int - 32) as char else c
  }

  predicate SafePrefix(p: string)
  {
    forall k :: 0 <= k < |p| ==> !Forbidden(p[k])
  }

  predicate SingleLine(r: string)
  {
    forall k :: 0 <= k < |r| ==> !LineTerminator(r[k])
  }

  predicate Spaces(w: string)
  {
    forall k :: 0 <= k < |w| ==> w[k] == ' '
  }

  /** `UNION` in any ASCII letter case. */
  predicate UnionKeyword(u: string)
  {
    |u| == 5 && forall k :: 0 <= k < 5 ==> AsciiUpper(u[k]) == "UNION"[k]
  }

  /** An occurrence of the keyword at offset i. */
  predicate KeywordAt(s: string, i: int)
  {
    0 <= i <= |s| - 5 && UnionKeyword(s[i..i + 5])
  }

  /** The keyword starts at offset j and everything after it is on one
      line. */
  predicate KeywordThenLine(s: string, j: int)
  {
    KeywordAt(s, j) && SingleLine(s[j + 5..])
  }

  /** Everything before offset i is a safe prefix, and the keyword followed
      by a single line starts there. */
  predicate UnionAt(s: string, i: int)
  {
    KeywordThenLine(s, i) && SafePrefix(s[..i])
  }

  /** The declarative meaning of the detector: s = p + u + r with p free of
      `- / * ; )`, u the keyword and r free of line terminators. */
  ghost predicate UnionSpec(s: string)
  {
    exists i :: UnionAt(s, i)
  }

  /** The regular expression group by group: the prefix class, the ` *`
      group, the keyword and `.*` up to the end of the input. */
  ghost predicate RegexMatches(s: string)
  {
    exists i, j :: 0 <= i <= j <= |s| && SafePrefix(s[..i]) && Spaces(s[i..j]) && KeywordThenLine(s, j)
  }

  /** The ` *` group is absorbed by the prefix class, so the regular
      expression means exactly UnionSpec. */
  lemma RegexMeansUnionSpec(s: string)
    ensures RegexMatches(s) <==> UnionSpec(s)
  {
    if RegexMatches(s) {
      var i, j :| 0 <= i <= j <= |s| && SafePrefix(s[..i]) && Spaces(s[i..j]) && KeywordThenLine(s, j);
      forall k | 0 <= k < j
        ensures !Forbidden(s[..j][k])
      {
        if k < i {
          assert s[..j][k] == s[..i][k];
        } else {
          assert s[..j][k] == s[i..j][k - i];
        }
      }
      assert UnionAt(s, j);
    }
    if UnionSpec(s) {
      var i :| UnionAt(s, i);
      assert s[i..i] == [];
      assert KeywordThenLine(s, i);
    }
  }

  /** The scan behind unionQueryChecker: try each offset from i on as the
      keyword's start, stopping at the first forbidden character. */
  function UnionFrom(s: string, i: nat): (found: bool)
    requires i <= |s| && SafePrefix(s[..i])
    ensures found <==> exists j :: i <= j && UnionAt(s, j)
    decreases |s| - i
  {
    if i + 5 > |s| then false
    else if UnionKeyword(s[i..i + 5]) && SingleLine(s[i + 5..]) then
      assert UnionAt(s, i);
      true
    else if Forbidden(s[i]) then
      assert forall j :: i < j <= |s| ==> !SafePrefix(s[..j]) by {
        forall j | i < j <= |s| ensures !SafePrefix(s[..j]) {
          assert s[..j][i] == s[i];
        }
      }
      false
    else
      assert s[..i + 1] == s[..i] + [s[i]];
      UnionFrom(s, i + 1)
  }

  /** unionQueryChecker: true exactly when the whole input matches the
      pattern. */
  function UnionQueryChecker(accountName: string): (usedUnion: bool)
    ensures usedUnion <==> UnionSpec(accountName)
  {
    UnionFrom(accountName, 0)
  }

  lemma SingleLineConcat(a: string, b: string)
    requires SingleLine(a) && SingleLine(b)
    ensures SingleLine(a + b)
  {
  }

  /** Any safe prefix, keyword and single-line rest make a detected input. */
  lemma UnionAtSplit(p: string, u: string, r: string)
    requires SafePrefix(p) && UnionKeyword(u) && SingleLine(r)
    ensures UnionAt(p + u + r, |p|) && UnionQueryChecker(p + u + r)
  {
    var s := p + u + r;
    assert s[..|p|] == p && s[|p|..|p| + 5] == u && s[|p| + 5..] == r;
    assert UnionAt(s, |p|);
  }

  /** What the documented answer injects after the keyword. */
  const DocumentedRest := " select userid," + "user_name, password," + "cookie,cookie, "
    + "cookie,userid " + "from user_system_data" + " --"

  /** The answer the lesson documents: a name, the keyword, the rest. */
  const DocumentedAnswer := "Smith' " + "union" + DocumentedRest

  lemma DocumentedRestIsSingleLine()
    ensures SingleLine(DocumentedRest)
  {
    var r1, r2, r3 := " select userid,", "user_name, password,", "cookie,cookie, ";
    var r4, r5, r6 := "cookie,userid ", "from user_system_data", " --";
    SingleLineConcat(r1, r2);
    SingleLineConcat(r1 + r2, r3);
    SingleLineConcat(r1 + r2 + r3, r4);
    SingleLineConcat(r1 + r2 + r3 + r4, r5);
    SingleLineConcat(r1 + r2 + r3 + r4 + r5, r6);
  }

  /** The documented answer is detected as a UNION attack. */
  lemma DocumentedAnswerIsUnion()
    ensures UnionQueryChecker(DocumentedAnswer)
  {
    DocumentedRestIsSingleLine();
    UnionAtSplit("Smith' ", "union", DocumentedRest);
  }

  /** A plain last name is not. */
  lemma PlainNameIsNotUnion()
    ensures !UnionQueryChecker("Smith")
  {
    var s := "Smith";
    assert s[0..5] == s;
    assert AsciiUpper(s[0]) != 'U';
  }

  /** A comment dash or a closing parenthesis before the only occurrence of
      the keyword defeats the detector. */
  lemma ForbiddenBeforeOnlyUnion(s: string, j: nat, k: nat)
    requires k < j && KeywordAt(s, j)
    requires forall i :: KeywordAt(s, i) ==> i == j
    requires s[k] == '-' || s[k] == ')'
    ensures !UnionQueryChecker(s)
  {
    if UnionSpec(s) {
      var i :| UnionAt(s, i);
      assert KeywordAt(s, i);
    }
  }

  /** `.` does not match a line terminator, so a keyword followed by a line
      break is not detected when no other keyword follows. */
  lemma LineBreakAfterUnion()
    ensures !UnionQueryChecker("x UNION\n")
  {
    var s := "x UNION\n";
    forall i | 0 <= i <= |s| - 5
      ensures !UnionAt(s, i)
    {
      if i != 2 {
        assert s[i..i + 5][0] == s[i];
        assert AsciiUpper(s[i]) != 'U';
      } else {
        assert s[i + 5..][0] == '\n';
      }
    }
  }

  // ---------------------------------------------------------------------
  // The endpoint
  // ---------------------------------------------------------------------

  /** The statement sent to the database: constant SQL text with the
      account name as its one bound value. */
  function UserDataStatement(accountName: string): Statement
  {
    Statement(UserDataQuery, [accountName])
  }

  /** The account name never changes the SQL text and is passed on as it is. */
  lemma AccountNameIsBoundNotConcatenated(a: string, b: string)
    ensures UserDataStatement(a).sql == UserDataQuery
    ensures UserDataStatement(a).parameters == [a]
    ensures UserDataStatement(a) == UserDataStatement(b) <==> a == b
  {
  }

  function WellDone(rowCount: nat): string
  {
    "Well done, your query returned " + DecimalString(rowCount) + " rows."
  }

  /** buildAttackResult: success exactly when the pattern check found a
      UNION and the cursor, moved to its last row, is on a row; the row
      number there is the row count. */
  method BuildAttackResult(results: Cursor, usedUnion: bool, query: string) returns (r: AttackResult)
    requires results.Valid()
    modifies results
    ensures results.Valid()
    ensures r.success <==> usedUnion && |results.rows| > 0
    ensures r.success ==> r.output == WellDone(|results.rows|)
    ensures !r.success ==> r.output == NoResults + query
    ensures r.feedback == None && r.feedbackArgs == []
    ensures results.pos == if usedUnion && results.rows != [] then |results.rows| else old(results.pos)
  {
    if usedUnion {
      var onRow := results.Last();
      if onRow {
        var row := results.GetRow();
        if row > 0 {
          return AttackResult(true, None, WellDone(row), []);
        }
      }
    }
    return Failed(None, NoResults + query);
  }

  /** injectableQuery: any exception is reported with the class name, the
      message and the query; otherwise the verdict is success exactly when
      the input was detected as a UNION attack and rows came back. */
  method InjectableQuery(accountName: string, execute: Statement -> Step<seq<Row>>) returns (r: AttackResult)
    ensures execute(UserDataStatement(accountName)).Thrown? ==>
      r == Failed(None, ClassName + " : " + execute(UserDataStatement(accountName)).failure.message
                        + YourQueryWas + UserDataQuery)
    ensures r.success <==>
      execute(UserDataStatement(accountName)).Ok? && UnionSpec(accountName) &&
      |execute(UserDataStatement(accountName)).value| > 0
    ensures r.success ==> r.output == WellDone(|execute(UserDataStatement(accountName)).value|)
    ensures execute(UserDataStatement(accountName)).Ok? && !r.success ==> r.output == NoResults + UserDataQuery
    ensures r.feedback == None && r.feedbackArgs == []
  {
    var query := UserDataQuery;
    var usedUnion := UnionQueryChecker(accountName);
    var executed := execute(UserDataStatement(accountName));
    if executed.Thrown? {
      return Failed(None, ClassName + " : " + executed.failure.message + YourQueryWas + query);
    }
    var results := new Cursor(executed.value);
    r := BuildAttackResult(results, usedUnion, query);
  }

  // ---------------------------------------------------------------------
  // Helpers without a live caller (their one caller does not compile)
  // ---------------------------------------------------------------------

  /** appendSuccededMessage: the fixed prefix, then the hint for the
      technique the learner did not use. */
  function AppendSuccededMessage(isUsedUnion: bool): (message: string)
    ensures |WellDonePrefix| < |message| && message[..|WellDonePrefix|] == WellDonePrefix
    ensures message[|WellDonePrefix|..] == if isUsedUnion then AppendHint else UnionHint
  {
    WellDonePrefix + (if isUsedUnion then AppendHint else UnionHint)
  }

  /** The message tells which technique was used. */
  lemma AppendSuccededMessageIsInjective(a: bool, b: bool)
    ensures AppendSuccededMessage(a) == AppendSuccededMessage(b) <==> a == b
  {
  }

  /** The rendered rows reveal Dave's password. */
  predicate RevealsSecret(text: string)
  {
    Contains(text, "dave") && Contains(text, "passW0rD")
  }

  /** Both tokens are needed: one of them alone is not enough. */
  lemma RevealsSecretNeedsBoth()
    ensures RevealsSecret("dave passW0rD")
    ensures !RevealsSecret("dave")
  {
    var s := "dave passW0rD";
    assert s[0..][..4] == "dave";
    assert s[5..] == "passW0rD";
    assert Contains(s, "dave") && Contains(s, "passW0rD");
  }

  /** verifySqlInjection: failure echoing the output and the query unless
      the output holds both secret tokens; on success the hint is appended
      to the output buffer, which becomes the feedback argument. */
  method VerifySqlInjection(output: StringBuilder, appendingWhenSucceded: string, query: string)
    returns (r: AttackResult)
    modifies output
    ensures r.success <==> RevealsSecret(old(output.content))
    ensures !r.success ==> output.content == old(output.content)
    ensures !r.success ==> r == Failed(None, old(output.content) + YourQueryWas + query)
    ensures r.success ==> output.content == old(output.content) + appendingWhenSucceded
    ensures r.success ==>
      r == AttackResult(true, Some(SuccessKey), " Your query was: " + query, [output.content])
  {
    if !(Contains(output.ToString(), "dave") && Contains(output.ToString(), "passW0rD")) {
      return Failed(None, output.ToString() + YourQueryWas + query);
    }
    output.Append(appendingWhenSucceded);
    return AttackResult(true, Some(SuccessKey), " Your query was: " + query, [output.ToString()]);
  }
}
