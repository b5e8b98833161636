/** The service's client side of rqlite: rqlite takes literal SQL text only, so
    `executeRQLiteQuery` and `queryRQLite` (server.js) splice the parameters into
    the `?`-templated statement before posting it; and the rqlite reply shape
    `{results: [{columns, values, rows_affected}]}` is turned into records. The
    HTTP exchange itself is not modelled: the SQL text is the output, the reply
    an input. */
module Rqlite {
  import opened JsValues
  import opened Strings

  // ---------------------------------------------------------------------------
  // Parameter substitution
  // ---------------------------------------------------------------------------

  /** What `executeRQLiteQuery` puts in place of a `?`: `null` becomes `NULL`,
      anything else its rendering between single quotes, with no escaping. */
  function ExecLiteral(p: JsValue): string {
    if p == Null then "NULL" else "'" + Render(p) + "'"
  }

  /** What the `datetime(?)` pass of `queryRQLite` inserts. */
  function DatetimeLiteral(p: JsValue): string {
    "datetime('" + Render(p) + "')"
  }

  /** What the plain `?` pass of `queryRQLite` inserts (here `null` is not
      special). */
  function QuotedLiteral(p: JsValue): string {
    "'" + Render(p) + "'"
  }

  function ExecLiterals(ps: seq<JsValue>): (r: seq<string>)
    ensures |r| == |ps| && forall i :: 0 <= i < |ps| ==> r[i] == ExecLiteral(ps[i])
  {
    if ps == [] then [] else [ExecLiteral(ps[0])] + ExecLiterals(ps[1..])
  }

  function DatetimeLiterals(ps: seq<JsValue>): (r: seq<string>)
    ensures |r| == |ps| && forall i :: 0 <= i < |ps| ==> r[i] == DatetimeLiteral(ps[i])
  {
    if ps == [] then [] else [DatetimeLiteral(ps[0])] + DatetimeLiterals(ps[1..])
  }

  function QuotedLiterals(ps: seq<JsValue>): (r: seq<string>)
    ensures |r| == |ps| && forall i :: 0 <= i < |ps| ==> r[i] == QuotedLiteral(ps[i])
  {
    if ps == [] then [] else [QuotedLiteral(ps[0])] + QuotedLiterals(ps[1..])
  }

  const Mark: string := "?"
  const DatetimeHole: string := "datetime(?)"

  /** The SQL text `executeRQLiteQuery(sql, params)` posts to `/db/execute`. */
  function ExecuteText(sql: string, params: seq<JsValue>): string {
    if |params| > 0 then ReplaceEach(sql, Mark, ExecLiterals(params)) else sql
  }

  /** The SQL text `queryRQLite(sql, params)` posts to `/db/query`: a
      `datetime(?)` pass, then a `?` pass that starts again from the first
      parameter. */
  function QueryText(sql: string, params: seq<JsValue>): string {
    if |params| > 0
    then ReplaceEach(ReplaceEach(sql, DatetimeHole, DatetimeLiterals(params)), Mark, QuotedLiterals(params))
    else sql
  }

  /** The substitution loop of `executeRQLiteQuery`. */
  method ExecuteSql(sql: string, params: seq<JsValue>) returns (finalSql: string)
    ensures |params| == 0 ==> finalSql == sql
    ensures finalSql == ExecuteText(sql, params)
  {
    finalSql := sql;
    if |params| > 0 {
      ghost var lits := ExecLiterals(params);
      for k := 0 to |params|
        invariant ReplaceEach(finalSql, Mark, lits[k..]) == ReplaceEach(sql, Mark, lits)
      {
        assert lits[k..][1..] == lits[k + 1..];
        if params[k] == Null {
          finalSql := ReplaceFirst(finalSql, Mark, "NULL");
        } else {
          finalSql := ReplaceFirst(finalSql, Mark, "'" + Render(params[k]) + "'");
        }
      }
    }
  }

  /** The two substitution loops of `queryRQLite`. */
  method QuerySql(sql: string, params: seq<JsValue>) returns (finalSql: string)
    ensures |params| == 0 ==> finalSql == sql
    ensures finalSql == QueryText(sql, params)
  {
    finalSql := sql;
    if |params| > 0 {
      ghost var dates := DatetimeLiterals(params);
      for k := 0 to |params|
        invariant ReplaceEach(finalSql, DatetimeHole, dates[k..]) == ReplaceEach(sql, DatetimeHole, dates)
      {
        assert dates[k..][1..] == dates[k + 1..];
        finalSql := ReplaceFirst(finalSql, DatetimeHole, "datetime('" + Render(params[k]) + "')");
      }
      ghost var afterDates := finalSql;
      ghost var quoted := QuotedLiterals(params);
      for k := 0 to |params|
        invariant ReplaceEach(finalSql, Mark, quoted[k..]) == ReplaceEach(afterDates, Mark, quoted)
      {
        assert quoted[k..][1..] == quoted[k + 1..];
        finalSql := ReplaceFirst(finalSql, Mark, "'" + Render(params[k]) + "'");
      }
    }
  }

  // ---------------------------------------------------------------------------
  // Properties of the substitution
  // ---------------------------------------------------------------------------

  lemma MarkIsSingle()
    ensures SingleMark(Mark, 0)
  {
  }

  lemma DatetimeHoleIsSingle()
    ensures SingleMark(DatetimeHole, 9)
  {
  }

  /** A value whose rendering holds no `?`. */
  predicate Plain(p: JsValue) {
    MarkFree(Render(p))
  }

  /** `null` alone becomes `NULL`; `undefined` becomes the quoted text
      `'undefined'`; every other value is its rendering between single quotes,
      with any quote inside it left as it is. */
  lemma ExecLiteralCases(p: JsValue)
    ensures ExecLiteral(p) == "NULL" <==> p == Null
    ensures p == Undefined ==> ExecLiteral(p) == "'undefined'"
    ensures p != Null ==> ExecLiteral(p) == "'" + Render(p) + "'"
    ensures p.Str? ==> ExecLiteral(p) == "'" + p.s + "'"
  {
    if p != Null {
      assert ExecLiteral(p)[0] == '\'' != "NULL"[0];
    }
  }

  /** The three literal forms of a value hold a `?` only if its rendering does. */
  lemma PlainLiteral(p: JsValue)
    requires Plain(p)
    ensures MarkFree(ExecLiteral(p)) && MarkFree(DatetimeLiteral(p)) && MarkFree(QuotedLiteral(p))
  {
    var r := Render(p);
    assert MarkFree("'") && MarkFree("datetime('") && MarkFree("')");
    MarkFreeConcat("'", r);
    MarkFreeConcat("'" + r, "'");
    MarkFreeConcat("datetime('", r);
    MarkFreeConcat("datetime('" + r, "')");
  }

  lemma PlainLiterals(ps: seq<JsValue>)
    requires forall i :: 0 <= i < |ps| ==> Plain(ps[i])
    ensures forall i :: 0 <= i < |ps| ==> MarkFree(ExecLiterals(ps)[i])
    ensures forall i :: 0 <= i < |ps| ==> MarkFree(DatetimeLiterals(ps)[i])
    ensures forall i :: 0 <= i < |ps| ==> MarkFree(QuotedLiterals(ps)[i])
  {
    forall i | 0 <= i < |ps|
      ensures MarkFree(ExecLiterals(ps)[i]) && MarkFree(DatetimeLiterals(ps)[i]) && MarkFree(QuotedLiterals(ps)[i])
    {
      PlainLiteral(ps[i]);
    }
  }

  /** With an empty parameter list both functions return the statement as it is. */
  lemma NoParamsUnchanged(sql: string)
    ensures ExecuteText(sql, []) == sql && QueryText(sql, []) == sql
  {
  }

  /** Each parameter in turn replaces the first `?` of the text the earlier
      parameters left; when no `?` remains the text stays and the parameter is
      dropped. */
  lemma {:induction false} ExecuteStep(s: string, p: JsValue, rest: seq<JsValue>)
    ensures forall i: nat :: IsFirstMatch(s, Mark, i) ==>
      ExecuteText(s, [p] + rest) == ExecuteText(s[..i] + ExecLiteral(p) + s[i + 1..], rest)
    ensures (forall j: nat :: !MatchAt(s, Mark, j)) ==> ExecuteText(s, [p] + rest) == ExecuteText(s, rest)
  {
    var lits := ExecLiterals([p] + rest);
    assert lits[0] == ExecLiteral(p);
    assert lits[1..] == ExecLiterals(rest);
    var s' := ReplaceFirst(s, Mark, ExecLiteral(p));
    assert ExecuteText(s, [p] + rest) == ReplaceEach(s', Mark, ExecLiterals(rest));
    if rest == [] {
      assert ExecLiterals(rest) == [];
      assert ReplaceEach(s', Mark, ExecLiterals(rest)) == s' == ExecuteText(s', rest);
    }
    assert ReplaceEach(s', Mark, ExecLiterals(rest)) == ExecuteText(s', rest);
  }

  /** When no parameter renders a `?`, `executeRQLiteQuery` fills the
      statement's placeholders positionally: parameter `i` lands in the `i`-th
      `?` of the original text. */
  lemma ExecutePositional(sql: string, params: seq<JsValue>)
    requires forall i :: 0 <= i < |params| ==> Plain(params[i])
    ensures ExecuteText(sql, params) == Fill(SplitMarks(sql), Mark, ExecLiterals(params))
  {
    var segs := SplitMarks(sql);
    PlainLiterals(params);
    MarkIsSingle();
    ReplaceEachFillsTemplate(segs, Mark, 0, ExecLiterals(params));
    if |params| == 0 {
      assert ExecLiterals(params) == [];
      assert Fill(segs, Mark, []) == Holes(segs, Mark);
    }
  }

  /** Placeholders left in the executed text: none when there are at least as
      many parameters as `?`s, otherwise exactly the surplus. */
  lemma ExecutePlaceholdersLeft(sql: string, params: seq<JsValue>)
    requires forall i :: 0 <= i < |params| ==> Plain(params[i])
    ensures CountMarks(ExecuteText(sql, params)) ==
      if |params| >= CountMarks(sql) then 0 else CountMarks(sql) - |params|
  {
    ExecutePositional(sql, params);
    PlainLiterals(params);
    FillLeavesMarks(SplitMarks(sql), ExecLiterals(params));
  }

  /** Replacing the first `?` of `x ? y` when `x` has none. */
  lemma ReplaceAfter(x: string, y: string, rep: string)
    requires MarkFree(x)
    ensures ReplaceFirst(x + Mark + y, Mark, rep) == x + rep + y
  {
    MarkIsSingle();
    FirstHole(x, Mark, 0, y);
    var s := x + Mark + y;
    assert s[..|x|] == x && s[|x| + 1..] == y;
  }

  /** A parameter that renders a `?` receives the next parameter inside its own
      quotes: `x ? y ? z` with `a?b` and `c` becomes `x 'a'c'b' y ? z`, so the
      second placeholder of the template survives. */
  lemma ExecuteMarkInParameter(x: string, y: string, z: string, a: string, b: string, c: string)
    requires MarkFree(x) && MarkFree(a)
    ensures ExecuteText(x + Mark + y + Mark + z, [Str(a + Mark + b), Str(c)])
         == (x + "'" + a) + ("'" + c + "'") + (b + "'" + (y + Mark + z))
  {
    var first := "'" + (a + Mark + b) + "'";
    var second := "'" + c + "'";
    assert ExecLiterals([Str(a + Mark + b), Str(c)]) == [first, second];
    ReplaceEachTwo(x + Mark + y + Mark + z, Mark, first, second);
    CaptureStep(x, y, z, a, b, first, second);
  }

  lemma ReplaceEachTwo(s: string, pat: string, l1: string, l2: string)
    ensures ReplaceEach(s, pat, [l1, l2]) == ReplaceFirst(ReplaceFirst(s, pat, l1), pat, l2)
  {
    var r1 := ReplaceFirst(s, pat, l1);
    assert [l1, l2][0] == l1 && [l1, l2][1..] == [l2];
    assert ReplaceEach(s, pat, [l1, l2]) == ReplaceEach(r1, pat, [l2]);
    assert [l2][0] == l2 && [l2][1..] == [];
    assert ReplaceEach(r1, pat, [l2]) == ReplaceEach(ReplaceFirst(r1, pat, l2), pat, []);
  }

  lemma CaptureStep(x: string, y: string, z: string, a: string, b: string, first: string, second: string)
    requires MarkFree(x) && MarkFree(a) && first == "'" + (a + Mark + b) + "'"
    ensures ReplaceFirst(ReplaceFirst(x + Mark + y + Mark + z, Mark, first), Mark, second)
         == (x + "'" + a) + second + (b + "'" + (y + Mark + z))
  {
    var q, w, m := "'", y + Mark + z, a + Mark + b;
    ConcatAssoc(x + Mark, y + Mark, z);
    ConcatAssoc(x + Mark, y, Mark);
    ReplaceAfter(x, w, first);
    var x' := x + q + a;
    var p := x' + Mark;
    calc {
      x + first + w;
      { ConcatAssoc(x, q + m, q); }
      x + (q + m) + q + w;
      { ConcatAssoc(x, q, m); }
      x + q + m + q + w;
      { ConcatAssoc(x + q, a + Mark, b); }
      x + q + (a + Mark) + b + q + w;
      { ConcatAssoc(x + q, a, Mark); }
      p + b + q + w;
      { ConcatAssoc(p, b, q); }
      p + (b + q) + w;
      { ConcatAssoc(p, b + q, w); }
      x' + Mark + (b + q + w);
    }
    assert MarkFree(q);
    MarkFreeConcat(x, q);
    MarkFreeConcat(x + q, a);
    ReplaceAfter(x', b + q + w, second);
  }

  /** For a statement whose only placeholders are `datetime(?)`s and that has no
      more of them than there are parameters (the GET queries), the
      `datetime(?)` pass fills them in order and the `?` pass then changes
      nothing, provided no parameter renders a `?`. */
  lemma QueryDatetimeTemplate(segs: seq<string>, params: seq<JsValue>)
    requires 1 <= |segs| <= |params| + 1
    requires forall i :: 0 <= i < |segs| ==> MarkFree(segs[i])
    requires forall i :: 0 <= i < |params| ==> Plain(params[i])
    ensures QueryText(Holes(segs, DatetimeHole), params) == Fill(segs, DatetimeHole, DatetimeLiterals(params))
    ensures MarkFree(QueryText(Holes(segs, DatetimeHole), params))
  {
    PlainLiterals(params);
    DatetimeHoleIsSingle();
    MarkIsSingle();
    var dates := DatetimeLiterals(params);
    ReplaceEachFillsTemplate(segs, DatetimeHole, 9, dates);
    FillMarkFree(segs, DatetimeHole, dates);
    ReplaceEachNoHole(Fill(segs, DatetimeHole, dates), Mark, 0, QuotedLiterals(params));
  }

  /** Filling every placeholder with `?`-free literals leaves no `?`. */
  lemma {:induction false} FillMarkFree(segs: seq<string>, h: string, lits: seq<string>)
    requires 1 <= |segs| <= |lits| + 1
    requires forall i :: 0 <= i < |segs| ==> MarkFree(segs[i])
    requires forall i :: 0 <= i < |lits| ==> MarkFree(lits[i])
    ensures MarkFree(Fill(segs, h, lits))
    decreases |segs|
  {
    if |segs| > 1 {
      FillMarkFree(segs[1..], h, lits[1..]);
      MarkFreeConcat(segs[0], lits[0]);
      MarkFreeConcat(segs[0] + lits[0], Fill(segs[1..], h, lits[1..]));
    }
  }

  /** The plain `?` pass of `queryRQLite` starts again from the first parameter:
      with one parameter `p`, `x datetime(?) y ? z` becomes
      `x datetime('p') y 'p' z`. */
  lemma QueryRestartsParameters(x: string, y: string, z: string, p: JsValue)
    requires MarkFree(x) && MarkFree(y) && MarkFree(z) && Plain(p)
    ensures QueryText(x + DatetimeHole + y + Mark + z, [p]) == x + DatetimeLiteral(p) + y + QuotedLiteral(p) + z
  {
    var d := DatetimeLiteral(p);
    var q := QuotedLiteral(p);
    PlainLiterals([p]);
    DatetimeHoleIsSingle();
    MarkIsSingle();
    var s := x + DatetimeHole + (y + Mark + z);
    assert s == x + DatetimeHole + y + Mark + z;
    FirstHole(x, DatetimeHole, 9, y + Mark + z);
    assert s[..|x|] == x && s[|x| + |DatetimeHole|..] == y + Mark + z;
    var s1 := ReplaceFirst(s, DatetimeHole, d);
    assert s1 == x + d + (y + Mark + z);
    assert DatetimeLiterals([p]) == [d] && QuotedLiterals([p]) == [q];
    assert ReplaceEach(s, DatetimeHole, [d]) == s1;
    var x' := x + d + y;
    MarkFreeConcat(x, d);
    MarkFreeConcat(x + d, y);
    assert s1 == x' + Mark + z;
    FirstHole(x', Mark, 0, z);
    assert s1[..|x'|] == x' && s1[|x'| + 1..] == z;
    assert ReplaceFirst(s1, Mark, q) == x' + q + z;
    assert ReplaceEach(s1, Mark, [q]) == ReplaceFirst(s1, Mark, q);
  }

  /** A `?` inside the value of a `datetime(?)` is found by the plain pass,
      which puts the same parameter, quoted, in its place: with one parameter
      `a?b`, `x datetime(?) z` becomes `x datetime('a'a?b'b') z`. */
  lemma QueryMarkInValue(x: string, z: string, a: string, b: string)
    requires MarkFree(x) && MarkFree(a)
    ensures QueryText(x + DatetimeHole + z, [Str(a + Mark + b)])
         == (x + "datetime('" + a) + ("'" + (a + Mark + b) + "'") + (b + "')" + z)
  {
    var m := a + Mark + b;
    var d, q := DatetimeLiteral(Str(m)), QuotedLiteral(Str(m));
    var pre, rest := x + "datetime('" + a, b + "')" + z;
    calc {
      QueryText(x + DatetimeHole + z, [Str(m)]);
      { assert DatetimeLiterals([Str(m)]) == [d] && QuotedLiterals([Str(m)]) == [q]; }
      ReplaceEach(ReplaceEach(x + DatetimeHole + z, DatetimeHole, [d]), Mark, [q]);
      { DatetimeAfter(x, z, d); }
      ReplaceEach(x + d + z, Mark, [q]);
      { assert d == "datetime('" + m + "')";
        MarkInValueShape(x, "datetime('", a, b, "')", z); }
      ReplaceEach(pre + Mark + rest, Mark, [q]);
      { ReplaceEachOne(pre + Mark + rest, Mark, q);
        PrefixMarkFree(x, a);
        ReplaceAfter(pre, rest, q); }
      pre + q + rest;
    }
  }

  /** The `datetime(?)` pass with one literal, on a statement whose first
      `datetime(?)` follows `?`-free text. */
  lemma DatetimeAfter(x: string, z: string, rep: string)
    requires MarkFree(x)
    ensures ReplaceEach(x + DatetimeHole + z, DatetimeHole, [rep]) == x + rep + z
  {
    DatetimeHoleIsSingle();
    var s := x + DatetimeHole + z;
    FirstHole(x, DatetimeHole, 9, z);
    assert s[..|x|] == x && s[|x| + |DatetimeHole|..] == z;
    ReplaceEachOne(s, DatetimeHole, rep);
  }

  lemma PrefixMarkFree(x: string, a: string)
    requires MarkFree(x) && MarkFree(a)
    ensures MarkFree(x + "datetime('" + a)
  {
    assert MarkFree("datetime('");
    MarkFreeConcat(x, "datetime('");
    MarkFreeConcat(x + "datetime('", a);
  }

  lemma ReplaceEachOne(s: string, pat: string, l: string)
    ensures ReplaceEach(s, pat, [l]) == ReplaceFirst(s, pat, l)
  {
    assert [l][0] == l && [l][1..] == [];
  }

  lemma MarkInValueShape(x: string, dq: string, a: string, b: string, e: string, z: string)
    ensures x + (dq + (a + Mark + b) + e) + z == x + dq + a + Mark + (b + e + z)
  {
    var pm := x + dq + a + Mark;
    calc {
      x + (dq + (a + Mark + b) + e) + z;
      { ConcatAssoc(x, dq + (a + Mark + b), e); }
      x + (dq + (a + Mark + b)) + e + z;
      { ConcatAssoc(x, dq, a + Mark + b); }
      x + dq + (a + Mark + b) + e + z;
      { ConcatAssoc(x + dq, a + Mark, b); }
      x + dq + (a + Mark) + b + e + z;
      { ConcatAssoc(x + dq, a, Mark); }
      pm + b + e + z;
      { ConcatAssoc(pm, b, e); }
      pm + (b + e) + z;
      { ConcatAssoc(pm, b + e, z); }
      pm + (b + e + z);
    }
  }

  // ---------------------------------------------------------------------------
  // rqlite replies and their conversion to records
  // ---------------------------------------------------------------------------

  /** One entry of `results`; `None` stands for a field that is absent. */
  datatype StatementResult = StatementResult(
    columns: Option<seq<string>>,
    values: Option<seq<seq<JsValue>>>,
    rowsAffected: Option<int>)

  /** The parsed JSON body of an rqlite reply. */
  datatype RqliteReply = RqliteReply(results: Option<seq<StatementResult>>)

  /** `result.results && result.results[0]`. */
  function FirstResult(reply: RqliteReply): Option<StatementResult> {
    match reply.results
    case None => None
    case Some(rs) => if |rs| > 0 then Some(rs[0]) else None
  }

  function Columns(r: StatementResult): seq<string> {
    match r.columns case None => [] case Some(c) => c
  }

  function Rows(r: StatementResult): seq<seq<JsValue>> {
    match r.values case None => [] case Some(v) => v
  }

  /** `result.results[0].rows_affected || 0`. */
  function RowsAffected(r: StatementResult): int {
    match r.rowsAffected case None => 0 case Some(n) => n
  }

  /** An event record: column name to value. */
  type Record = JsObject

  /** `row[index]`: `undefined` past the end of the row. */
  function CellAt(row: seq<JsValue>, i: nat): JsValue {
    if i < |row| then row[i] else Undefined
  }

  /** The object built by `event[col] = row[index]` for the columns in order: a
      later column of the same name overwrites an earlier one. */
  function RowRecord(columns: seq<string>, row: seq<JsValue>): Record
    decreases |columns|
  {
    if columns == [] then map[]
    else RowRecord(columns[..|columns| - 1], row)[columns[|columns| - 1] := CellAt(row, |columns| - 1)]
  }

  /** The list the GET handler returns for an rqlite reply. */
  function Records(reply: RqliteReply): seq<Record> {
    match FirstResult(reply)
    case None => []
    case Some(r) => seq(|Rows(r)|, i requires 0 <= i < |Rows(r)| => RowRecord(Columns(r), Rows(r)[i]))
  }

  /** The record of a row has exactly the column names as its keys. */
  lemma {:induction false} RowRecordKeys(columns: seq<string>, row: seq<JsValue>)
    ensures RowRecord(columns, row).Keys == set c | c in columns
    decreases |columns|
  {
    if columns != [] {
      var init := columns[..|columns| - 1];
      RowRecordKeys(init, row);
      assert columns == init + [columns[|columns| - 1]];
      assert (set c | c in columns) == (set c | c in init) + {columns[|columns| - 1]};
    }
  }

  /** `record[columns[i]] == row[i]` whenever no later column has the same name;
      with distinct column names, for every column. */
  lemma {:induction false} RowRecordValue(columns: seq<string>, row: seq<JsValue>, i: nat)
    requires i < |columns|
    requires forall j :: i < j < |columns| ==> columns[j] != columns[i]
    ensures columns[i] in RowRecord(columns, row)
    ensures RowRecord(columns, row)[columns[i]] == CellAt(row, i)
    decreases |columns|
  {
    if i < |columns| - 1 {
      var init := columns[..|columns| - 1];
      RowRecordValue(init, row, i);
    }
  }

  /** Exactly one record per row, each the row's record; a reply without
      `results` or `results[0]` gives no records, and a missing `values` or
      `columns` counts as empty. */
  lemma RecordsShape(reply: RqliteReply)
    ensures FirstResult(reply).None? ==> Records(reply) == []
    ensures FirstResult(reply).Some? ==>
      var r := FirstResult(reply).value;
      |Records(reply)| == |Rows(r)| &&
      (r.values.None? ==> Records(reply) == []) &&
      (forall i :: 0 <= i < |Rows(r)| ==> Records(reply)[i] == RowRecord(Columns(r), Rows(r)[i])) &&
      (r.columns.None? ==> forall i :: 0 <= i < |Rows(r)| ==> Records(reply)[i] == map[])
  {
  }

  /** The loops of the GET handler that turn the reply into event objects. */
  method ToRecords(reply: RqliteReply) returns (events: seq<Record>)
    ensures events == Records(reply)
  {
    events := [];
    var first := FirstResult(reply);
    if first.Some? {
      var rows := Rows(first.value);
      var columns := Columns(first.value);
      for i := 0 to |rows|
        invariant |events| == i
        invariant forall j :: 0 <= j < i ==> events[j] == RowRecord(columns, rows[j])
      {
        var row := rows[i];
        var event: Record := map[];
        for k := 0 to |columns|
          invariant event == RowRecord(columns[..k], row)
        {
          assert columns[..k + 1][..k] == columns[..k];
          event := event[columns[k] := CellAt(row, k)];
        }
        assert columns[..|columns|] == columns;
        events := events + [event];
      }
    }
  }
}
