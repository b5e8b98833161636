/** The `/api/events` route handlers of server.js: listing by time window
    (GET), creating (POST) and deleting by id (DELETE). Each handler is a total
    function from its inputs to the rqlite call it makes, if any, and the HTTP
    response it sends. What rqlite answers (or the transport failure) is an
    input, since the round trip itself is outside the model. */
module Events {
  import opened JsValues
  import opened Strings
  import opened Rqlite
  import opened Http
  import opened Middleware

  /** The statement a handler posts to rqlite: to `/db/query` or to
      `/db/execute`. */
  datatype Call = Query(sql: string) | Execute(sql: string)

  /** How the call to rqlite ended: it threw (network error, non-2xx status)
      with a message, or it returned a parsed reply. */
  datatype Transport = Failed(message: string) | Delivered(reply: RqliteReply)

  /** What a handler does: the call it makes (none when it answers before
      reaching rqlite) and the response it sends. */
  datatype Exchange = Exchange(call: Option<Call>, response: HttpResponse)

  // ---------------------------------------------------------------------------
  // SQL text of the three statements, exactly as the template literals
  // spell it (indentation included), cut at the placeholders
  // ---------------------------------------------------------------------------

  const Indent: string := "\n                "

  /** `substr(c, 1, 16) as c`: the time column cut to minutes. */
  function Minutes(c: string): string {
    "substr(" + c + ", 1, 16) as " + c
  }

  const SelectColumns: string :=
    "id, lat, long, " + Minutes("created_time") + ", " + Minutes("start_time") + ", "
    + Minutes("end_time") + ", note, type"

  const ListHead: string :=
    Indent + "SELECT " + SelectColumns + Indent + "FROM events" + Indent + "WHERE datetime(start_time) >= "
  const RangeJoin: string := " AND datetime(start_time) <= "
  const ListTail: string := Indent + "ORDER BY start_time DESC\n            "

  /** The GET query with both bounds. */
  const RangeQuery: string := ListHead + DatetimeHole + RangeJoin + DatetimeHole + ListTail
  /** The GET query with the lower bound only. */
  const SinceQuery: string := ListHead + DatetimeHole + ListTail

  const InsertHead: string :=
    "\n            INSERT INTO events " + "(lat, long, start_time, " + "end_time, note, type)" + "\n            VALUES ("
  const InsertTail: string := ")\n        "
  const Comma: string := ", "
  /** The INSERT cut at its six `?`s. */
  const InsertSegments: seq<string> := [InsertHead, Comma, Comma, Comma, Comma, Comma, InsertTail]
  const InsertQuery: string := Holes(InsertSegments, Mark)

  const DeleteHead: string := "DELETE FROM events WHERE id = "
  const DeleteQuery: string := DeleteHead + Mark

  lemma MinutesMarkFree(c: string)
    requires MarkFree(c)
    ensures MarkFree(Minutes(c))
  {
    assert MarkFree("substr(") && MarkFree(", 1, 16) as ");
    MarkFreeConcat("substr(", c);
    MarkFreeConcat("substr(" + c, ", 1, 16) as ");
    MarkFreeConcat("substr(" + c + ", 1, 16) as ", c);
  }

  lemma ListPiecesMarkFree()
    ensures MarkFree(ListHead) && MarkFree(RangeJoin) && MarkFree(ListTail)
  {
    assert MarkFree("created_time") && MarkFree("start_time") && MarkFree("end_time");
    MinutesMarkFree("created_time");
    MinutesMarkFree("start_time");
    MinutesMarkFree("end_time");
    var a := Minutes("created_time");
    var b := Minutes("start_time");
    var c := Minutes("end_time");
    assert MarkFree("id, lat, long, ") && MarkFree(", ") && MarkFree(", note, type");
    MarkFreeConcat("id, lat, long, ", a);
    MarkFreeConcat("id, lat, long, " + a, ", ");
    MarkFreeConcat("id, lat, long, " + a + ", ", b);
    MarkFreeConcat("id, lat, long, " + a + ", " + b, ", ");
    MarkFreeConcat("id, lat, long, " + a + ", " + b + ", ", c);
    MarkFreeConcat("id, lat, long, " + a + ", " + b + ", " + c, ", note, type");
    assert MarkFree(Indent) && MarkFree("SELECT ") && MarkFree("FROM events");
    assert MarkFree("WHERE datetime(start_time) >= ");
    MarkFreeConcat(Indent, "SELECT ");
    MarkFreeConcat(Indent + "SELECT ", SelectColumns);
    MarkFreeConcat(Indent + "SELECT " + SelectColumns, Indent);
    MarkFreeConcat(Indent + "SELECT " + SelectColumns + Indent, "FROM events");
    MarkFreeConcat(Indent + "SELECT " + SelectColumns + Indent + "FROM events", Indent);
    MarkFreeConcat(Indent + "SELECT " + SelectColumns + Indent + "FROM events" + Indent, "WHERE datetime(start_time) >= ");
    assert MarkFree(RangeJoin);
    assert MarkFree("ORDER BY start_time DESC\n            ");
    MarkFreeConcat(Indent, "ORDER BY start_time DESC\n            ");
  }

  lemma HolesThree(a: string, b: string, c: string, h: string)
    ensures Holes([a, b, c], h) == a + h + b + h + c
  {
    var segs := [a, b, c];
    assert segs[1..] == [b, c] && segs[1..][1..] == [c];
    assert Holes(segs[1..], h) == b + h + c;
    ConcatAssoc(a + h, b + h, c);
    ConcatAssoc(a + h, b, h);
  }

  lemma FillThree(a: string, b: string, c: string, h: string, l1: string, l2: string)
    ensures Fill([a, b, c], h, [l1, l2]) == a + l1 + b + l2 + c
  {
    var segs, lits := [a, b, c], [l1, l2];
    assert segs[1..] == [b, c] && segs[1..][1..] == [c];
    assert lits[1..] == [l2] && lits[1..][1..] == [];
    assert Fill(segs[1..], h, lits[1..]) == b + l2 + c;
    ConcatAssoc(a + l1, b + l2, c);
    ConcatAssoc(a + l1, b, l2);
  }

  /** A two-placeholder template filled with two `?`-free literals. */
  lemma FillTwoHoles(a: string, b: string, c: string, h: string, k: nat, l1: string, l2: string)
    requires SingleMark(h, k) && MarkFree(a) && MarkFree(b) && MarkFree(c) && MarkFree(l1) && MarkFree(l2)
    ensures ReplaceEach(a + h + b + h + c, h, [l1, l2]) == a + l1 + b + l2 + c
  {
    calc {
      ReplaceEach(a + h + b + h + c, h, [l1, l2]);
      { HolesThree(a, b, c, h); }
      ReplaceEach(Holes([a, b, c], h), h, [l1, l2]);
      { ReplaceEachFillsTemplate([a, b, c], h, k, [l1, l2]); }
      Fill([a, b, c], h, [l1, l2]);
      { FillThree(a, b, c, h, l1, l2); }
      a + l1 + b + l2 + c;
    }
  }

  /** A one-placeholder template filled with a `?`-free literal. */
  lemma FillOneHole(a: string, c: string, h: string, k: nat, l1: string)
    requires SingleMark(h, k) && MarkFree(a) && MarkFree(c) && MarkFree(l1)
    ensures ReplaceEach(a + h + c, h, [l1]) == a + l1 + c
  {
    var segs := [a, c];
    assert segs[1..] == [c];
    assert Holes(segs, h) == a + h + c;
    ReplaceEachFillsTemplate(segs, h, k, [l1]);
    assert [l1][1..] == [];
  }

  // ---------------------------------------------------------------------------
  // GET /api/events
  // ---------------------------------------------------------------------------

  /** The choice the GET handler makes before calling rqlite. */
  datatype ListPlan = MissingStart | Run(sql: string, params: seq<JsValue>)

  const StartRequired: HttpResponse := HttpResponse(400, Error("start_time is required"))
  const InternalError: HttpResponse := HttpResponse(500, Error("Internal server error"))

  /** `start_time` and `end_time` are the query parameters, absent or text. */
  function PlanList(startTime: Option<string>, endTime: Option<string>): ListPlan {
    if !Present(startTime) then MissingStart
    else if Present(endTime) then Run(RangeQuery, [Str(startTime.value), Str(endTime.value)])
    else Run(SinceQuery, [Str(startTime.value)])
  }

  function ListEvents(startTime: Option<string>, endTime: Option<string>, t: Transport): Exchange {
    match PlanList(startTime, endTime)
    case MissingStart => Exchange(None, StartRequired)
    case Run(sql, params) =>
      Exchange(Some(Query(QueryText(sql, params))),
        match t
        case Failed(_) => InternalError
        case Delivered(reply) => HttpResponse(200, Objects(Records(reply))))
  }

  /** Without a (non-empty) `start_time` the answer is 400 and rqlite is not
      called. */
  lemma ListNeedsStart(startTime: Option<string>, endTime: Option<string>, t: Transport)
    ensures !Present(startTime) <==> ListEvents(startTime, endTime, t).call.None?
    ensures !Present(startTime) ==> ListEvents(startTime, endTime, t).response == StartRequired
  {
  }

  /** With both bounds the two-bound query runs with `[start_time, end_time]`;
      when neither value holds a `?`, they land in its two `datetime(?)`s and
      the statement keeps no placeholder. */
  lemma ListWithRange(s: string, e: string, t: Transport)
    requires s != "" && e != ""
    ensures PlanList(Some(s), Some(e)) == Run(RangeQuery, [Str(s), Str(e)])
    ensures MarkFree(s) && MarkFree(e) ==>
      ListEvents(Some(s), Some(e), t).call ==
        Some(Query(ListHead + DatetimeLiteral(Str(s)) + RangeJoin + DatetimeLiteral(Str(e)) + ListTail))
  {
    if MarkFree(s) && MarkFree(e) {
      var d1, d2 := DatetimeLiteral(Str(s)), DatetimeLiteral(Str(e));
      var without := ListHead + d1 + RangeJoin + d2 + ListTail;
      ListPiecesMarkFree();
      DatetimeHoleIsSingle();
      MarkIsSingle();
      PlainLiteral(Str(s));
      PlainLiteral(Str(e));
      assert DatetimeLiterals([Str(s), Str(e)]) == [d1, d2];
      FillTwoHoles(ListHead, RangeJoin, ListTail, DatetimeHole, 9, d1, d2);
      MarkFreeConcat(ListHead, d1);
      MarkFreeConcat(ListHead + d1, RangeJoin);
      MarkFreeConcat(ListHead + d1 + RangeJoin, d2);
      MarkFreeConcat(ListHead + d1 + RangeJoin + d2, ListTail);
      ReplaceEachNoHole(without, Mark, 0, QuotedLiterals([Str(s), Str(e)]));
    }
  }

  /** With the lower bound only the one-bound query runs with `[start_time]`. */
  lemma ListSince(s: string, endTime: Option<string>, t: Transport)
    requires s != "" && !Present(endTime)
    ensures PlanList(Some(s), endTime) == Run(SinceQuery, [Str(s)])
    ensures MarkFree(s) ==>
      ListEvents(Some(s), endTime, t).call == Some(Query(ListHead + DatetimeLiteral(Str(s)) + ListTail))
  {
    if MarkFree(s) {
      var d1 := DatetimeLiteral(Str(s));
      var without := ListHead + d1 + ListTail;
      ListPiecesMarkFree();
      DatetimeHoleIsSingle();
      MarkIsSingle();
      PlainLiteral(Str(s));
      assert DatetimeLiterals([Str(s)]) == [d1];
      FillOneHole(ListHead, ListTail, DatetimeHole, 9, d1);
      MarkFreeConcat(ListHead, d1);
      MarkFreeConcat(ListHead + d1, ListTail);
      ReplaceEachNoHole(without, Mark, 0, QuotedLiterals([Str(s)]));
    }
  }

  /** Once the query ran: a failed call gives 500, a reply gives 200 with one
      record per returned row (none when the reply has no `results[0]`). */
  lemma ListReply(startTime: Option<string>, endTime: Option<string>, t: Transport)
    requires Present(startTime)
    ensures t.Failed? ==> ListEvents(startTime, endTime, t).response == InternalError
    ensures t.Delivered? ==> ListEvents(startTime, endTime, t).response == HttpResponse(200, Objects(Records(t.reply)))
  {
  }

  // ---------------------------------------------------------------------------
  // POST /api/events
  // ---------------------------------------------------------------------------

  const RequiredFields: seq<string> := ["lat", "long", "type"]
  const ValidTypes: seq<string> := ["active", "inactive"]

  /** The first of `fields` the body leaves `undefined`. */
  function FirstMissing(body: JsObject, fields: seq<string>): Option<string> {
    if fields == [] then None
    else if Field(body, fields[0]) == Undefined then Some(fields[0])
    else FirstMissing(body, fields[1..])
  }

  /** `FirstMissing` names the first undefined field, and is `None` exactly
      when every field is defined. */
  lemma {:induction false} FirstMissingIsFirst(body: JsObject, fields: seq<string>)
    ensures FirstMissing(body, fields).None? <==> forall i :: 0 <= i < |fields| ==> Field(body, fields[i]) != Undefined
    ensures FirstMissing(body, fields).Some? ==>
      exists k :: 0 <= k < |fields| && fields[k] == FirstMissing(body, fields).value &&
        Field(body, fields[k]) == Undefined &&
        forall j :: 0 <= j < k ==> Field(body, fields[j]) != Undefined
  {
    if fields != [] && Field(body, fields[0]) != Undefined {
      FirstMissingIsFirst(body, fields[1..]);
      if FirstMissing(body, fields).Some? {
        var k :| 0 <= k < |fields[1..]| && fields[1..][k] == FirstMissing(body, fields).value &&
          Field(body, fields[1..][k]) == Undefined &&
          forall j :: 0 <= j < k ==> Field(body, fields[1..][j]) != Undefined;
        assert fields[k + 1] == FirstMissing(body, fields).value;
      } else {
        forall i | 0 <= i < |fields| ensures Field(body, fields[i]) != Undefined {
          if i > 0 { assert fields[i] == fields[1..][i - 1]; }
        }
      }
    } else if fields != [] {
      assert fields[0] == FirstMissing(body, fields).value;
    }
  }

  /** The required-field loop of the POST handler, with its early exit. */
  method CheckRequired(body: JsObject) returns (missing: Option<string>)
    ensures missing == FirstMissing(body, RequiredFields)
    ensures missing.None? <==> forall i :: 0 <= i < |RequiredFields| ==> Field(body, RequiredFields[i]) != Undefined
  {
    FirstMissingIsFirst(body, RequiredFields);
    for i := 0 to |RequiredFields|
      invariant FirstMissing(body, RequiredFields) == FirstMissing(body, RequiredFields[i..])
    {
      assert RequiredFields[i..][1..] == RequiredFields[i + 1..];
      if Field(body, RequiredFields[i]) == Undefined {
        return Some(RequiredFields[i]);
      }
    }
    missing := None;
  }

  /** `validTypes.includes(type)`: strict equality with one of the strings. */
  predicate ValidType(v: JsValue) {
    v.Str? && v.s in ValidTypes
  }

  /** `[lat, long, start_time, end_time, note || '', type]`. */
  function InsertParams(body: JsObject): seq<JsValue> {
    [Field(body, "lat"), Field(body, "long"), Field(body, "start_time"), Field(body, "end_time"),
     OrEmpty(Field(body, "note")), Field(body, "type")]
  }

  function MissingField(f: string): HttpResponse {
    HttpResponse(400, Error("Missing required field: " + f))
  }

  const InvalidType: HttpResponse := HttpResponse(400, Error("Invalid type. Must be one of: active, inactive"))
  const Created: HttpResponse := HttpResponse(201, Message("Event created successfully"))
  const Unexpected: string := "Unexpected result from rqlite"

  /** `app.post('/api/events', requireApiKey, ...)`. */
  function CreateEvent(c: Credentials, secret: Option<string>, body: JsObject, t: Transport): Exchange {
    match RequireApiKey(c, secret)
    case Deny(r) => Exchange(None, r)
    case Next =>
      match FirstMissing(body, RequiredFields)
      case Some(f) => Exchange(None, MissingField(f))
      case None =>
        if !ValidType(Field(body, "type")) then Exchange(None, InvalidType)
        else
          Exchange(Some(Execute(ExecuteText(InsertQuery, InsertParams(body)))),
            match t
            case Failed(m) => HttpResponse(500, Error(m))
            case Delivered(reply) =>
              if FirstResult(reply).Some? then Created else HttpResponse(500, Error(Unexpected)))
  }

  /** An insert is issued exactly when the key is accepted, `lat`, `long` and
      `type` are all defined and `type` is `active` or `inactive`; it is then
      the templated INSERT with the six parameters in order. */
  lemma CreateCallsIff(c: Credentials, secret: Option<string>, body: JsObject, t: Transport)
    ensures CreateEvent(c, secret, body, t).call.Some? <==>
      RequireApiKey(c, secret) == Next &&
      (forall i :: 0 <= i < |RequiredFields| ==> Field(body, RequiredFields[i]) != Undefined) &&
      ValidType(Field(body, "type"))
    ensures CreateEvent(c, secret, body, t).call.Some? ==>
      CreateEvent(c, secret, body, t).call == Some(Execute(ExecuteText(InsertQuery, InsertParams(body))))
  {
    FirstMissingIsFirst(body, RequiredFields);
  }

  /** Validation answers: the first missing field in the order `lat`, `long`,
      `type` gives 400 naming it; then a type outside the two values gives 400. */
  lemma CreateValidation(c: Credentials, secret: Option<string>, body: JsObject, t: Transport)
    requires RequireApiKey(c, secret) == Next
    ensures FirstMissing(body, RequiredFields).Some? ==>
      CreateEvent(c, secret, body, t) == Exchange(None, MissingField(FirstMissing(body, RequiredFields).value))
    ensures Field(body, "lat") == Undefined ==> CreateEvent(c, secret, body, t).response == MissingField("lat")
    ensures Field(body, "lat") != Undefined && Field(body, "long") == Undefined ==>
      CreateEvent(c, secret, body, t).response == MissingField("long")
    ensures Field(body, "lat") != Undefined && Field(body, "long") != Undefined && Field(body, "type") == Undefined ==>
      CreateEvent(c, secret, body, t).response == MissingField("type")
    ensures FirstMissing(body, RequiredFields).None? && !ValidType(Field(body, "type")) ==>
      CreateEvent(c, secret, body, t) == Exchange(None, InvalidType)
  {
    assert RequiredFields[0] == "lat" && RequiredFields[1..] == ["long", "type"];
    assert RequiredFields[1..][0] == "long" && RequiredFields[1..][1..] == ["type"];
    assert RequiredFields[1..][1..][0] == "type" && RequiredFields[1..][1..][1..] == [];
    if Field(body, "lat") != Undefined {
      assert FirstMissing(body, RequiredFields) == FirstMissing(body, ["long", "type"]);
      assert ["long", "type"][1..] == ["type"];
      if Field(body, "long") != Undefined {
        assert FirstMissing(body, ["long", "type"]) == FirstMissing(body, ["type"]);
      }
    }
  }

  /** After a valid insert: a failed call gives 500 with its message; a reply
      with `results[0]` gives 201; any other reply gives 500. */
  lemma CreateReply(c: Credentials, secret: Option<string>, body: JsObject, t: Transport)
    requires RequireApiKey(c, secret) == Next && FirstMissing(body, RequiredFields).None? && ValidType(Field(body, "type"))
    ensures t.Failed? ==> CreateEvent(c, secret, body, t).response == HttpResponse(500, Error(t.message))
    ensures t.Delivered? ==>
      CreateEvent(c, secret, body, t).response ==
        if FirstResult(t.reply).Some? then Created else HttpResponse(500, Error(Unexpected))
  {
  }

  /** Optional fields: a missing or falsy `note` becomes `''`; a missing
      `start_time` or `end_time` is spliced in as the text `'undefined'`, and
      only an explicit `null` gives `NULL`. */
  lemma InsertOptionalFields(body: JsObject)
    ensures !Truthy(Field(body, "note")) ==> InsertParams(body)[4] == Str("")
    ensures Truthy(Field(body, "note")) ==> InsertParams(body)[4] == Field(body, "note")
    ensures "start_time" !in body ==> ExecLiteral(InsertParams(body)[2]) == "'undefined'"
    ensures "end_time" !in body ==> ExecLiteral(InsertParams(body)[3]) == "'undefined'"
    ensures ExecLiteral(InsertParams(body)[3]) == "NULL" <==> Field(body, "end_time") == Null
  {
    ExecLiteralCases(InsertParams(body)[2]);
    ExecLiteralCases(InsertParams(body)[3]);
  }

  /** When no parameter renders a `?`, the six literals land in the six
      placeholders of the INSERT, in order. */
  lemma InsertText(body: JsObject)
    requires forall i :: 0 <= i < 6 ==> Plain(InsertParams(body)[i])
    ensures ExecuteText(InsertQuery, InsertParams(body)) == Fill(InsertSegments, Mark, ExecLiterals(InsertParams(body)))
  {
    var ps := InsertParams(body);
    PlainLiterals(ps);
    InsertPiecesMarkFree();
    MarkIsSingle();
    ReplaceEachFillsTemplate(InsertSegments, Mark, 0, ExecLiterals(ps));
  }

  lemma InsertPiecesMarkFree()
    ensures forall i :: 0 <= i < |InsertSegments| ==> MarkFree(InsertSegments[i])
  {
    var a, b, c, d := "\n            INSERT INTO events ", "(lat, long, start_time, ", "end_time, note, type)", "\n            VALUES (";
    assert MarkFree(a) && MarkFree(b) && MarkFree(c) && MarkFree(d);
    MarkFreeConcat(a, b);
    MarkFreeConcat(a + b, c);
    MarkFreeConcat(a + b + c, d);
    assert MarkFree(Comma) && MarkFree(InsertTail);
  }

  // ---------------------------------------------------------------------------
  // DELETE /api/events/:id
  // ---------------------------------------------------------------------------

  const NotFound: HttpResponse := HttpResponse(404, Error("Event not found"))
  const Deleted: HttpResponse := HttpResponse(200, Message("Event deleted successfully"))

  /** The response the DELETE route sends once rqlite has been called: 404
      exactly when the reply has `results[0]` whose `rows_affected` is 0 or
      absent, 200 when it is anything else, and 500 with the message when the
      call failed or the reply has no `results[0]`. */
  function DeleteReply(t: Transport): (r: HttpResponse)
    ensures r == NotFound <==>
      t.Delivered? && FirstResult(t.reply).Some? && FirstResult(t.reply).value.rowsAffected in {None, Some(0)}
    ensures r == Deleted <==>
      t.Delivered? && FirstResult(t.reply).Some? && RowsAffected(FirstResult(t.reply).value) != 0
    ensures r.status == 500 <==> t.Failed? || FirstResult(t.reply).None?
    ensures t.Failed? ==> r == HttpResponse(500, Error(t.message))
    ensures t.Delivered? && FirstResult(t.reply).None? ==> r == HttpResponse(500, Error(Unexpected))
  {
    match t
    case Failed(m) => HttpResponse(500, Error(m))
    case Delivered(reply) =>
      match FirstResult(reply)
      case None => HttpResponse(500, Error(Unexpected))
      case Some(r) => if RowsAffected(r) == 0 then NotFound else Deleted
  }

  /** `app.delete('/api/events/:id', requireApiKey, ...)`; `id` is the path
      segment. */
  function DeleteEvent(c: Credentials, secret: Option<string>, id: string, t: Transport): Exchange {
    match RequireApiKey(c, secret)
    case Deny(r) => Exchange(None, r)
    case Next => Exchange(Some(Execute(ExecuteText(DeleteQuery, [Str(id)]))), DeleteReply(t))
  }

  /** The id is spliced in quoted whatever it holds, since it is the only
      parameter. */
  lemma DeleteText(id: string)
    ensures ExecuteText(DeleteQuery, [Str(id)]) == DeleteHead + "'" + id + "'"
  {
    var lit := "'" + id + "'";
    assert MarkFree(DeleteHead);
    ReplaceAfter(DeleteHead, "", lit);
    assert DeleteHead + Mark + "" == DeleteQuery;
    assert DeleteHead + lit + "" == DeleteHead + "'" + id + "'";
    assert ExecLiterals([Str(id)]) == [lit];
    assert [lit][1..] == [];
    assert ReplaceEach(DeleteQuery, Mark, [lit]) == ReplaceEach(ReplaceFirst(DeleteQuery, Mark, lit), Mark, []);
  }

  /** With an accepted key the route runs the quoted DELETE and answers from
      rqlite's reply. */
  lemma DeleteOutcome(c: Credentials, secret: Option<string>, id: string, t: Transport)
    requires RequireApiKey(c, secret) == Next
    ensures DeleteEvent(c, secret, id, t).call == Some(Execute(DeleteHead + "'" + id + "'"))
    ensures DeleteEvent(c, secret, id, t).response == DeleteReply(t)
  {
    DeleteText(id);
  }

  /** A refused key leaves rqlite untouched: neither mutating route makes a
      call, and the response is the guard's. */
  lemma GuardBeforeStorage(c: Credentials, secret: Option<string>, body: JsObject, id: string, t: Transport)
    requires RequireApiKey(c, secret).Deny?
    ensures CreateEvent(c, secret, body, t) == Exchange(None, RequireApiKey(c, secret).response)
    ensures DeleteEvent(c, secret, id, t) == Exchange(None, RequireApiKey(c, secret).response)
  {
  }
}
