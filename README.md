# Event map backend: rqlite statement building and the `/api/events` routes

This project models the request-handling core of the event map service's
Express server (`server.js`). Events are stored in an rqlite cluster. rqlite
accepts literal SQL text only, so the server fills the `?` placeholders of each
statement itself before it posts the statement:

- `executeRQLiteQuery` (writes, `/db/execute`) replaces the first `?` once per
  parameter. `null` becomes `NULL`. Every other value becomes its
  template-literal rendering between single quotes, with no escaping.
- `queryRQLite` (reads, `/db/query`) first replaces one `datetime(?)` per
  parameter with `datetime('<value>')`. It then replaces one plain `?` per
  parameter, starting again from the first parameter.

The model covers:

- both substitution loops, as methods proved against a left-fold
  specification (`ReplaceEach` of first-occurrence `ReplaceFirst`);
- the positional-fill theorem `ExecutePositional`: when no parameter renders a
  `?`, the i-th placeholder receives the i-th literal;
- what happens when a parameter does contain a `?`. In `executeRQLiteQuery`
  later parameters land inside earlier ones (`ExecuteMarkInParameter`). In
  `queryRQLite` the plain pass finds the `?` inside a substituted
  `datetime('…')` value and puts the first parameter there again
  (`QueryMarkInValue`);
- that the second pass of `queryRQLite` restarts from the first parameter
  (`QueryRestartsParameters`);
- the turning of an rqlite reply `{results: [{columns, values, rows_affected}]}`
  into event records (`ToRecords`);
- the API-key guard `requireApiKey`;
- the decision logic of the GET, POST and DELETE handlers of `/api/events`.

Each handler is modelled as a total function. Its inputs are the request
(query parameters, parsed body, path id, credentials), the configured key, and
how the rqlite round trip ended (`Transport`: a failure message, or the parsed
reply). Its result is an `Exchange`: the rqlite call it makes, if any, and the
HTTP response it sends.

Modules, in dependency order:

- `JsValues` (jsvalues.dfy): JavaScript scalars, `${v}` rendering,
  truthiness, `||`.
- `Strings` (strings.dfy): `indexOf`/`replace` with a first-occurrence
  pattern, the `?` arithmetic (`CountMarks`, `SplitMarks`), the reference
  meaning `Fill` and the substitution theorems.
- `Rqlite` (rqlite.dfy): `executeRQLiteQuery`/`queryRQLite` text building
  and the reply-to-records conversion.
- `Http` (http.dfy): status code and JSON body of a response.
- `Middleware` (middleware.dfy): `requireApiKey`.
- `Events` (events.dfy): the three route handlers and their SQL templates,
  spelled exactly as the source writes them, whitespace included.

Only `null` becomes `NULL`; an absent (`undefined`) parameter is sent as the
text `'undefined'` (`ExecLiteralCases`, `InsertOptionalFields`). Quotes inside
values are not escaped.

## Model

| member | source | states |
|---|---|---|
| JsValues.Render | server.js:50 | defines `${v}`: `undefined`, `null`, `true`/`false`, the number's text, the string itself |
| JsValues.Field | server.js:191 | defines `obj[name]`: the stored value, or `undefined` when the object lacks the field |
| JsValues.Truthy | server.js:209 | defines JavaScript truthiness: `undefined`, `null`, `false`, `0`, `NaN` and `''` are falsy |
| JsValues.Present | server.js:128-137 | defines truthiness of an optional string (`!start_time`, `if (end_time)`, and the tests at server.js:26 and :30): present and non-empty |
| JsValues.OrElse | server.js:23 | `a \|\| b` yields `a` when it is a non-empty string and otherwise `b`; the result is a non-empty string exactly when either operand is one |
| JsValues.OrEmpty | server.js:209 | `note \|\| ''` keeps a truthy value and replaces a falsy one by `''`, preserving truthiness |
| Strings.IndexOf | server.js:48 | the search used by `replace` returns the first index where the pattern occurs, or reports that it occurs nowhere |
| Strings.ReplaceFirst | server.js:48-50 | `replace` with a string pattern splices the replacement at the first occurrence only, and leaves a string without occurrence unchanged |
| Strings.CountMarks | server.js:48 | the number of `?` in a text is at most its length and is zero exactly when the text is `?`-free |
| Strings.SplitMarks | server.js:48 | every text is its `?`-free segments joined by `?`, with one more segment than it has `?` |
| Strings.FirstHole | server.js:48 | a placeholder right after `?`-free text is the first occurrence of the placeholder pattern |
| Strings.ReplaceEach | server.js:46-52 | defines the `forEach` that reassigns the SQL text: one first-occurrence replacement per literal, in order, each on the text the previous one left (also server.js:81-88); `ReplaceEachFills` states its meaning |
| Strings.ReplaceEachNoHole | server.js:46-52 | replacements on a `?`-free text find nothing and change nothing |
| Strings.ReplaceEachFills | server.js:46-52 | first-occurrence replacement repeated once per literal fills a template's placeholders positionally, as `Fill` defines, when neither the template pieces nor the literals hold a `?` |
| Strings.ReplaceEachFillsTemplate | server.js:46-52 | the same for a template with nothing before its first segment |
| Strings.HolesMarks | server.js:48 | a template of n `?`-free segments has n-1 placeholders |
| Strings.FillLeavesMarks | server.js:45-52 | for `?`-free segments and literals, after filling no placeholder remains when there are at least as many literals as placeholders, otherwise exactly the surplus remain |
| Strings.FillDropsExtra | server.js:46-52 | literals beyond the last placeholder have no effect |
| Strings.MarkFreeConcat | server.js:48 | a concatenation is `?`-free exactly when both parts are |
| Strings.CountMarksConcat | server.js:48 | placeholder counts add up over concatenation |
| Rqlite.ExecLiteral | server.js:47-51 | defines the text put in place of a `?` by `executeRQLiteQuery`: `NULL` for `null`, otherwise `'${p}'`; `ExecLiteralCases` states its cases |
| Rqlite.DatetimeLiteral | server.js:82 | defines the text put in place of `datetime(?)`: `datetime('${p}')` |
| Rqlite.QuotedLiteral | server.js:87 | defines the text the second pass of `queryRQLite` puts in place of a `?`: `'${p}'`, with `null` not special |
| Rqlite.ExecuteText | server.js:41-53 | defines the statement `executeRQLiteQuery` posts: the statement itself without parameters, otherwise one first-`?` replacement per parameter; `ExecuteSql`, `ExecuteStep` and `ExecutePositional` state its meaning |
| Rqlite.QueryText | server.js:76-89 | defines the statement `queryRQLite` posts: one `datetime(?)` pass and then one `?` pass over all parameters; `QuerySql`, `QueryDatetimeTemplate` and `QueryRestartsParameters` state its meaning |
| Rqlite.ExecLiterals | server.js:46-52 | one literal per parameter, in order, each `NULL` or the quoted rendering |
| Rqlite.DatetimeLiterals | server.js:81-84 | one `datetime('<value>')` per parameter, in order |
| Rqlite.QuotedLiterals | server.js:86-88 | one quoted rendering per parameter, in order, with `null` not special |
| Rqlite.ExecuteSql | server.js:41-53 | the substitution loop of `executeRQLiteQuery` returns the statement unchanged when there are no parameters, and otherwise the left fold of first-`?` replacements with each parameter's literal |
| Rqlite.QuerySql | server.js:76-89 | the two loops of `queryRQLite`: one `datetime(?)` replacement per parameter, then one `?` replacement per parameter starting again from the first |
| Rqlite.ExecLiteralCases | server.js:47-51 | a literal is `NULL` exactly for `null`; `undefined` becomes `'undefined'`; a string is wrapped in quotes without escaping |
| Rqlite.PlainLiteral | server.js:50 | a value whose rendering holds no `?` gives `?`-free literals in all three forms |
| Rqlite.PlainLiterals | server.js:46-52 | the same for a whole parameter list |
| Rqlite.NoParamsUnchanged | server.js:41-89 | with no parameters both functions send the statement as written |
| Rqlite.ExecuteStep | server.js:46-52 | one loop step replaces the first `?` with the first parameter's literal and continues with the rest; with no `?` left a parameter is consumed without effect |
| Rqlite.ExecutePositional | server.js:41-53 | when no parameter renders a `?`, `executeRQLiteQuery` puts the i-th literal in the i-th placeholder of the statement |
| Rqlite.ExecutePlaceholdersLeft | server.js:41-53 | when no parameter renders a `?`, unmatched placeholders stay in the text: exactly the number of placeholders beyond the parameter count |
| Rqlite.ReplaceAfter | server.js:48-50 | a placeholder after `?`-free text is the one replaced |
| Rqlite.ExecuteMarkInParameter | server.js:46-52 | a `?` inside a substituted value is taken by the next parameter, so the second parameter lands inside the first value's quotes |
| Rqlite.ReplaceEachTwo | server.js:46-52 | two loop steps are two successive first-occurrence replacements |
| Rqlite.CaptureStep | server.js:46-52 | the second replacement after a value with a `?` hits the value's `?`, not the statement's |
| Rqlite.QueryDatetimeTemplate | server.js:76-89 | for a statement with only `datetime(?)` placeholders, no more of them than parameters, `?`-free pieces and `?`-free values, `queryRQLite` fills them in order and leaves no `?` for the second pass |
| Rqlite.FillMarkFree | server.js:81-84 | for `?`-free segments, filling every placeholder with `?`-free literals leaves a `?`-free text |
| Rqlite.QueryMarkInValue | server.js:79-89 | with one parameter `a?b` (`a` `?`-free) and a `datetime(?)` after `?`-free text, the plain pass replaces the `?` inside `datetime('a?b')` by the quoted parameter, giving `datetime('a'a?b'b')` |
| Rqlite.QueryRestartsParameters | server.js:81-88 | the plain-`?` pass starts again from the first parameter: one parameter fills both a `datetime(?)` and a later `?` |
| Rqlite.FirstResult | server.js:159 | defines `result.results && result.results[0]`: the first result when `results` is a non-empty list, otherwise nothing |
| Rqlite.Columns | server.js:161 | defines `result.results[0].columns \|\| []` |
| Rqlite.Rows | server.js:160 | defines `result.results[0].values \|\| []` |
| Rqlite.RowsAffected | server.js:233 | defines `rows_affected \|\| 0`: the count, or 0 when it is absent |
| Rqlite.CellAt | server.js:167 | defines `row[index]`: the cell, or `undefined` past the row's end |
| Rqlite.RowRecord | server.js:165-169 | defines the record of one row: each column name in turn set to the cell at its index; `RowRecordKeys` and `RowRecordValue` state its content |
| Rqlite.Records | server.js:159-178 | defines the GET reply's records: one per row of `values \|\| []`, none without `results[0]`; `RecordsShape` and `ToRecords` state its properties |
| Rqlite.RowRecordKeys | server.js:165-168 | an event record has exactly the column names as keys |
| Rqlite.RowRecordValue | server.js:166-168 | the value under a column name is the row's cell at that column's index, or `undefined` past the row's end; a later duplicate column overwrites an earlier one |
| Rqlite.RecordsShape | server.js:159-178 | no `results[0]` gives no records; otherwise one record per row of `values \|\| []`, built from `columns \|\| []` |
| Rqlite.ToRecords | server.js:159-170 | the `rows.map` / `columns.forEach` loops build the records `Records` specifies |
| Middleware.PresentedKey | server.js:23 | defines the presented key `req.headers['x-api-key'] \|\| req.query.api_key`; `HeaderTakesPrecedence` states its effect |
| Middleware.RequireApiKey | middleware.js:23-40 | the request passes exactly when a non-empty key is configured and the presented key equals it; otherwise 500 when no key is configured, 401 when none is presented and 403 when it differs (the identical copy is at server.js:22-39) |
| Middleware.ConfigurationCheckedFirst | server.js:26-28 | without a configured key the answer is 500 whatever credentials come with the request |
| Middleware.HeaderTakesPrecedence | server.js:23 | a non-empty `x-api-key` header decides alone; otherwise the `api_key` query parameter does |
| Middleware.DenialStatus | server.js:26-36 | the three refusals are told apart by their status code alone |
| Events.RangeQuery | server.js:138-143 | the two-bound GET statement, spelled as the template literal is, whitespace included, with its two `datetime(?)` placeholders |
| Events.SinceQuery | server.js:146-151 | the one-bound GET statement, spelled as the template literal is, with its one `datetime(?)` placeholder |
| Events.PlanList | server.js:126-153 | defines the GET handler's choice: 400 without a non-empty `start_time`, the two-bound query with a non-empty `end_time`, otherwise the one-bound query |
| Events.ListEvents | server.js:122-184 | defines the GET handler: the plan, the `queryRQLite` call, and 500 or 200 with the records; `ListNeedsStart`, `ListWithRange`, `ListSince` and `ListReply` state its behaviour |
| Events.ListNeedsStart | server.js:126-130 | GET makes no rqlite call exactly when `start_time` is missing or empty, and then answers 400 `start_time is required` |
| Events.ListWithRange | server.js:137-144 | with a non-empty `end_time` the two-bound query runs with `[start_time, end_time]`; when neither holds a `?` the values land in its two `datetime(?)`s in order and nothing else changes |
| Events.ListSince | server.js:145-153 | without `end_time` the one-bound query runs with `[start_time]`; when `start_time` holds no `?` it lands in its `datetime(?)` and nothing else changes |
| Events.ListReply | server.js:157-183 | a failed query gives 500 `Internal server error`; a reply gives 200 with the records of the reply, which is empty when there is no `results[0]` |
| Events.FirstMissing | server.js:189-194 | defines the first of the given fields the body leaves `undefined`; `FirstMissingIsFirst` states its meaning |
| Events.FirstMissingIsFirst | server.js:189-194 | the field reported missing is the first of `lat`, `long`, `type` that is undefined, and none is reported exactly when all are defined |
| Events.CheckRequired | server.js:189-194 | the required-field loop with its early exit returns the first undefined required field, or none exactly when all are defined |
| Events.MissingField | server.js:192 | defines the 400 response `Missing required field: <field>` |
| Events.ValidType | server.js:196-197 | defines `validTypes.includes(type)`: a string equal to `active` or `inactive` |
| Events.InsertParams | server.js:209 | defines the INSERT parameters `[lat, long, start_time, end_time, note \|\| '', type]` |
| Events.CreateEvent | server.js:186-223 | defines the POST handler behind the guard: field and type checks, the INSERT, and 201 or 500; `CreateCallsIff`, `CreateValidation` and `CreateReply` state its behaviour |
| Events.CreateCallsIff | server.js:186-209 | POST calls rqlite exactly when the key is accepted, `lat`, `long`, `type` are all defined and `type` is `active` or `inactive`; the call is the INSERT with the six parameters in order |
| Events.CreateValidation | server.js:189-201 | the first undefined field (`=== undefined`) in the order `lat`, `long`, `type` gives 400 naming it; after that, a type that is not exactly `active` or `inactive` gives 400 without a call |
| Events.CreateReply | server.js:209-222 | after the insert: a failed call gives 500 with its message, a reply with `results[0]` gives 201, any other reply gives 500 `Unexpected result from rqlite` |
| Events.InsertOptionalFields | server.js:187-209 | a falsy `note` is sent as `''`; a missing `start_time` or `end_time` is sent as `'undefined'`; only an explicit `null` `end_time` gives `NULL` |
| Events.InsertQuery | server.js:204-207 | the INSERT statement, spelled as the template literal is, with its six `?` placeholders between the segments of `InsertSegments` |
| Events.InsertText | server.js:204-209 | when no parameter renders a `?`, the six literals fill the six placeholders of the INSERT in order |
| Events.InsertPiecesMarkFree | server.js:204-207 | the INSERT text has no `?` other than its six placeholders |
| Events.ListPiecesMarkFree | server.js:138-151 | the GET queries have no `?` other than those inside their `datetime(?)`s |
| Events.FillTwoHoles | server.js:81-84 | a template with two placeholders receives two `?`-free literals in order |
| Events.FillOneHole | server.js:81-84 | a template with one placeholder receives a `?`-free literal |
| Events.DeleteReply | server.js:232-248 | after the call: 404 exactly when `results[0]` exists and `rows_affected` is 0 or absent; 200 exactly when it exists with any other count; 500 exactly when the call failed (with its message) or there is no `results[0]` |
| Events.DeleteQuery | server.js:229 | the statement `DELETE FROM events WHERE id = ?` |
| Events.DeleteText | server.js:229-230 | the id is spliced into the DELETE between single quotes whatever it holds, `$` patterns excepted, since it is the only parameter |
| Events.DeleteEvent | server.js:225-249 | defines the DELETE handler behind the guard: the quoted DELETE and `DeleteReply` of its outcome; `DeleteOutcome` and `GuardBeforeStorage` state its behaviour |
| Events.DeleteOutcome | server.js:225-248 | with an accepted key, DELETE sends `DELETE FROM events WHERE id = '<id>'` and answers `DeleteReply` of the outcome |
| Events.GuardBeforeStorage | server.js:186-249 | with a refused key neither POST nor DELETE calls rqlite, and the response is the guard's |

## Left out

- The HTTP exchange with rqlite (`fetch`, the `/db/execute` and `/db/query` URLs, `response.ok`, JSON parsing). The outcome is an input (`Transport`). The message of a failure, including the `rqlite execute failed: …` text, is taken as given.
- Express wiring, CORS, static files, the page routes and the request logger. They contain no decision logic.
- `console.log` and `console.error` output.
- The `/api/llm` route and `utils.js`: they are a call into an external language-model service.
- `db.js` and `init_db.js`: the other storage back end and the schema set-up are not part of this model.
- SQLite's evaluation of the posted statement, so also what an unescaped quote in a value does there. The result is an input.
- JavaScript `replace` replacement patterns in a substituted value. Neither pattern used (`'?'` and `/datetime\(\?\)/`) has a capture group, so only `$$`, `$&`, `` $` `` and `$'` expand; `$1`, `$<` and a lone `$` stay as they are. The model inserts the replacement literally, so `ReplaceFirst` differs from JavaScript only for values that contain one of those four patterns.
- Number rendering. A number is carried as the text `String(n)` would give (`JsValue.Num`), so floating-point formatting is not modelled.
- Objects and arrays in the request body or in query parameters, which render as `[object Object]` or comma lists. Only scalar values are modelled.
- Repeated query parameters, which Express delivers as arrays. The model takes `start_time`, `end_time` and `api_key` each as one optional string.
- The JSON encoding of responses, in which fields holding `undefined` disappear from a record. Records keep `Undefined` cells.
- The special `__proto__` key when records are built. Records are plain maps.
- An `error` field inside an rqlite result. The code ignores it too; it only checks that `results[0]` exists.
- Exceptions thrown while building records from a malformed reply. A `null` row makes `row[index]` throw (server.js:167), and a truthy `values` that is not an array makes `rows.map` throw (server.js:164); either leads to the 500 of the GET catch block. Rows here are always sequences of cells, and `values` is always a list of rows.
- The key order of each GET record. The object built at server.js:165-168 keeps its keys in column order, and `res.json` writes them in that order. A record here is an unordered map, so only its keys and values are modelled.
- Events.ListWithRange: the resulting statement is stated only when the values contain no `?`. With a `?` in a value, the text is given by `QueryText`; `QueryMarkInValue` shows for one parameter how the plain pass takes such a `?`.
- Events.ListSince: the resulting statement is stated only when `start_time` holds no `?`. A `?` in it is taken by the second pass, so `"?"` gives `datetime(''?'')`, as `QueryMarkInValue` shows (with empty `a` and `b`).
- Rqlite.ExecutePlaceholdersLeft: the placeholder count is stated only when no parameter renders a `?`. A `?` inside a value can take a later parameter and leave a template placeholder in place, as `ExecuteMarkInParameter` shows.
- Events.InsertText: the INSERT text is stated through `Fill` only when no parameter renders a `?`. Otherwise `ExecuteText`, with `ExecuteStep`, gives it.
- Integer width: `rows_affected` is an unbounded integer, since JSON numbers in rqlite replies are integers here.
