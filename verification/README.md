# Task tracker: a Dafny model of the store and the JSON handlers

The service keeps "task" records (id, title, optional description, optional
due date, status) in one SQLite table and exposes create, list, get, update
and delete over a JSON HTTP API. This project models its two pieces of logic
as pure functions and proves what they promise:

- `database.dfy` (module `Database`): the `tasks` table as a map from id to
  `Task` plus the AUTOINCREMENT counter `nextId`, and the five data-access
  calls. Update is modelled the way the code builds it: a SET clause with one
  `column = ?` item per supplied field, executed item by item on the row.
  `Run` performs any sequence of creates, updates and deletes.
- `api.dfy` (module `Api`): the request body as `NoBody | Obj(map) |
  NonObject`, field values as `JStr | JNull | JOther` (non-string values keep
  only their Python truthiness), and the five endpoints as functions
  `(Store, request) -> Response(store, code, reply)` with the validation
  order, trimming, status check and status-code mapping of the code.
  `Invariant` is the store invariant the handlers keep: ids match keys and
  lie below the counter, every title has non-whitespace content, every
  status is `pending`, `in_progress` or `completed`.
- `text.dfy` (module `Text`): Python's `str.strip()` and the blank test.
- `scenario.dfy` (module `Workflow`): the create / read / update / delete /
  read workflow on a fresh table.
- `wrappers.dfy` (module `Wrappers`): `Option`, standing for `None`.

Behaviour worth knowing, all taken from the code:

- An empty JSON object counts as "no data" (400), like a missing body.
- On update an explicit `null` and an absent key are the same ("not
  supplied"); on create an explicit `null` status is not the default and is
  rejected with 400.
- Create stores the stripped title; update stores the title as sent.
- Update looks the id up before anything else, so a request with no known
  field answers 404 for a missing id and 200 with nothing changed for an
  existing one.
- A truthy non-string title makes `.strip()` raise: 500 on create, and on
  update (where any non-null non-string title raises) 500 once the status
  check has passed. A falsy non-string title on create is "Title is
  required" (400).
- A non-object body that is truthy makes `.get` raise: 500.

## Model

| member | source | states |
|---|---|---|
| Text.TrimStart | app/app.py:55 | the result is a suffix of the input, everything dropped is whitespace, and it does not start with whitespace |
| Text.TrimEnd | app/app.py:55 | the result is a prefix of the input, everything dropped is whitespace, and it does not end with whitespace |
| Text.Strip | app/app.py:55 | the result starts and ends with non-whitespace, and is empty exactly when the input is blank |
| Text.StripIsSlice | app/app.py:69 | the stripped title is a slice of the input with only whitespace cut off on either side |
| Text.StripIdempotent | app/app.py:69 | stripping a stripped title changes nothing |
| Database.Create | app/database.py:47-59 | the new id is at or above the counter, absent from the table and above every stored id; exactly one row is added, holding the given fields; all other rows are unchanged; well-formedness is kept |
| Database.KeysBelow | app/database.py:69 | the listed ids are stored, below the bound, and strictly descending |
| Database.KeysBelowComplete | app/database.py:69 | every stored id below the bound is listed |
| Database.KeysBelowCount | app/database.py:69-71 | the listing has one entry per stored id below the bound |
| Database.GetAll | app/database.py:64-73 | on a well-formed table: as many tasks as rows, exactly the stored tasks, in strictly descending id order (so empty for an empty table) |
| Database.ListingCoversRows | app/database.py:69-71 | on a well-formed table the listing has one entry per stored row and contains every stored row |
| Database.GetById | app/database.py:78-89 | Some exactly when the id is stored, and then the stored row, whose id is the one asked for |
| Database.Item | app/database.py:112-123 | a supplied field yields one SET item for its column, an unsupplied one yields none |
| Database.SetClause | app/database.py:108-123 | the SET clause has distinct columns, is empty exactly when no field is supplied, and assigns each column exactly the supplied value |
| Database.ApplySet | app/database.py:125-128 | executing the SET clause leaves every assigned column with its value and every other column and the id as they were |
| Database.Update | app/database.py:94-132 | false and no change when the id is absent; otherwise true, each supplied field overwritten, unsupplied fields, id, counter and other rows unchanged; nothing changes when nothing is supplied |
| Database.UpdateIdempotent | app/database.py:108-128 | the same update applied twice leaves the same table as applied once |
| Database.Delete | app/database.py:137-148 | true exactly when the id was stored; afterwards it is absent, the row count drops by one exactly then, other rows and the counter are unchanged |
| Database.Step | app/database.py:47-148 | no data-access call lowers the counter; only a create yields an id, lying between the counter before and after; well-formedness is kept |
| Database.Run | app/database.py:35 | over any sequence of creates, updates and deletes the created ids strictly increase and stay between the starting and final counter, so no id is reused; well-formedness is kept |
| Api.ValidateCreate | app/app.py:48-67 | checks in the code's order: no data 400 "No data provided", missing/empty/blank title 400 "Title is required", invalid or null status 400; accepts exactly the requests described field by field, yielding the stripped title, verbatim description and due date, and pending when no status is given; what it accepts has a non-blank title and a valid status |
| Api.CreateTask | app/app.py:44-77 | 201 exactly for an object with a non-blank string title, an absent or valid status and string/null description and due date; no data, a missing or blank title, an invalid or null status give 400; every non-201 answer leaves the store unchanged; on 201 the reply is the one added row, with a fresh id, the stripped title, verbatim description and due date, and status pending when none was given |
| Api.ListTasks | app/app.py:79-88 | 200 with every stored task once, newest first; store unchanged |
| Api.GetTask | app/app.py:90-103 | 200 with the stored task exactly when the id exists, else 404; store unchanged |
| Api.ValidateUpdate | app/app.py:109-130 | no data 400, then a non-null invalid status 400, then (status null or valid) a blank title 400 "Title cannot be empty"; passes exactly the requests described field by field |
| Api.UpdateTask | app/app.py:105-144 | no data 400, then invalid non-null status 400, then (status null or valid) blank title 400, all before any store change; 404 exactly when validation passes and the id is absent; 200 exactly when it passes, the id exists and description and due date are strings or null, and then only the supplied fields change and the reply is the re-read row |
| Api.DeleteTask | app/app.py:146-161 | 200 exactly when the id existed, then it is gone with other tasks unchanged; otherwise 404 with the store unchanged |
| Api.CreatePreservesInvariant | app/app.py:54-69 | a create keeps every title non-blank and every status valid |
| Api.UpdatePreservesInvariant | app/app.py:120-132 | an update keeps every title non-blank and every status valid |
| Api.DispatchPreservesInvariant | app/app.py:44-161 | every endpoint keeps the store invariant |
| Api.Serve | app/app.py:44-161 | any sequence of requests, served one after another, keeps the store invariant and yields one status code per request |
| Api.CreateThenGet | app/app.py:69-73 | the task a create answers with is what a following get returns |
| Api.UpdateNothingSupplied | app/database.py:125-132 | an update with only null or unknown fields changes nothing: 200 with the stored task for an existing id, 404 otherwise |
| Api.DeleteThenGet | tests/test_api.py:292-310 | deleting a stored task answers 200, and a get on that id afterwards answers 404 |
| Workflow.ValidateBuyMilk | tests/test_api.py:106-116 | a title-only body passes create validation with status pending |
| Workflow.PostBuyMilk | tests/test_api.py:106-116 | a title-only create on an empty table yields task 1 with status pending |
| Workflow.PutCompleted | tests/test_api.py:343-350 | a status-only update changes the status and keeps the title |
| Workflow.PutBlankTitle | tests/test_api.py:233-249 | an update whose only field is an all-space title answers 400 "Title cannot be empty" and leaves the store unchanged |
| Workflow.BuyMilk | tests/test_api.py:323-358 | the create, read, update, delete, read workflow answers 201, 200, 200, 200, 404 with the expected records |

## Left out

- Connections, commits, rollbacks and schema creation (app/database.py:10-45): each call is one atomic step on an in-memory map; storage faults are not modelled.
- The catch-all 500 paths (app/app.py:75-77 and the other `except` blocks) for storage faults, and the Flask 404/500 error handlers (app/app.py:163-173): only the faults the handlers' own code raises are modelled (a non-object body, a non-string title, a non-string description or due date).
- Api.CreateTask: a non-string, non-null description or due date is modelled as a failed insert (500, nothing stored); SQLite would store a number or boolean as text and only reject arrays and objects.
- Api.UpdateTask: the same simplification for a non-string description or due date on an existing id (500, nothing changed).
- Flask routing, `request.get_json` parsing, `jsonify` and the `<int:...>` path converter: requests arrive already parsed, with the id as a natural number.
- Logging (app/app.py:9-18 and throughout): side effects only.
- The index page and templates (app/app.py:32-40) and `run.py`: user interface and process start-up.
- Text.Strip: its own contract states only the end characters and the blank case; that the result is the slice between the cut-off whitespace is stated by Text.StripIsSlice.
- Concurrent requests: requests are served one after another.
- Text.IsSpace: Python's `str.strip()` removes every Unicode whitespace character; the model recognises the ASCII and Latin-1 ones only.
- Database.Create: the 64-bit rowid limit (an insert past the largest rowid fails) is not modelled; ids are unbounded.
