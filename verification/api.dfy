/**
 * The HTTP layer: the five JSON endpoints over the task store, each a pure
 * function from the store and an already-parsed request to the next store,
 * a status code and a reply body. Routing, JSON parsing and serialisation
 * belong to the web framework and are not modelled.
 */
module Api {
  import opened Wrappers
  import opened Text
  import opened Database

  /**
   * A JSON value as the handlers see it. Only strings and null are told
   * apart; any other value (number, boolean, array, object) keeps just its
   * Python truthiness, which is all the handlers can observe of it.
   */
  datatype JVal = JStr(str: string) | JNull | JOther(truthy: bool)

  /**
   * The result of parsing the request body: nothing usable (empty or
   * malformed), a JSON object, or some other JSON value.
   */
  datatype Body = NoBody | Obj(fields: map<string, JVal>) | NonObject(truthy: bool)

  /** What a handler answers with, before serialisation. */
  datatype Reply =
    | TaskReply(task: Task)
    | ListReply(tasks: seq<Task>)
    | ErrorReply(error: string)
    | MessageReply(message: string)

  datatype Response = Response(store: Store, code: nat, reply: Reply)

  const Ok: nat := 200
  const Created: nat := 201
  const BadRequest: nat := 400
  const NotFound: nat := 404
  const InternalError: nat := 500

  const NoDataMessage: string := "No data provided"
  const TitleRequiredMessage: string := "Title is required"
  const TitleEmptyMessage: string := "Title cannot be empty"
  const StatusMessage: string := "Status must be one of: pending, in_progress, completed"
  const NotFoundMessage: string := "Task not found"
  const InternalMessage: string := "Internal server error"
  const DeletedMessage: string := "Task deleted successfully"

  /** The three values the status field may take. */
  const ValidStatuses: seq<string> := ["pending", "in_progress", "completed"]

  /** The status a create gets when the request does not name one. */
  const DefaultStatus: string := "pending"

  // ------------------------------------------------------------- invariant

  /** A task the handlers are willing to store: a title with content, a known status. */
  predicate ValidTask(t: Task) {
    !IsBlank(t.title) && t.status in ValidStatuses
  }

  /** The store invariant every handler keeps. */
  predicate Invariant(s: Store) {
    WellFormed(s) && forall k :: k in s.rows ==> ValidTask(s.rows[k])
  }

  // --------------------------------------------------------------- helpers

  /** Python's `if not data` on the parsed body: None, `{}` and falsy scalars fail. */
  predicate HasData(b: Body) {
    match b
    case NoBody => false
    case Obj(m) => |m| > 0
    case NonObject(t) => t
  }

  /** Python truthiness of a field value. */
  predicate Truthy(v: JVal) {
    match v
    case JStr(s) => s != []
    case JNull => false
    case JOther(t) => t
  }

  /** `data.get(key, default)`. */
  function GetOr(m: map<string, JVal>, key: string, default: JVal): JVal {
    if key in m then m[key] else default
  }

  /** `data.get(key)`: an absent key reads as None, exactly like an explicit null. */
  function Get(m: map<string, JVal>, key: string): JVal {
    GetOr(m, key, JNull)
  }

  /** `status in valid_statuses`: only a string equal to one of the three can pass. */
  predicate IsValidStatus(v: JVal) {
    v.JStr? && v.str in ValidStatuses
  }

  /** A field value the model lets the table bind: a string or null (any other value is modelled as a failed bind). */
  predicate Bindable(v: JVal) {
    !v.JOther?
  }

  /** The column value a bindable field value is stored as. */
  function AsText(v: JVal): Option<string>
    requires Bindable(v)
  {
    if v.JStr? then Some(v.str) else None
  }

  function Error(s: Store, code: nat, message: string): Response {
    Response(s, code, ErrorReply(message))
  }

  // ------------------------------------------------------------ POST /tasks

  /**
   * The requests a create accepts, stated field by field: an object whose
   * title is a string with content, whose status is absent or one of the
   * three values, and whose description and due date are strings, null or
   * absent.
   */
  predicate CreateAccepts(b: Body) {
    && b.Obj?
    && "title" in b.fields && b.fields["title"].JStr? && !IsBlank(b.fields["title"].str)
    && ("status" !in b.fields || IsValidStatus(b.fields["status"]))
    && Bindable(Get(b.fields, "description"))
    && Bindable(Get(b.fields, "due_date"))
  }

  /** Why a request was turned down before the store was touched: status code and message. */
  datatype Rejection = Rejection(code: nat, message: string)

  /** The column values a create inserts. */
  datatype NewTask = NewTask(title: string, description: Option<string>, dueDate: Option<string>, status: string)

  /**
   * The checks `api_create_task` makes before inserting, in the code's
   * order: a body with data (else 400), an object (else the `.get` call
   * faults: 500), a title with content (400 when missing, null, empty or
   * blank; 500 when it is a truthy non-string, whose `.strip()` faults), a
   * valid status (absent means pending; null or anything else is 400), and
   * a string or null description and due date (anything else is modelled as
   * a failed bind in the INSERT: 500). It accepts exactly the requests
   * `CreateAccepts` describes, and what it accepts obeys the store rules.
   */
  function ValidateCreate(body: Body): (r: Result<NewTask, Rejection>)
    ensures r.Success? <==> CreateAccepts(body)
    ensures r.Failure? ==> r.error.code in {BadRequest, InternalError}
    ensures !HasData(body) ==> r == Failure(Rejection(BadRequest, NoDataMessage))
    ensures body.Obj? && HasData(body) && !Truthy(Get(body.fields, "title"))
      ==> r == Failure(Rejection(BadRequest, TitleRequiredMessage))
    ensures body.Obj? && Get(body.fields, "title").JStr? && IsBlank(Get(body.fields, "title").str)
      ==> r == Failure(Rejection(BadRequest, TitleRequiredMessage))
    ensures body.Obj? && Get(body.fields, "title").JStr? && !IsBlank(Get(body.fields, "title").str)
            && "status" in body.fields && !IsValidStatus(body.fields["status"])
      ==> r == Failure(Rejection(BadRequest, StatusMessage))
    ensures r.Success? ==>
      var m := body.fields;
      && r.value.title == Strip(m["title"].str)
      && r.value.description == AsText(Get(m, "description"))
      && r.value.dueDate == AsText(Get(m, "due_date"))
      && r.value.status == (if "status" in m then m["status"].str else DefaultStatus)
    ensures r.Success? ==> !IsBlank(r.value.title) && r.value.status in ValidStatuses
  {
    if !HasData(body) then Failure(Rejection(BadRequest, NoDataMessage))
    else if body.NonObject? then Failure(Rejection(InternalError, InternalMessage))
    else
      var m := body.fields;
      var title := Get(m, "title");
      if !Truthy(title) then Failure(Rejection(BadRequest, TitleRequiredMessage))
      else if title.JOther? then Failure(Rejection(InternalError, InternalMessage))
      else if Strip(title.str) == [] then Failure(Rejection(BadRequest, TitleRequiredMessage))
      else
        var description := Get(m, "description");
        var dueDate := Get(m, "due_date");
        var status := GetOr(m, "status", JStr(DefaultStatus));
        if !IsValidStatus(status) then Failure(Rejection(BadRequest, StatusMessage))
        // a non-string value is modelled as a failed bind in the INSERT, which rolls back
        else if !Bindable(description) || !Bindable(dueDate) then Failure(Rejection(InternalError, InternalMessage))
        else Success(NewTask(Strip(title.str), AsText(description), AsText(dueDate), status.str))
  }

  /**
   * `api_create_task`: validates, inserts the row and answers 201 with the
   * re-read row. Every other answer leaves the store as it was; 201 is
   * given exactly for the requests `CreateAccepts` describes, and then the
   * store gains exactly one row, under a fresh id, holding the stripped
   * title, the description and due date verbatim, and the status asked for
   * or pending.
   */
  function CreateTask(s: Store, body: Body): (r: Response)
    ensures r.code in {Created, BadRequest, InternalError}
    ensures r.code != Created ==> r.store == s && r.reply.ErrorReply?
    ensures !HasData(body) ==> r == Error(s, BadRequest, NoDataMessage)
    ensures body.Obj? && (!Truthy(Get(body.fields, "title"))
                          || (Get(body.fields, "title").JStr? && IsBlank(Get(body.fields, "title").str)))
      ==> r.code == BadRequest
    ensures body.Obj? && "status" in body.fields && !IsValidStatus(body.fields["status"]) ==> r.code != Created
    ensures body.Obj? && Get(body.fields, "title").JStr? && !IsBlank(Get(body.fields, "title").str)
            && "status" in body.fields && !IsValidStatus(body.fields["status"])
      ==> r == Error(s, BadRequest, StatusMessage)
    ensures r.code == Created <==> CreateAccepts(body)
    ensures r.code == Created ==>
      var m := body.fields;
      && r.reply.TaskReply?
      && var t := r.reply.task;
      && t.id >= s.nextId
      && (WellFormed(s) ==> t.id !in s.rows)
      && r.store.rows == s.rows[t.id := t]
      && t.title == Strip(m["title"].str)
      && t.description == AsText(Get(m, "description"))
      && t.dueDate == AsText(Get(m, "due_date"))
      && t.status == (if "status" in m then m["status"].str else DefaultStatus)
    ensures r.code == Created ==> ValidTask(r.reply.task)
  {
    match ValidateCreate(body)
    case Failure(e) => Error(s, e.code, e.message)
    case Success(t) =>
      var ins := Database.Create(s, t.title, t.description, t.dueDate, t.status);
      var task := GetById(ins.store, ins.id);
      Response(ins.store, Created, TaskReply(task.value))
  }

  // ------------------------------------------------------------- GET /tasks

  /** `api_get_all_tasks`: always 200 with every task, newest first; the store is untouched. */
  function ListTasks(s: Store): (r: Response)
    ensures r.store == s && r.code == Ok && r.reply.ListReply?
    ensures WellFormed(s) ==> |r.reply.tasks| == |s.rows|
    ensures WellFormed(s) ==> forall t :: t in r.reply.tasks <==> t in s.rows.Values
    ensures WellFormed(s) ==> forall i, j :: 0 <= i < j < |r.reply.tasks| ==> r.reply.tasks[i].id > r.reply.tasks[j].id
  {
    Response(s, Ok, ListReply(GetAll(s)))
  }

  // -------------------------------------------------------- GET /tasks/<id>

  /** `api_get_task`: 200 with the task when it exists, 404 otherwise; the store is untouched. */
  function GetTask(s: Store, id: nat): (r: Response)
    ensures r.store == s
    ensures r.code == Ok <==> id in s.rows
    ensures r.code == Ok ==> r.reply == TaskReply(s.rows[id])
    ensures id !in s.rows ==> r == Error(s, NotFound, NotFoundMessage)
  {
    match GetById(s, id)
    case None => Error(s, NotFound, NotFoundMessage)
    case Some(task) => Response(s, Ok, TaskReply(task))
  }

  // -------------------------------------------------------- PUT /tasks/<id>

  /** The patch a valid update request asks for: absent and null fields are not supplied. */
  function PatchOf(m: map<string, JVal>): Patch
    requires Bindable(Get(m, "title")) && Bindable(Get(m, "description"))
    requires Bindable(Get(m, "due_date")) && Bindable(Get(m, "status"))
  {
    Patch(AsText(Get(m, "title")), AsText(Get(m, "description")),
          AsText(Get(m, "due_date")), AsText(Get(m, "status")))
  }

  /**
   * The update requests that pass validation, stated field by field: a
   * non-empty object whose status is null, absent or one of the three
   * values, and whose title is null, absent or a string with content.
   */
  predicate UpdateValid(b: Body) {
    && b.Obj? && |b.fields| > 0
    && (Get(b.fields, "status").JNull? || IsValidStatus(Get(b.fields, "status")))
    && (Get(b.fields, "title").JNull? || (Get(b.fields, "title").JStr? && !IsBlank(Get(b.fields, "title").str)))
  }

  /**
   * The checks `api_update_task` makes before touching the store, in the
   * code's order: a body with data (else 400), an object (else the `.get`
   * call faults: 500), a null-or-valid status (else 400), a title that is
   * null or a string with content (400 when blank; 500 when it is any other
   * value, whose `.strip()` faults). None means the request passed, which
   * happens exactly for the requests `UpdateValid` describes.
   */
  function ValidateUpdate(body: Body): (r: Option<Rejection>)
    ensures r.None? <==> UpdateValid(body)
    ensures r.Some? ==> r.value.code in {BadRequest, InternalError}
    ensures !HasData(body) ==> r == Some(Rejection(BadRequest, NoDataMessage))
    ensures body.Obj? && HasData(body) && !Get(body.fields, "status").JNull? && !IsValidStatus(Get(body.fields, "status"))
      ==> r == Some(Rejection(BadRequest, StatusMessage))
    ensures body.Obj? && HasData(body) && (Get(body.fields, "status").JNull? || IsValidStatus(Get(body.fields, "status")))
            && Get(body.fields, "title").JStr? && IsBlank(Get(body.fields, "title").str)
      ==> r == Some(Rejection(BadRequest, TitleEmptyMessage))
  {
    if !HasData(body) then Some(Rejection(BadRequest, NoDataMessage))
    else if body.NonObject? then Some(Rejection(InternalError, InternalMessage))
    else
      var m := body.fields;
      var title := Get(m, "title");
      var status := Get(m, "status");
      if !status.JNull? && !IsValidStatus(status) then Some(Rejection(BadRequest, StatusMessage))
      else if title.JOther? then Some(Rejection(InternalError, InternalMessage))
      else if title.JStr? && Strip(title.str) == [] then Some(Rejection(BadRequest, TitleEmptyMessage))
      else None
  }

  /**
   * `api_update_task`: validates before touching the store, then runs
   * `update_task` with the untrimmed title: 404 when the id is absent,
   * otherwise 200 with the re-read row, in which exactly the fields given
   * as strings changed. Every answer but 200 leaves the store as it was.
   */
  function UpdateTask(s: Store, id: nat, body: Body): (r: Response)
    ensures r.code in {Ok, BadRequest, NotFound, InternalError}
    ensures r.code != Ok ==> r.store == s
    ensures !HasData(body) ==> r == Error(s, BadRequest, NoDataMessage)
    ensures body.Obj? && HasData(body) && !Get(body.fields, "status").JNull? && !IsValidStatus(Get(body.fields, "status"))
      ==> r == Error(s, BadRequest, StatusMessage)
    ensures r.code == NotFound <==> UpdateValid(body) && id !in s.rows
    ensures r.code == Ok <==> UpdateValid(body) && id in s.rows
                              && Bindable(Get(body.fields, "description")) && Bindable(Get(body.fields, "due_date"))
    ensures body.Obj? && HasData(body) && (Get(body.fields, "status").JNull? || IsValidStatus(Get(body.fields, "status")))
            && Get(body.fields, "title").JStr? && IsBlank(Get(body.fields, "title").str)
      ==> r == Error(s, BadRequest, TitleEmptyMessage)
    ensures r.code == Ok ==> id in s.rows && id in r.store.rows
    ensures r.code == Ok ==>
      var m := body.fields;
      var was := s.rows[id];
      var now := r.store.rows[id];
      && r.reply == TaskReply(now)
      && r.store.nextId == s.nextId && r.store.rows.Keys == s.rows.Keys
      && (forall k :: k in s.rows && k != id ==> r.store.rows[k] == s.rows[k])
      && now.id == was.id
      && now.title == (if Get(m, "title").JStr? then Get(m, "title").str else was.title)
      && now.description == (if Get(m, "description").JStr? then Some(Get(m, "description").str) else was.description)
      && now.dueDate == (if Get(m, "due_date").JStr? then Some(Get(m, "due_date").str) else was.dueDate)
      && now.status == (if Get(m, "status").JStr? then Get(m, "status").str else was.status)
  {
    match ValidateUpdate(body)
    case Some(e) => Error(s, e.code, e.message)
    case None =>
      var m := body.fields;
      if !Bindable(Get(m, "description")) || !Bindable(Get(m, "due_date")) then
        // `update_task` finds the row first; a non-string value is then modelled as a failed bind in the UPDATE, which rolls back
        if Exists(s, id) then Error(s, InternalError, InternalMessage)
        else Error(s, NotFound, NotFoundMessage)
      else
        var out := Update(s, id, PatchOf(m));
        if !out.ok then Error(out.store, NotFound, NotFoundMessage)
        else Response(out.store, Ok, TaskReply(GetById(out.store, id).value))
  }

  // ----------------------------------------------------- DELETE /tasks/<id>

  /**
   * `api_delete_task`: 200 with a confirmation when the id was present, and
   * then it is gone with every other task unchanged; 404 with the store
   * unchanged otherwise.
   */
  function DeleteTask(s: Store, id: nat): (r: Response)
    ensures r.code == Ok <==> id in s.rows
    ensures r.code != Ok ==> r == Error(s, NotFound, NotFoundMessage)
    ensures r.code == Ok ==> r.reply == MessageReply(DeletedMessage)
    ensures id !in r.store.rows && r.store.nextId == s.nextId
    ensures r.store.rows.Keys == s.rows.Keys - {id}
    ensures forall k :: k in r.store.rows ==> r.store.rows[k] == s.rows[k]
  {
    var out := Delete(s, id);
    if !out.ok then Error(out.store, NotFound, NotFoundMessage)
    else Response(out.store, Ok, MessageReply(DeletedMessage))
  }

  // ------------------------------------------------------------- requests

  datatype Request =
    | PostTask(body: Body)
    | GetTasks
    | GetOne(id: nat)
    | PutTask(id: nat, body: Body)
    | DeleteOne(id: nat)

  /** Routes a request to its handler. */
  function Dispatch(s: Store, req: Request): Response {
    match req
    case PostTask(b) => CreateTask(s, b)
    case GetTasks => ListTasks(s)
    case GetOne(id) => GetTask(s, id)
    case PutTask(id, b) => UpdateTask(s, id, b)
    case DeleteOne(id) => DeleteTask(s, id)
  }

  /** A create keeps the store invariant: the stored title is the stripped, non-blank one. */
  lemma CreatePreservesInvariant(s: Store, body: Body)
    requires Invariant(s)
    ensures Invariant(CreateTask(s, body).store)
  {
  }

  /** An update keeps the store invariant: a supplied title has content, a supplied status is valid. */
  lemma UpdatePreservesInvariant(s: Store, id: nat, body: Body)
    requires Invariant(s)
    ensures Invariant(UpdateTask(s, id, body).store)
  {
  }

  /** Every handler keeps the store invariant. */
  lemma DispatchPreservesInvariant(s: Store, req: Request)
    requires Invariant(s)
    ensures Invariant(Dispatch(s, req).store)
  {
    match req
    case PostTask(b) => CreatePreservesInvariant(s, b);
    case PutTask(id, b) => UpdatePreservesInvariant(s, id, b);
    case GetTasks =>
    case GetOne(_) =>
    case DeleteOne(_) =>
  }

  /**
   * Serves a sequence of requests one after another, returning the final
   * store and one status code per request. Starting from a store that
   * satisfies the invariant, the final store satisfies it too.
   */
  function Serve(s: Store, reqs: seq<Request>): (r: (Store, seq<nat>))
    ensures |r.1| == |reqs|
    ensures Invariant(s) ==> Invariant(r.0)
    decreases |reqs|
  {
    if reqs == [] then (s, [])
    else
      var first := Dispatch(s, reqs[0]);
      assert Invariant(s) ==> Invariant(first.store) by {
        if Invariant(s) {
          DispatchPreservesInvariant(s, reqs[0]);
        }
      }
      var rest := Serve(first.store, reqs[1..]);
      (rest.0, [first.code] + rest.1)
  }

  /** A created task reads back unchanged through `GET /tasks/<id>`. */
  lemma CreateThenGet(s: Store, body: Body)
    requires CreateAccepts(body)
    ensures var r := CreateTask(s, body);
      GetTask(r.store, r.reply.task.id) == Response(r.store, Ok, r.reply)
  {
  }

  /**
   * An update naming no known field, or only nulls, still answers 200 for an
   * existing id and changes nothing; for a missing id it answers 404.
   */
  lemma UpdateNothingSupplied(s: Store, id: nat, body: Body)
    requires body.Obj? && HasData(body)
    requires forall key :: key in ["title", "description", "due_date", "status"] ==> Get(body.fields, key) == JNull
    ensures var r := UpdateTask(s, id, body);
      && r.store == s
      && (id in s.rows ==> r.code == Ok && r.reply == TaskReply(s.rows[id]))
      && (id !in s.rows ==> r.code == NotFound)
  {
  }

  /** Deleting a stored task succeeds, and a following get on the same id answers 404. */
  lemma DeleteThenGet(s: Store, id: nat)
    requires id in s.rows
    ensures DeleteTask(s, id).code == Ok
    ensures GetTask(DeleteTask(s, id).store, id).code == NotFound
  {
  }
}
