/**
 * The data-access layer: the single `tasks` table as an id-indexed map plus
 * the AUTOINCREMENT counter, and the five CRUD statements run against it.
 * Connections, commits and rollbacks are not modelled: each operation is one
 * all-or-nothing step from a store to a store.
 */
module Database {
  import opened Wrappers

  /** One row of `tasks`. The table does not constrain `status`: it is free text here. */
  datatype Task = Task(
    id: nat,
    title: string,
    description: Option<string>,
    dueDate: Option<string>,
    status: string)

  /**
   * The table contents keyed by id, and `nextId`: the rowid the next INSERT
   * receives (one more than the largest id ever handed out, which an
   * AUTOINCREMENT key remembers even after that row is deleted).
   */
  datatype Store = Store(rows: map<nat, Task>, nextId: nat)

  /** A freshly created table: no rows, first id 1. */
  const Empty: Store := Store(map[], 1)

  /** Every row sits under its own id, and every id lies below the counter. */
  predicate WellFormed(s: Store) {
    && 1 <= s.nextId
    && forall k :: k in s.rows ==> 1 <= k < s.nextId && s.rows[k].id == k
  }

  /** `SELECT id FROM tasks WHERE id = ?` finds a row. */
  predicate Exists(s: Store, id: nat) {
    id in s.rows
  }

  /** The store after an INSERT, and the `lastrowid` it reports. */
  datatype Inserted = Inserted(store: Store, id: nat)

  /** The store after an UPDATE or DELETE, and the boolean the operation returns. */
  datatype Outcome = Outcome(store: Store, ok: bool)

  // ---------------------------------------------------------------- create

  /**
   * `create_task`: inserts one row holding the given fields under a fresh id
   * and returns that id. The id is above every id ever assigned, so it is
   * never one already in the table; no other row changes.
   */
  function Create(s: Store, title: string, description: Option<string>, dueDate: Option<string>, status: string): (r: Inserted)
    ensures r.id >= s.nextId && r.store.nextId > r.id
    ensures WellFormed(s) ==> r.id !in s.rows && forall k :: k in s.rows ==> k < r.id
    ensures r.store.rows.Keys == s.rows.Keys + {r.id}
    ensures r.store.rows[r.id] == Task(r.id, title, description, dueDate, status)
    ensures forall k :: k in s.rows && k != r.id ==> r.store.rows[k] == s.rows[k]
    ensures WellFormed(s) ==> WellFormed(r.store) && |r.store.rows| == |s.rows| + 1
  {
    var id := s.nextId;
    Inserted(Store(s.rows[id := Task(id, title, description, dueDate, status)], id + 1), id)
  }

  // ------------------------------------------------------------------ read

  /** The ids below `n` present in `rows`. */
  function Below(rows: map<nat, Task>, n: nat): set<nat> {
    set k | k in rows && k < n
  }

  /** Raising the bound by one adds `n` to the ids below it when `n` is present. */
  lemma BelowSucc(rows: map<nat, Task>, n: nat)
    ensures n in rows ==> Below(rows, n + 1) == Below(rows, n) + {n}
    ensures n !in rows ==> Below(rows, n + 1) == Below(rows, n)
  {
  }

  /**
   * The ids below `n` present in `rows`, largest first: the row order of
   * `ORDER BY id DESC` restricted to ids under `n`.
   */
  function KeysBelow(rows: map<nat, Task>, n: nat): (ks: seq<nat>)
    ensures forall i :: 0 <= i < |ks| ==> ks[i] in rows && ks[i] < n
    ensures forall i, j :: 0 <= i < j < |ks| ==> ks[i] > ks[j]
    decreases n
  {
    if n == 0 then []
    else
      var rest := KeysBelow(rows, n - 1);
      if n - 1 in rows then [n - 1] + rest else rest
  }

  /** Every id below `n` present in `rows` is listed. */
  lemma {:induction false} KeysBelowComplete(rows: map<nat, Task>, n: nat, k: nat)
    requires k in rows && k < n
    ensures k in KeysBelow(rows, n)
    decreases n
  {
    var rest := KeysBelow(rows, n - 1);
    if k < n - 1 {
      KeysBelowComplete(rows, n - 1, k);
      assert k in rest;
      if n - 1 in rows {
        assert KeysBelow(rows, n) == [n - 1] + rest;
      }
    } else {
      assert KeysBelow(rows, n) == [n - 1] + rest;
    }
  }

  /** The listing is as long as there are ids below `n` in `rows`. */
  lemma {:induction false} KeysBelowCount(rows: map<nat, Task>, n: nat)
    ensures |KeysBelow(rows, n)| == |Below(rows, n)|
    decreases n
  {
    if n == 0 {
      assert Below(rows, n) == {};
    } else {
      KeysBelowCount(rows, n - 1);
      BelowSucc(rows, n - 1);
      if n - 1 in rows {
        assert n - 1 !in Below(rows, n - 1);
      }
    }
  }

  /**
   * `get_all_tasks`: `SELECT * FROM tasks ORDER BY id DESC`. On a well-formed
   * store it lists every row exactly once, in strictly descending id order;
   * an empty table gives an empty list.
   */
  function GetAll(s: Store): (r: seq<Task>)
    ensures WellFormed(s) ==> |r| == |s.rows|
    ensures WellFormed(s) ==> forall t :: t in r <==> t in s.rows.Values
    ensures WellFormed(s) ==> forall i, j :: 0 <= i < j < |r| ==> r[i].id > r[j].id
  {
    var ks := KeysBelow(s.rows, s.nextId);
    var r := seq(|ks|, i requires 0 <= i < |ks| => s.rows[ks[i]]);
    ListingCoversRows(s, ks, r);
    r
  }

  /**
   * On a well-formed table, the rows read in `KeysBelow` order under the
   * counter are as many as the stored rows, and include every one of them.
   */
  lemma ListingCoversRows(s: Store, ks: seq<nat>, r: seq<Task>)
    requires ks == KeysBelow(s.rows, s.nextId)
    requires |r| == |ks| && forall i :: 0 <= i < |ks| ==> r[i] == s.rows[ks[i]]
    ensures WellFormed(s) ==> |r| == |s.rows|
    ensures WellFormed(s) ==> forall t :: t in s.rows.Values ==> t in r
  {
    if WellFormed(s) {
      KeysBelowCount(s.rows, s.nextId);
      assert Below(s.rows, s.nextId) == s.rows.Keys;
      forall t | t in s.rows.Values
        ensures t in r
      {
        var k :| k in s.rows && s.rows[k] == t;
        KeysBelowComplete(s.rows, s.nextId, k);
        var i :| 0 <= i < |ks| && ks[i] == k;
        assert r[i] == t;
      }
    }
  }

  /** `get_task_by_id`: the row with that id, or None when there is none. */
  function GetById(s: Store, id: nat): (r: Option<Task>)
    ensures r.Some? <==> Exists(s, id)
    ensures r.Some? ==> r.value == s.rows[id]
    ensures WellFormed(s) && r.Some? ==> r.value.id == id
  {
    if id in s.rows then Some(s.rows[id]) else None
  }

  // ---------------------------------------------------------------- update

  /** The optional arguments of `update_task`: None leaves the column alone. */
  datatype Patch = Patch(
    title: Option<string>,
    description: Option<string>,
    dueDate: Option<string>,
    status: Option<string>)

  /** A patch that supplies no field at all. */
  const NoChange: Patch := Patch(None, None, None, None)

  datatype Column = TitleColumn | DescriptionColumn | DueDateColumn | StatusColumn

  /** One `column = ?` item of the SET clause, with its bound parameter. */
  datatype Assignment = Assignment(column: Column, value: string)

  /** The value a row holds in a column, as the statement would read it back. */
  function Read(t: Task, c: Column): Option<string> {
    match c
    case TitleColumn => Some(t.title)
    case DescriptionColumn => t.description
    case DueDateColumn => t.dueDate
    case StatusColumn => Some(t.status)
  }

  /** The value a SET clause gives a column (its first assignment to it), if any. */
  function Assigned(a: seq<Assignment>, c: Column): Option<string> {
    if a == [] then None
    else if a[0].column == c then Some(a[0].value)
    else Assigned(a[1..], c)
  }

  /** No column appears twice in a SET clause. */
  predicate DistinctColumns(a: seq<Assignment>) {
    forall i, j :: 0 <= i < j < |a| ==> a[i].column != a[j].column
  }

  /**
   * The SET clause `update_task` builds: one assignment per supplied field,
   * in the order title, description, due_date, status. It is empty exactly
   * when nothing was supplied, and assigns each column the supplied value.
   */
  function SetClause(p: Patch): (a: seq<Assignment>)
    ensures |a| <= 4 && DistinctColumns(a)
    ensures a == [] <==> p == NoChange
    ensures Assigned(a, TitleColumn) == p.title
    ensures Assigned(a, DescriptionColumn) == p.description
    ensures Assigned(a, DueDateColumn) == p.dueDate
    ensures Assigned(a, StatusColumn) == p.status
  {
    var t := Item(p.title, TitleColumn);
    var d := Item(p.description, DescriptionColumn);
    var u := Item(p.dueDate, DueDateColumn);
    var s := Item(p.status, StatusColumn);
    forall c
      ensures Assigned(t + (d + (u + s)), c)
           == if c == TitleColumn then p.title
              else if c == DescriptionColumn then p.description
              else if c == DueDateColumn then p.dueDate
              else p.status
    {
      AssignedAppend(t, d + (u + s), c);
      AssignedAppend(d, u + s, c);
      AssignedAppend(u, s, c);
    }
    t + (d + (u + s))
  }

  /** The SET item for one optional argument: none when it is None. */
  function Item(v: Option<string>, c: Column): (a: seq<Assignment>)
    ensures |a| <= 1 && (a == [] <==> v.None?)
    ensures forall i :: 0 <= i < |a| ==> a[i].column == c
    ensures Assigned(a, c) == v
    ensures forall c' :: c' != c ==> Assigned(a, c') == None
  {
    if v.Some? then
      var a := [Assignment(c, v.value)];
      assert a[1..] == [];
      a
    else []
  }

  /** A clause made of two parts assigns what the first part assigns, else what the second does. */
  lemma {:induction false} AssignedAppend(a: seq<Assignment>, b: seq<Assignment>, c: Column)
    ensures Assigned(a + b, c) == if Assigned(a, c).Some? then Assigned(a, c) else Assigned(b, c)
    decreases |a|
  {
    if a == [] {
      assert a + b == b;
    } else {
      assert (a + b)[0] == a[0];
      assert (a + b)[1..] == a[1..] + b;
      AssignedAppend(a[1..], b, c);
    }
  }

  /** Executes one SET item on a row. */
  function Assign(t: Task, a: Assignment): Task {
    match a.column
    case TitleColumn => t.(title := a.value)
    case DescriptionColumn => t.(description := Some(a.value))
    case DueDateColumn => t.(dueDate := Some(a.value))
    case StatusColumn => t.(status := a.value)
  }

  /**
   * Executes a whole SET clause on a row, item by item. With distinct
   * columns, each column ends up holding its assigned value, or its old one
   * when the clause does not mention it; the id is never touched.
   */
  function ApplySet(t: Task, a: seq<Assignment>): (r: Task)
    requires DistinctColumns(a)
    ensures r.id == t.id
    ensures forall c :: Read(r, c) == if Assigned(a, c).Some? then Assigned(a, c) else Read(t, c)
    decreases |a|
  {
    if a == [] then t
    else
      var r := ApplySet(Assign(t, a[0]), a[1..]);
      assert forall c :: c != a[0].column ==> Assigned(a[1..], c) == Assigned(a, c);
      assert Assigned(a[1..], a[0].column) == None by {
        AssignedAbsent(a[1..], a[0].column);
      }
      r
  }

  /** A clause none of whose items names `c` assigns nothing to `c`. */
  lemma {:induction false} AssignedAbsent(a: seq<Assignment>, c: Column)
    requires forall i :: 0 <= i < |a| ==> a[i].column != c
    ensures Assigned(a, c) == None
    decreases |a|
  {
    if a != [] {
      AssignedAbsent(a[1..], c);
    }
  }

  /**
   * `update_task`: false, and nothing changes, when no row has the id.
   * Otherwise true; each supplied field overwrites its column, every
   * unsupplied column, the id, the counter and every other row stay as they
   * were. A patch that supplies nothing changes nothing but still reports
   * true.
   */
  function Update(s: Store, id: nat, p: Patch): (r: Outcome)
    ensures r.ok <==> Exists(s, id)
    ensures !r.ok ==> r.store == s
    ensures p == NoChange ==> r.store == s
    ensures r.store.nextId == s.nextId && r.store.rows.Keys == s.rows.Keys
    ensures forall k :: k in s.rows && k != id ==> r.store.rows[k] == s.rows[k]
    ensures r.ok ==>
      var was := s.rows[id];
      var now := r.store.rows[id];
      && now.id == was.id
      && now.title == p.title.GetOr(was.title)
      && now.description == (if p.description.Some? then p.description else was.description)
      && now.dueDate == (if p.dueDate.Some? then p.dueDate else was.dueDate)
      && now.status == p.status.GetOr(was.status)
    ensures WellFormed(s) ==> WellFormed(r.store)
  {
    if !Exists(s, id) then
      Outcome(s, false)
    else
      var sets := SetClause(p);
      if sets == [] then
        Outcome(s, true)
      else
        var was := s.rows[id];
        var now := ApplySet(was, sets);
        assert Read(now, TitleColumn) == Some(now.title);
        assert Read(now, StatusColumn) == Some(now.status);
        assert Read(now, DescriptionColumn) == now.description;
        assert Read(now, DueDateColumn) == now.dueDate;
        Outcome(Store(s.rows[id := now], s.nextId), true)
  }

  /** Applying the same update twice leaves the same store as applying it once. */
  lemma UpdateIdempotent(s: Store, id: nat, p: Patch)
    ensures Update(Update(s, id, p).store, id, p) == Update(s, id, p)
  {
  }

  // ---------------------------------------------------------------- delete

  /**
   * `delete_task`: `DELETE FROM tasks WHERE id = ?`, reporting whether the
   * affected-row count is positive. The result is true exactly when the id
   * was present; afterwards it is absent, every other row and the counter
   * are unchanged.
   */
  function Delete(s: Store, id: nat): (r: Outcome)
    ensures r.ok <==> Exists(s, id)
    ensures r.store.rows.Keys == s.rows.Keys - {id}
    ensures |r.store.rows| == if r.ok then |s.rows| - 1 else |s.rows|
    ensures forall k :: k in r.store.rows ==> r.store.rows[k] == s.rows[k]
    ensures r.store.nextId == s.nextId
    ensures !r.ok ==> r.store == s
    ensures WellFormed(s) ==> WellFormed(r.store)
  {
    var matched := set k | k in s.rows && k == id;
    assert id in s.rows ==> matched == {id};
    assert id !in s.rows ==> matched == {};
    Outcome(Store(s.rows - matched, s.nextId), |matched| > 0)
  }

  // ---------------------------------------------------------------- traces

  /** A data-access call. */
  datatype Op =
    | CreateOp(title: string, description: Option<string>, dueDate: Option<string>, status: string)
    | UpdateOp(id: nat, patch: Patch)
    | DeleteOp(id: nat)

  /** The outcome of a run of calls: the final store and the ids the creates returned, in order. */
  datatype Trace = Trace(store: Store, created: seq<nat>)

  /**
   * Performs one call; a create also yields its new id, which lies between
   * the counter before and the counter after. No call lowers the counter.
   */
  function Step(s: Store, op: Op): (r: (Store, Option<nat>))
    ensures r.0.nextId >= s.nextId
    ensures r.1.Some? <==> op.CreateOp?
    ensures r.1.Some? ==> s.nextId <= r.1.value < r.0.nextId
    ensures WellFormed(s) ==> WellFormed(r.0)
  {
    match op
    case CreateOp(t, d, u, st) =>
      var ins := Create(s, t, d, u, st);
      (ins.store, Some(ins.id))
    case UpdateOp(id, p) => (Update(s, id, p).store, None)
    case DeleteOp(id) => (Delete(s, id).store, None)
  }

  /**
   * Performs a sequence of calls. Ids are never reused: over any mix of
   * creates, updates and deletes, the created ids strictly increase, all
   * lie at or above the starting counter and below the final one, and the
   * counter never goes down.
   */
  function Run(s: Store, ops: seq<Op>): (r: Trace)
    ensures r.store.nextId >= s.nextId
    ensures WellFormed(s) ==> WellFormed(r.store)
    ensures forall i :: 0 <= i < |r.created| ==> s.nextId <= r.created[i] < r.store.nextId
    ensures forall i, j :: 0 <= i < j < |r.created| ==> r.created[i] < r.created[j]
    decreases |ops|
  {
    if ops == [] then Trace(s, [])
    else
      var (s1, made) := Step(s, ops[0]);
      var rest := Run(s1, ops[1..]);
      match made
      case None => rest
      case Some(id) => Trace(rest.store, [id] + rest.created)
  }
}
