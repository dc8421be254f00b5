/** The validation and merge rules of the `PUT /tasks/:id` and `PATCH /tasks/:id` handlers:
    what each hands to `database.update`, or which error status it answers with instead.
    The store is the list `database.select("tasks")` returns and the clock reading is a
    parameter. */
module TaskRoutes {
  import opened Wrappers

  /** A JavaScript value as it can appear in a parsed JSON request body or a stored task;
      `Undefined` is a property the body does not have.  JSON has no NaN, so a number is a
      real (with -0 and 0 the same value, both falsy). */
  datatype Value =
    | Undefined
    | Null
    | Bool(b: bool)
    | Num(n: real)
    | Str(s: string)
    | Structured   // any object or array: always truthy, never nullish

  /** JavaScript truthiness, as `!x` and `x && y` test it. */
  predicate Truthy(v: Value) {
    match v
    case Undefined => false
    case Null => false
    case Bool(b) => b
    case Num(n) => n != 0.0
    case Str(s) => s != ""
    case Structured => true
  }

  /** The values `??` replaces. */
  predicate Nullish(v: Value) {
    v.Undefined? || v.Null?
  }

  /** `a ?? b`: nullish only when both are, and truthy exactly when `a` is, or when `a` is
      nullish and `b` is truthy. */
  function Coalesce(a: Value, b: Value): (r: Value)
    ensures r == a || r == b
    ensures Nullish(r) <==> Nullish(a) && Nullish(b)
    ensures Truthy(r) <==> Truthy(a) || (Nullish(a) && Truthy(b))
  {
    if Nullish(a) then b else a
  }

  /** `a || b`. */
  function Or(a: Value, b: Value): Value {
    if Truthy(a) then a else b
  }

  /** `??` and `||` disagree exactly on a falsy value that is present (`false`, `0`, `""`)
      and differs from the fallback: `??` keeps it, `||` replaces it. */
  lemma CoalesceVersusOr(a: Value, b: Value)
    ensures Coalesce(a, b) != Or(a, b) <==> !Truthy(a) && !Nullish(a) && a != b
    ensures Coalesce(a, b) != Or(a, b) ==> Coalesce(a, b) == a && Or(a, b) == b
  {
  }

  /** A stored task. */
  datatype Task = Task(
    id: string,
    title: Value,
    description: Value,
    completedAt: Value,
    createdAt: Value,
    updatedAt: Value)

  /** The object handed to `database.update("tasks", id, …)`. */
  datatype Changes = Changes(
    title: Value,
    description: Value,
    completedAt: Value,
    createdAt: Value,
    updatedAt: Value)

  /** What a handler does: answer 404 or 400, or update the task and answer 204. */
  datatype Outcome = NotFound | BadRequest | Update(id: string, changes: Changes)

  /** The status code the handler answers with. */
  function StatusOf(o: Outcome): int {
    match o
    case NotFound => 404
    case BadRequest => 400
    case Update(_, _) => 204
  }

  /** The position of the task the handlers look up with `Array.prototype.find`: the first
      task with that id. */
  function FindIndex(tasks: seq<Task>, id: string): (r: Option<nat>)
    ensures r.None? <==> forall k :: 0 <= k < |tasks| ==> tasks[k].id != id
    ensures r.Some? ==> r.value < |tasks| && tasks[r.value].id == id
    ensures r.Some? ==> forall k :: 0 <= k < r.value ==> tasks[k].id != id
  {
    if tasks == [] then None
    else if tasks[0].id == id then Some(0)
    else
      match FindIndex(tasks[1..], id)
      case None => None
      case Some(i) => Some(i + 1)
  }

  /** The first task with that id, if any, as `Array.prototype.find` returns it. */
  function Find(tasks: seq<Task>, id: string): (r: Option<Task>)
    ensures r.None? <==> forall k :: 0 <= k < |tasks| ==> tasks[k].id != id
    ensures r.Some? ==> r.value in tasks && r.value.id == id
  {
    match FindIndex(tasks, id)
    case None => None
    case Some(i) => Some(tasks[i])
  }

  /** When ids are unique, `find` returns the one task with that id, wherever it stands. */
  lemma FindUnique(tasks: seq<Task>, i: nat)
    requires i < |tasks|
    requires forall j, k :: 0 <= j < k < |tasks| ==> tasks[j].id != tasks[k].id
    ensures Find(tasks, tasks[i].id) == Some(tasks[i])
  {
  }

  /** `PUT /tasks/:id` with body fields `title` and `description`, at clock reading `now`:
      404 when no task has the id; 400 when neither field is truthy; otherwise the update
      takes each field that is present and not null from the body (even a falsy one such as
      "") and the stored value for the others, keeps the completion and creation times, and
      stamps the update time. */
  function Put(tasks: seq<Task>, id: string, title: Value, description: Value, now: string): (r: Outcome)
    ensures r.NotFound? <==> Find(tasks, id).None?
    ensures r.BadRequest? <==> Find(tasks, id).Some? && !Truthy(title) && !Truthy(description)
    ensures StatusOf(r) == 404 || StatusOf(r) == 400 || StatusOf(r) == 204
    ensures StatusOf(r) == 204 ==> Truthy(title) || Truthy(description)
    ensures r.Update? ==>
      var task := Find(tasks, id).value;
      && r.id == id
      && (Nullish(title) ==> r.changes.title == task.title)
      && (!Nullish(title) ==> r.changes.title == title)
      && (Nullish(description) ==> r.changes.description == task.description)
      && (!Nullish(description) ==> r.changes.description == description)
      && r.changes.completedAt == task.completedAt
      && r.changes.createdAt == task.createdAt
      && r.changes.updatedAt == Str(now)
  {
    match Find(tasks, id)
    case None => NotFound
    case Some(task) =>
      if !Truthy(title) && !Truthy(description) then BadRequest
      else
        Update(id, Changes(
          Coalesce(title, task.title),
          Coalesce(description, task.description),
          task.completedAt,
          task.createdAt,
          Str(now)))
  }

  /** `PATCH /tasks/:id` with body field `completed_at`, at clock reading `now`: 404 when
      no task has the id; 400 when `completed_at` is falsy; otherwise only the completion
      and update times change. */
  function Patch(tasks: seq<Task>, id: string, completedAt: Value, now: string): (r: Outcome)
    ensures r.NotFound? <==> Find(tasks, id).None?
    ensures r.BadRequest? <==> Find(tasks, id).Some? && !Truthy(completedAt)
    ensures StatusOf(r) == 404 || StatusOf(r) == 400 || StatusOf(r) == 204
    ensures StatusOf(r) == 204 ==> Truthy(completedAt)
    ensures r.Update? ==>
      var task := Find(tasks, id).value;
      && r.id == id
      && r.changes.title == task.title
      && r.changes.description == task.description
      && r.changes.createdAt == task.createdAt
      && r.changes.completedAt == completedAt
      && r.changes.updatedAt == Str(now)
  {
    match Find(tasks, id)
    case None => NotFound
    case Some(task) =>
      if !Truthy(completedAt) then BadRequest
      else Update(id, Changes(task.title, task.description, completedAt, task.createdAt, Str(now)))
  }

  /** The record a task becomes once the changes are written over it under its id. */
  function Apply(task: Task, c: Changes): (r: Task)
    ensures r.id == task.id
  {
    Task(task.id, c.title, c.description, c.completedAt, c.createdAt, c.updatedAt)
  }

  /** `??` is not `||`: a PUT that sends an empty title together with a real description
      blanks the title instead of keeping the stored one. */
  lemma PutKeepsEmptyTitle(tasks: seq<Task>, id: string, description: Value, now: string)
    requires Find(tasks, id).Some?
    requires Truthy(description)
    ensures Put(tasks, id, Str(""), description, now).Update?
    ensures Put(tasks, id, Str(""), description, now).changes.title == Str("")
  {
  }

  /** The two updates touch disjoint fields, apart from the update time: a PATCH after a
      PUT keeps the title and description the PUT wrote. */
  lemma PutThenPatch(task: Task, title: Value, description: Value, completedAt: Value, t1: string, t2: string)
    requires Truthy(title) || Truthy(description)
    requires Truthy(completedAt)
    ensures var put := Put([task], task.id, title, description, t1);
      put.Update? &&
      var afterPut := Apply(task, put.changes);
      var patch := Patch([afterPut], task.id, completedAt, t2);
      && patch.Update?
      && Apply(afterPut, patch.changes) == Task(task.id, Coalesce(title, task.title),
           Coalesce(description, task.description), completedAt, task.createdAt, Str(t2))
  {
    assert Find([task], task.id) == Some(task);
    var afterPut := Apply(task, Put([task], task.id, title, description, t1).changes);
    assert Find([afterPut], task.id) == Some(afterPut);
  }

  /** A PUT after a PATCH keeps the completion time the PATCH wrote. */
  lemma PatchThenPut(task: Task, title: Value, description: Value, completedAt: Value, t1: string, t2: string)
    requires Truthy(title) || Truthy(description)
    requires Truthy(completedAt)
    ensures var patch := Patch([task], task.id, completedAt, t1);
      patch.Update? &&
      var afterPatch := Apply(task, patch.changes);
      var put := Put([afterPatch], task.id, title, description, t2);
      && put.Update?
      && Apply(afterPatch, put.changes).completedAt == completedAt
      && Apply(afterPatch, put.changes).createdAt == task.createdAt
  {
    assert Find([task], task.id) == Some(task);
    var afterPatch := Apply(task, Patch([task], task.id, completedAt, t1).changes);
    assert Find([afterPatch], task.id) == Some(afterPatch);
  }
}
