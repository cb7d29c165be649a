/**
 What each request does to the physical table and what it answers. The methods
 of the repository and service classes are proved against these functions, and
 runs are sequences or interleavings of them.
 */
module Requests {
  import opened Wrappers
  import opened Categories
  import opened Listing
  import opened RowStore

  /**
   The requests of the service, and the decorator's two extra reads. Filter
   conditions and scan order come with a list, since Go's map iteration and the
   database choose them freely.
   */
  datatype Request =
    | Create(id: Id, create: CreateInput, env: Env)
    | Get(id: Id, env: Env)
    | Update(id: Id, update: UpdateInput, env: Env)
    | Delete(id: Id, env: Env)
    | List(params: ListParams, conditions: seq<Condition>, order: seq<Id>, env: Env)
    | Exists(id: Id, env: Env)
    | Count(conditions: seq<Condition>, env: Env)

  datatype Response =
    | Entity(row: Category)
    | Done
    | Page(items: seq<Category>, total: nat, page: int, size: int)
    | Flag(found: bool)
    | Number(rows: nat)
    | Failed(code: ErrorCode)
    | RepoFailed(error: RepoError)

  /** The decorator's read: a tombstone is reported as missing. */
  function ReadLive(t: Table, id: Id, fault: Option<Fault>): Result<Category, RepoError> {
    var r := ReadRow(t, id, fault);
    if r.Ok? && !Live(r.value) then Err(ErrNotFound) else r
  }

  function CodeOf(e: RepoError): ErrorCode {
    if e == ErrNotFound then NotFound else Internal
  }

  function CreateCodeOf(e: RepoError): ErrorCode {
    match e
    case ErrAlreadyExists => Conflict
    case ErrInvalidEntity => UnprocessableEntity
    case _ => Internal
  }

  /** A partial update: only the given fields change. */
  function Apply(row: Category, u: UpdateInput): Category {
    row.(source := if u.source.Some? then u.source.value else row.source,
         tenantId := if u.tenantId.Some? then u.tenantId else row.tenantId,
         name := if u.name.Some? then u.name.value else row.name)
  }

  /** Requests that read a row in one step and write it back in another. */
  predicate TwoStep(r: Request) {
    r.Update? || r.Delete?
  }

  type RowWrite = r: Request | TwoStep(r) witness Delete("", Env(0, None, None, ErrOther))

  /** The read step of an update or a delete. */
  function Begin(t: Table, r: RowWrite): Result<Category, ErrorCode> {
    match ReadLive(t, r.id, r.env.readFault)
    case Ok(row) => Ok(row)
    case Err(e) => Err(CodeOf(e))
  }

  /** The row an update or a delete writes, given the row it has read. */
  function NewRow(r: RowWrite, row: Category): Category {
    if r.Update? then Apply(row, r.update).(updatedAt := r.env.now)
    else row.(deletedAt := Some(r.env.now), updatedAt := r.env.now)
  }

  /** The write step of an update or a delete that has read `row`. */
  function Finish(t: Table, r: RowWrite, row: Category): (Table, Response) {
    var row' := NewRow(r, row);
    var (t', err) := ReplaceRow(t, r.id, row', CheckHolds(row'), r.env.writeFault, r.env.refusal);
    if err.Some? then (t', Failed(CodeOf(err.value)))
    else if r.Update? then (t', Entity(row'))
    else (t', Done)
  }

  function ServeCreate(t: Table, id: Id, input: CreateInput, env: Env): (Table, Response) {
    if input.source == SOURCE_APP && input.tenantId.Some? then (t, Failed(BadRequest))
    else if input.source == SOURCE_TENANT && input.tenantId.None? then (t, Failed(BadRequest))
    else
      var row := Category(id, input.source, input.tenantId, input.name, env.now, env.now, None);
      var (t', err) := InsertRow(t, id, row, CheckHolds(row), env.writeFault, env.refusal);
      if err.Some? then (t', Failed(CreateCodeOf(err.value))) else (t', Entity(row))
  }

  /** The rows a filter lets through once "deleted_at IS NULL" has been appended to it. */
  function Kept(conditions: seq<Condition>): Category -> bool {
    MatchingAll(conditions + [NOT_DELETED])
  }

  function ServeList(t: Table, params: ListParams, conditions: seq<Condition>, order: seq<Id>, env: Env): Response {
    var offset := Offset(ClampPage(params.page), ClampSize(params.size));
    // PostgreSQL refuses a negative OFFSET.
    if env.readFault.Some? || offset < 0 then Failed(Internal)
    else
      var rows := Select(t, order, Kept(conditions));
      Page(Window(rows, offset, ClampSize(params.size)), |rows|, params.page, params.size)
  }

  /** One request served on its own, with nothing else in between. */
  function Serve(t: Table, r: Request): (Table, Response) {
    match r
    case Create(id, input, env) => ServeCreate(t, id, input, env)
    case Get(id, env) =>
      (match ReadLive(t, id, env.readFault)
       case Ok(row) => (t, Entity(row))
       case Err(e) => (t, Failed(CodeOf(e))))
    case Update(_, _, _) =>
      (match Begin(t, r)
       case Ok(row) => Finish(t, r, row)
       case Err(code) => (t, Failed(code)))
    case Delete(_, _) =>
      (match Begin(t, r)
       case Ok(row) => Finish(t, r, row)
       case Err(code) => (t, Failed(code)))
    case List(params, conditions, order, env) => (t, ServeList(t, params, conditions, order, env))
    case Exists(id, env) =>
      (match ReadLive(t, id, env.readFault)
       case Ok(_) => (t, Flag(true))
       case Err(e) => (t, if e == ErrNotFound then Flag(false) else RepoFailed(e)))
    case Count(conditions, env) =>
      (t, if env.readFault.Some? then RepoFailed(env.readFault.value)
          else Number(CountRows(t, Kept(conditions))))
  }

  /** A sequential run: the final table and the answers in order. */
  function Run(t: Table, requests: seq<Request>): (r: (Table, seq<Response>))
    ensures |r.1| == |requests|
    decreases |requests|
  {
    if requests == [] then (t, [])
    else
      var (t', answer) := Serve(t, requests[0]);
      var (last, answers) := Run(t', requests[1..]);
      (last, [answer] + answers)
  }
}
