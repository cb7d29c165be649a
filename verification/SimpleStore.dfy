/**
 The store a client believes in: a map from id to category in which a delete
 really removes the entry. Every sequential run of the soft-deleting service
 answers exactly like a run of this store.
 */
module SimpleStore {
  import opened Wrappers
  import opened Categories
  import opened Listing
  import opened Requests
  import opened RowStore

  type Store = map<Id, Category>

  /** The abstraction: what is left of the physical table once tombstones are forgotten. */
  function LiveRows(t: Table): Store {
    map id | id in t && Live(t[id]) :: t[id]
  }

  /** A row passes the filters of a list request when every named column has the given text. */
  function Passes(filters: map<string, string>): Category -> bool {
    c => forall f | f in filters :: ColumnOf(c, f) == TextValue(filters[f])
  }

  /** The status a create reports for a repository error. */
  function Translated(e: RepoError): ErrorCode {
    if e == ErrAlreadyExists then Conflict
    else if e == ErrInvalidEntity then UnprocessableEntity
    else Internal
  }

  function SimpleCreate(m: Store, id: Id, input: CreateInput, env: Env): (Store, Response) {
    if input.source in [SOURCE_APP, SOURCE_TENANT] && !SourceMatchesTenant(input.source, input.tenantId) then
      (m, Failed(BadRequest))
    else if env.writeFault.Some? then (m, Failed(Translated(env.writeFault.value)))
    else if input.source !in [SOURCE_APP, SOURCE_TENANT] then (m, Failed(Translated(env.refusal)))
    else if id in m then (m, Failed(Conflict))
    else
      var row := Category(id, input.source, input.tenantId, input.name, env.now, env.now, None);
      (m[id := row], Entity(row))
  }

  function SimpleUpdate(m: Store, id: Id, u: UpdateInput, env: Env): (Store, Response) {
    if env.readFault.Some? then (m, Failed(Internal))
    else if id !in m then (m, Failed(NotFound))
    else
      var row := Apply(m[id], u).(updatedAt := env.now);
      if env.writeFault.Some? || !CheckHolds(row) then (m, Failed(Internal))
      else (m[id := row], Entity(row))
  }

  function SimpleDelete(m: Store, id: Id, env: Env): (Store, Response) {
    if env.readFault.Some? then (m, Failed(Internal))
    else if id !in m then (m, Failed(NotFound))
    else if env.writeFault.Some? then (m, Failed(Internal))
    else (m - {id}, Done)
  }

  function SimpleList(m: Store, params: ListParams, order: seq<Id>, env: Env): Response {
    var offset := Offset(ClampPage(params.page), ClampSize(params.size));
    if env.readFault.Some? || offset < 0 then Failed(Internal)
    else
      var rows := Select(m, order, Passes(params.filters));
      Page(Window(rows, offset, ClampSize(params.size)), |rows|, params.page, params.size)
  }

  function SimpleServe(m: Store, r: Request): (Store, Response) {
    match r
    case Create(id, input, env) => SimpleCreate(m, id, input, env)
    case Get(id, env) =>
      (m, if env.readFault.Some? then Failed(Internal)
          else if id in m then Entity(m[id]) else Failed(NotFound))
    case Update(id, u, env) => SimpleUpdate(m, id, u, env)
    case Delete(id, env) => SimpleDelete(m, id, env)
    case List(params, _, order, env) => (m, SimpleList(m, params, order, env))
    case Exists(id, env) =>
      (m, if env.readFault.Some? then RepoFailed(env.readFault.value) else Flag(id in m))
    case Count(conditions, env) =>
      (m, if env.readFault.Some? then RepoFailed(env.readFault.value)
          else Number(CountRows(m, MatchingAll(conditions))))
  }

  function SimpleRun(m: Store, requests: seq<Request>): (r: (Store, seq<Response>))
    ensures |r.1| == |requests|
    decreases |requests|
  {
    if requests == [] then (m, [])
    else
      var (m', answer) := SimpleServe(m, requests[0]);
      var (last, answers) := SimpleRun(m', requests[1..]);
      (last, [answer] + answers)
  }

  /** The condition list of a list request comes from its filter map, in whatever order. */
  ghost predicate FiltersListed(r: Request) {
    r.List? ==> IsFilterList(r.params.filters, r.conditions)
  }

  /** UUIDs do not repeat: no create uses an id already known or used by an earlier create. */
  ghost predicate FreshIds(known: set<Id>, requests: seq<Request>) {
    && (forall i | 0 <= i < |requests| && requests[i].Create? :: requests[i].id !in known)
    && (forall i, j | 0 <= i < j < |requests| && requests[i].Create? && requests[j].Create? ::
          requests[i].id != requests[j].id)
  }

  /** Selecting from two tables gives the same rows if every scanned id agrees. */
  lemma {:induction false} SelectAgrees(
      t: Table, m: Table, order: seq<Id>, keep: Category -> bool, keep': Category -> bool)
    requires forall id | id in order ::
               (id in t && keep(t[id])) <==> (id in m && keep'(m[id]))
    requires forall id | id in order && id in t && id in m :: t[id] == m[id]
    ensures Select(t, order, keep) == Select(m, order, keep')
  {
    if order == [] {
    } else {
      assert order[0] in order;
      assert forall id | id in order[1..] :: id in order;
      SelectAgrees(t, m, order[1..], keep, keep');
    }
  }

  /** The appended condition, and nothing else, is what hides tombstones. */
  lemma KeptIff(conditions: seq<Condition>, c: Category)
    ensures Kept(conditions)(c) <==> Live(c) && MatchesAll(c, conditions)
  {
    var all := conditions + [NOT_DELETED];
    assert Matches(c, NOT_DELETED) <==> Live(c);
    if Kept(conditions)(c) {
      assert all[|conditions|] == NOT_DELETED;
      assert forall k | k in conditions :: k in all;
    }
  }

  /** The conditions of a filter map accept a row exactly when the map does, whatever their order. */
  lemma ConditionsIffPasses(filters: map<string, string>, conditions: seq<Condition>, c: Category)
    requires IsFilterList(filters, conditions)
    ensures MatchesAll(c, conditions) <==> Passes(filters)(c)
  {
    if MatchesAll(c, conditions) {
      forall f | f in filters ensures ColumnOf(c, f) == TextValue(filters[f]) {
        assert Matches(c, Condition(f, Eq, filters[f]));
      }
    }
  }

  /** A count through the decorator counts live rows only. */
  lemma CountAgrees(t: Table, conditions: seq<Condition>)
    ensures CountRows(t, Kept(conditions))
         == CountRows(LiveRows(t), MatchingAll(conditions))
  {
    var m := LiveRows(t);
    forall c: Category ensures Kept(conditions)(c) <==> Live(c) && MatchesAll(c, conditions) {
      KeptIff(conditions, c);
    }
    assert IdsOf(t, Kept(conditions)) == IdsOf(m, MatchingAll(conditions));
  }

  lemma ListAgrees(t: Table, r: Request)
    requires r.List? && FiltersListed(r)
    ensures Serve(t, r).1 == SimpleServe(LiveRows(t), r).1
  {
    var m := LiveRows(t);
    forall id | id in t
      ensures Kept(r.conditions)(t[id]) <==> id in m && Passes(r.params.filters)(m[id])
    {
      KeptIff(r.conditions, t[id]);
      ConditionsIffPasses(r.params.filters, r.conditions, t[id]);
    }
    SelectAgrees(t, m, r.order, Kept(r.conditions), Passes(r.params.filters));
  }

  predicate Tombstoned(t: Table, id: Id) {
    id in t && !Live(t[id])
  }

  lemma CreateRefines(t: Table, id: Id, input: CreateInput, env: Env)
    requires !Tombstoned(t, id)
    ensures ServeCreate(t, id, input, env).1 == SimpleCreate(LiveRows(t), id, input, env).1
    ensures LiveRows(ServeCreate(t, id, input, env).0) == SimpleCreate(LiveRows(t), id, input, env).0
  {
    assert SOURCE_APP != SOURCE_TENANT;
  }

  /** Creating under a deleted category's id is the one way to tell the two stores apart: a conflict instead of a row. */
  lemma CreateDiffersIff(t: Table, id: Id, input: CreateInput, env: Env)
    ensures ServeCreate(t, id, input, env).1 != SimpleCreate(LiveRows(t), id, input, env).1
       <==> Tombstoned(t, id) && SourceMatchesTenant(input.source, input.tenantId) && env.writeFault.None?
  {
    assert SOURCE_APP != SOURCE_TENANT;
  }

  lemma UpdateRefines(t: Table, r: Request)
    requires WellFormed(t) && r.Update?
    ensures Serve(t, r).1 == SimpleUpdate(LiveRows(t), r.id, r.update, r.env).1
    ensures LiveRows(Serve(t, r).0) == SimpleUpdate(LiveRows(t), r.id, r.update, r.env).0
  {
  }

  lemma DeleteRefines(t: Table, r: Request)
    requires WellFormed(t) && r.Delete?
    ensures Serve(t, r).1 == SimpleDelete(LiveRows(t), r.id, r.env).1
    ensures LiveRows(Serve(t, r).0) == SimpleDelete(LiveRows(t), r.id, r.env).0
  {
  }

  /** One request: same answer, and the live rows change as the simple store does. */
  lemma ServeRefines(t: Table, r: Request)
    requires WellFormed(t) && FiltersListed(r)
    requires r.Create? ==> !Tombstoned(t, r.id)
    ensures Serve(t, r).1 == SimpleServe(LiveRows(t), r).1
    ensures LiveRows(Serve(t, r).0) == SimpleServe(LiveRows(t), r).0
  {
    match r
    case Create(id, input, env) => CreateRefines(t, id, input, env);
    case Update(_, _, _) => UpdateRefines(t, r);
    case Delete(_, _) => DeleteRefines(t, r);
    case List(_, _, _, _) => ListAgrees(t, r);
    case Count(conditions, _) => CountAgrees(t, conditions);
    case _ =>
  }

  lemma ServeWellFormed(t: Table, r: Request)
    requires WellFormed(t)
    ensures WellFormed(Serve(t, r).0)
  {
  }

  /** No request but a create makes a new id, and a create only its own. */
  lemma ServeKeys(t: Table, r: Request)
    ensures t.Keys <= Serve(t, r).0.Keys
    ensures Serve(t, r).0.Keys <= t.Keys + if r.Create? then {r.id} else {}
  {
  }

  /** Refinement over every sequential run: same answers, and the live rows are the simple store. */
  lemma {:induction false} RunRefines(t: Table, requests: seq<Request>)
    requires WellFormed(t)
    requires FreshIds(t.Keys, requests)
    requires forall r | r in requests :: FiltersListed(r)
    ensures WellFormed(Run(t, requests).0)
    ensures Run(t, requests).1 == SimpleRun(LiveRows(t), requests).1
    ensures LiveRows(Run(t, requests).0) == SimpleRun(LiveRows(t), requests).0
    decreases |requests|
  {
    if requests == [] {
    } else {
      var r, rest := requests[0], requests[1..];
      assert r in requests;
      ServeRefines(t, r);
      ServeWellFormed(t, r);
      ServeKeys(t, r);
      assert FreshIds(Serve(t, r).0.Keys, rest) by {
        assert forall i | 0 <= i < |rest| :: rest[i] == requests[i + 1];
      }
      RunRefines(Serve(t, r).0, rest);
    }
  }
}
