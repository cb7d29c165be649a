/**
 What every sequential run keeps: tombstones are frozen and invisible, the
 source rule holds and only tightens, audit stamps stay ordered, rows are
 neither lost nor invented.
 */
module Histories {
  import opened Wrappers
  import opened Categories
  import opened Listing
  import opened Requests
  import opened SimpleStore

  // --------------------------------------------------------------- reading back

  /** No other row is touched. */
  predicate OthersUnchanged(t: Table, t': Table, id: Id) {
    t' - {id} == t - {id}
  }

  lemma CreateThenGet(t: Table, id: Id, input: CreateInput, env: Env, later: Env)
    requires Serve(t, Create(id, input, env)).1.Entity? && later.readFault.None?
    ensures var t' := Serve(t, Create(id, input, env)).0;
            && id !in t && OthersUnchanged(t, t', id)
            && Serve(t', Get(id, later)).1
               == Entity(Category(id, input.source, input.tenantId, input.name, env.now, env.now, None))
  {
  }

  /** A successful update changes the given fields and updated_at of its row, and nothing else anywhere. */
  lemma UpdateThenGet(t: Table, id: Id, u: UpdateInput, env: Env, later: Env)
    requires WellFormed(t) && Serve(t, Update(id, u, env)).1.Entity? && later.readFault.None?
    ensures var (t', answer) := Serve(t, Update(id, u, env));
            && id in t && OthersUnchanged(t, t', id) && Serve(t', Get(id, later)).1 == answer
            && answer.row.source == (if u.source.Some? then u.source.value else t[id].source)
            && answer.row.tenantId == (if u.tenantId.Some? then u.tenantId else t[id].tenantId)
            && answer.row.name == (if u.name.Some? then u.name.value else t[id].name)
            && answer.row.id == id && answer.row.createdAt == t[id].createdAt
            && answer.row.updatedAt == env.now && answer.row.deletedAt == None
  {
  }

  /** A successful delete only stamps its row, which stays in the table, and hides it. */
  lemma DeleteThenGet(t: Table, id: Id, env: Env, later: Env)
    requires Serve(t, Delete(id, env)).1 == Done && later.readFault.None?
    ensures var t' := Serve(t, Delete(id, env)).0;
            && id in t && OthersUnchanged(t, t', id) && Serve(t', Get(id, later)).1 == Failed(NotFound)
            && id in t' && t'[id] == t[id].(deletedAt := Some(env.now), updatedAt := env.now)
  {
  }

  // ---------------------------------------------------------------- tombstones

  /** What a request may still say about a deleted category: that it is missing. */
  ghost predicate ReportsMissing(r: Request, answer: Response, id: Id) {
    match r
    case Create(_, _, _) => true
    case List(_, _, _, _) => answer.Page? ==> forall c | c in answer.items :: c.id != id
    case Count(_, _) => true
    case Exists(x, env) =>
      x == id ==> answer == if env.readFault.Some? then RepoFailed(env.readFault.value) else Flag(false)
    case _ =>
      r.id == id ==> answer == Failed(if r.env.readFault.Some? then Internal else NotFound)
  }

  lemma SelectSkips(t: Table, order: seq<Id>, conditions: seq<Condition>, id: Id)
    requires WellFormed(t) && Tombstoned(t, id)
    ensures forall c | c in Select(t, order, Kept(conditions)) :: c.id != id
  {
    forall c | c in Select(t, order, Kept(conditions)) ensures c.id != id {
      KeptIff(conditions, c);
    }
  }

  /** One request leaves a tombstone as it is and reports it missing. */
  lemma ServeTombstone(t: Table, r: Request, id: Id)
    requires WellFormed(t) && Tombstoned(t, id)
    ensures id in Serve(t, r).0 && Serve(t, r).0[id] == t[id]
    ensures ReportsMissing(r, Serve(t, r).1, id)
  {
    if r.List? {
      SelectSkips(t, r.order, r.conditions, id);
    }
  }

  lemma ListSkips(t: Table, r: Request, id: Id)
    requires Tombstoned(t, id) && (r.List? || r.Count?)
    ensures Serve(t - {id}, r).1 == Serve(t, r).1
  {
    var t' := t - {id};
    KeptIff(r.conditions, t[id]);
    if r.List? {
      SelectAgrees(t, t', r.order, Kept(r.conditions), Kept(r.conditions));
    } else {
      assert IdsOf(t, Kept(r.conditions)) == IdsOf(t', Kept(r.conditions));
    }
  }

  /** One request sees nothing of a tombstone. */
  lemma ServeSkipsTombstone(t: Table, r: Request, id: Id)
    requires Tombstoned(t, id) && !(r.Create? && r.id == id)
    ensures Serve(t - {id}, r).1 == Serve(t, r).1
    ensures Serve(t - {id}, r).0 == Serve(t, r).0 - {id}
  {
    if r.List? || r.Count? {
      ListSkips(t, r, id);
    } else if r.id == id {
      assert t - {id} - {id} == t - {id};
    } else {
      var t' := t - {id};
      assert r.id in t <==> r.id in t';
      assert r.id in t ==> t'[r.id] == t[r.id];
    }
  }

  /** A tombstone never changes again, and every later answer reports it missing. */
  lemma {:induction false} TombstoneIsFrozen(t: Table, requests: seq<Request>, id: Id)
    requires WellFormed(t) && Tombstoned(t, id)
    ensures id in Run(t, requests).0 && Run(t, requests).0[id] == t[id]
    ensures forall i | 0 <= i < |requests| :: ReportsMissing(requests[i], Run(t, requests).1[i], id)
    decreases |requests|
  {
    if requests == [] {
    } else {
      ServeTombstone(t, requests[0], id);
      ServeWellFormed(t, requests[0]);
      TombstoneIsFrozen(Serve(t, requests[0]).0, requests[1..], id);
    }
  }

  /** All answers of a run, counts and totals included, are those of a table without the tombstone. */
  lemma {:induction false} TombstoneIsInvisible(t: Table, requests: seq<Request>, id: Id)
    requires WellFormed(t) && Tombstoned(t, id)
    requires forall r | r in requests && r.Create? :: r.id != id
    ensures Run(t - {id}, requests).1 == Run(t, requests).1
    ensures Run(t - {id}, requests).0 == Run(t, requests).0 - {id}
    decreases |requests|
  {
    if requests == [] {
    } else {
      assert requests[0] in requests;
      ServeTombstone(t, requests[0], id);
      ServeWellFormed(t, requests[0]);
      ServeSkipsTombstone(t, requests[0], id);
      TombstoneIsInvisible(Serve(t, requests[0]).0, requests[1..], id);
    }
  }

  // ------------------------------------------------------------ source and tenant

  /** A partial update of a stored row is refused exactly when it would leave an app row with a tenant, or the reverse. */
  lemma UpdateBreaksRuleIff(row: Category, u: UpdateInput, now: Reflection.Time)
    requires CheckHolds(row)
    ensures !CheckHolds(Apply(row, u).(updatedAt := now)) <==>
              || (u.source.Some? && u.source.value !in [SOURCE_APP, SOURCE_TENANT])
              || (row.source == SOURCE_TENANT && u.source == Some(SOURCE_APP))
              || (row.source == SOURCE_APP && u.tenantId.Some? && u.source != Some(SOURCE_TENANT))
              || (row.source == SOURCE_APP && u.tenantId.None? && u.source == Some(SOURCE_TENANT))
  {
    assert SOURCE_APP != SOURCE_TENANT;
  }

  /** The service does not re-check the rule itself: a mix is an internal error, never a bad request, and changes nothing. */
  lemma BrokenRuleIsInternal(t: Table, id: Id, u: UpdateInput, env: Env)
    requires id in t && Live(t[id]) && env.readFault.None?
    ensures !CheckHolds(Apply(t[id], u).(updatedAt := env.now)) ==>
              Serve(t, Update(id, u, env)) == (t, Failed(Internal))
    ensures Serve(t, Update(id, u, env)).1 != Failed(BadRequest)
  {
  }

  /** An input that shows it: source "tenant" without a tenant, on any live app category. A create with the same fields is a bad request. */
  lemma TenantSourceAlone(t: Table, id: Id, name: string, env: Env)
    requires WellFormed(t) && id in t && Live(t[id]) && t[id].source == SOURCE_APP && env.readFault.None?
    ensures Serve(t, Update(id, UpdateInput(Some(SOURCE_TENANT), None, None), env)) == (t, Failed(Internal))
    ensures Serve(t, Create(id, CreateInput(SOURCE_TENANT, None, name), env)) == (t, Failed(BadRequest))
  {
    UpdateBreaksRuleIff(t[id], UpdateInput(Some(SOURCE_TENANT), None, None), env.now);
    assert SOURCE_APP != SOURCE_TENANT;
  }

  /** Rows keep their id, creation time and, once there, their tenant source. */
  ghost predicate Evolves(before: Table, after: Table) {
    forall id | id in before ::
      && id in after
      && after[id].id == before[id].id
      && after[id].createdAt == before[id].createdAt
      && (before[id].source == SOURCE_TENANT ==> after[id].source == SOURCE_TENANT)
  }

  lemma ServeEvolves(t: Table, r: Request)
    requires WellFormed(t)
    ensures WellFormed(Serve(t, r).0) && Evolves(t, Serve(t, r).0)
  {
    assert SOURCE_APP != SOURCE_TENANT;
  }

  /** "app iff no tenant" holds of every row, and no run ever turns a tenant category back into an app one. */
  lemma {:induction false} RunEvolves(t: Table, requests: seq<Request>)
    requires WellFormed(t)
    ensures WellFormed(Run(t, requests).0) && Evolves(t, Run(t, requests).0)
    decreases |requests|
  {
    if requests == [] {
    } else {
      ServeEvolves(t, requests[0]);
      RunEvolves(Serve(t, requests[0]).0, requests[1..]);
    }
  }

  // -------------------------------------------------------------------- stamps

  predicate StampsOrdered(c: Category) {
    c.createdAt <= c.updatedAt && (c.deletedAt.Some? ==> c.deletedAt.value == c.updatedAt)
  }

  ghost predicate Stamped(t: Table, latest: Reflection.Time) {
    forall id | id in t :: StampsOrdered(t[id]) && t[id].updatedAt <= latest
  }

  /** The clock does not run backwards from `latest` on. */
  ghost predicate ClockRuns(latest: Reflection.Time, requests: seq<Request>) {
    && (forall i | 0 <= i < |requests| :: latest <= requests[i].env.now)
    && (forall i, j | 0 <= i < j < |requests| :: requests[i].env.now <= requests[j].env.now)
  }

  function LastClock(latest: Reflection.Time, requests: seq<Request>): Reflection.Time {
    if requests == [] then latest else requests[|requests| - 1].env.now
  }

  lemma ServeStamps(t: Table, r: Request, latest: Reflection.Time)
    requires WellFormed(t) && Stamped(t, latest) && latest <= r.env.now
    ensures Stamped(Serve(t, r).0, r.env.now)
  {
  }

  /** created_at <= updated_at, and deleted_at is the last updated_at, in every reachable row. */
  lemma {:induction false} RunStamps(t: Table, requests: seq<Request>, latest: Reflection.Time)
    requires WellFormed(t) && Stamped(t, latest) && ClockRuns(latest, requests)
    ensures Stamped(Run(t, requests).0, LastClock(latest, requests))
    decreases |requests|
  {
    if requests == [] {
    } else {
      var r, rest := requests[0], requests[1..];
      ServeStamps(t, r, latest);
      ServeEvolves(t, r);
      assert forall i | 0 <= i < |rest| :: rest[i] == requests[i + 1];
      RunStamps(Serve(t, r).0, rest, r.env.now);
    }
  }

  // -------------------------------------------------------------- conservation

  function Created(requests: seq<Request>, answers: seq<Response>): nat
    requires |requests| == |answers|
  {
    if requests == [] then 0
    else (if requests[0].Create? && answers[0].Entity? then 1 else 0) + Created(requests[1..], answers[1..])
  }

  function Removed(requests: seq<Request>, answers: seq<Response>): nat
    requires |requests| == |answers|
  {
    if requests == [] then 0
    else (if requests[0].Delete? && answers[0].Done? then 1 else 0) + Removed(requests[1..], answers[1..])
  }

  /** A request that fails, of whatever kind, changes nothing. */
  lemma FailureChangesNothing(t: Table, r: Request)
    ensures Serve(t, r).1.Failed? || Serve(t, r).1.RepoFailed? ==> Serve(t, r).0 == t
  {
  }

  /** The one id a request may bring to life or to an end. */
  lemma ServeLiveKeys(t: Table, r: Request)
    requires WellFormed(t)
    ensures var (t', answer) := Serve(t, r);
            && (r.Create? && answer.Entity? ==>
                  && t'.Keys == t.Keys + {r.id} && r.id !in t
                  && LiveRows(t').Keys == LiveRows(t).Keys + {r.id})
            && (!(r.Create? && answer.Entity?) ==> t'.Keys == t.Keys)
            && (r.Delete? && answer.Done? ==>
                  r.id in LiveRows(t) && LiveRows(t').Keys == LiveRows(t).Keys - {r.id})
            && (!(r.Create? && answer.Entity?) && !(r.Delete? && answer.Done?) ==>
                  LiveRows(t').Keys == LiveRows(t).Keys)
  {
  }

  lemma ServeConserves(t: Table, r: Request)
    requires WellFormed(t)
    ensures |Serve(t, r).0| == |t| + if r.Create? && Serve(t, r).1.Entity? then 1 else 0
    ensures |LiveRows(Serve(t, r).0)| == |LiveRows(t)|
              + (if r.Create? && Serve(t, r).1.Entity? then 1 else 0)
              - (if r.Delete? && Serve(t, r).1.Done? then 1 else 0)
  {
    var (t', answer) := Serve(t, r);
    ServeLiveKeys(t, r);
    assert |t'| == |t'.Keys| && |t| == |t.Keys|;
    assert |LiveRows(t')| == |LiveRows(t').Keys| && |LiveRows(t)| == |LiveRows(t).Keys|;
  }

  /** Physical rows count the creates that succeeded; live rows, those minus the deletes that did. */
  lemma {:induction false} RunConserves(t: Table, requests: seq<Request>)
    requires WellFormed(t)
    ensures |Run(t, requests).0| == |t| + Created(requests, Run(t, requests).1)
    ensures |LiveRows(Run(t, requests).0)| ==
              |LiveRows(t)| + Created(requests, Run(t, requests).1) - Removed(requests, Run(t, requests).1)
    decreases |requests|
  {
    if requests == [] {
    } else {
      var t' := Serve(t, requests[0]).0;
      ServeConserves(t, requests[0]);
      ServeEvolves(t, requests[0]);
      RunConserves(t', requests[1..]);
      assert Run(t, requests).1[1..] == Run(t', requests[1..]).1;
    }
  }
}
