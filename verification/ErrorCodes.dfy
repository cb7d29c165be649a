/**
 Which status a request answers with: docs/FEATURES.md:55 promises 409 and 422
 for the repository's sentinels throughout, the code keeps that promise in
 creates only.
 */
module ErrorCodes {
  import opened Wrappers
  import opened Categories
  import opened Listing
  import Reflection
  import opened Requests
  import opened RowStore
  import opened SimpleStore

  /** Neither of the two bad-request guards of a create applies. */
  predicate PassesGuards(input: CreateInput) {
    && !(input.source == SOURCE_APP && input.tenantId.Some?)
    && !(input.source == SOURCE_TENANT && input.tenantId.None?)
  }

  /** What the database raises when a new row is inserted: a failure of its own, a refusal, or a duplicate id. */
  predicate InsertRaises(t: Table, id: Id, input: CreateInput, env: Env, e: RepoError) {
    || env.writeFault == Some(e)
    || (env.writeFault.None? && !SourceMatchesTenant(input.source, input.tenantId) && env.refusal == e)
    || (&& env.writeFault.None? && SourceMatchesTenant(input.source, input.tenantId)
        && id in t && e == ErrAlreadyExists)
  }

  /** 409 is answered by exactly the creates whose insert raises ErrAlreadyExists. */
  lemma ConflictIff(t: Table, r: Request)
    ensures Serve(t, r).1 == Failed(Conflict)
       <==> r.Create? && PassesGuards(r.create) && InsertRaises(t, r.id, r.create, r.env, ErrAlreadyExists)
  {
    assert SOURCE_APP != SOURCE_TENANT;
  }

  /** 422 is answered by exactly the creates whose insert raises ErrInvalidEntity. */
  lemma UnprocessableIff(t: Table, r: Request)
    ensures Serve(t, r).1 == Failed(UnprocessableEntity)
       <==> r.Create? && PassesGuards(r.create) && InsertRaises(t, r.id, r.create, r.env, ErrInvalidEntity)
  {
    assert SOURCE_APP != SOURCE_TENANT;
  }

  /** 400 is answered by exactly the creates that a guard turns away, whatever the database does. */
  lemma BadRequestIff(t: Table, r: Request)
    ensures Serve(t, r).1 == Failed(BadRequest) <==> r.Create? && !PassesGuards(r.create)
  {
  }

  /** 404 is answered by exactly the reads, updates and deletes of an id that has no live row, found out without a failure. */
  lemma NotFoundIff(t: Table, r: Request)
    ensures Serve(t, r).1 == Failed(NotFound)
       <==> (r.Get? || r.Update? || r.Delete?) && r.env.readFault.None? && r.id !in LiveRows(t)
  {
  }

  /** The read of a request on an existing row raises the error. */
  predicate ReadRaises(t: Table, id: Id, env: Env, e: RepoError) {
    || env.readFault == Some(e)
    || (env.readFault.None? && id !in LiveRows(t) && e == ErrNotFound)
  }

  /** The write of an update or delete, on the live row it has read, raises the error. */
  predicate WriteRaises(t: Table, r: RowWrite, e: RepoError) {
    && r.env.readFault.None? && r.id in LiveRows(t)
    && (r.env.writeFault == Some(e)
        || (r.env.writeFault.None? && !CheckHolds(NewRow(r, t[r.id])) && r.env.refusal == e))
  }

  /** The repository error that ends a request on a row. */
  predicate Raises(t: Table, r: Request, e: RepoError) {
    match r
    case Create(id, input, env) => PassesGuards(input) && e != ErrNotFound && InsertRaises(t, id, input, env, e)
    case Get(id, env) => ReadRaises(t, id, env, e)
    case Update(id, _, env) => ReadRaises(t, id, env, e) || WriteRaises(t, r, e)
    case Delete(id, env) => ReadRaises(t, id, env, e) || WriteRaises(t, r, e)
    case _ => false
  }

  /** The documented status of a repository error. */
  function Documented(e: RepoError): ErrorCode {
    match e
    case ErrNotFound => NotFound
    case ErrAlreadyExists => Conflict
    case ErrInvalidEntity => UnprocessableEntity
    case ErrOther => Internal
  }

  /** A request on a row fails exactly when a guard turns it away or the repository raises an error. */
  lemma FailsIff(t: Table, r: Request)
    requires r.Create? || r.Get? || r.Update? || r.Delete?
    ensures Serve(t, r).1.Failed? <==> (r.Create? && !PassesGuards(r.create)) || exists e :: Raises(t, r, e)
  {
    assert SOURCE_APP != SOURCE_TENANT;
    assert forall e :: Raises(t, r, e) ==> Serve(t, r).1.Failed?;
    if Serve(t, r).1.Failed? && !(r.Create? && !PassesGuards(r.create)) {
      assert || Raises(t, r, ErrNotFound) || Raises(t, r, ErrAlreadyExists)
             || Raises(t, r, ErrInvalidEntity) || Raises(t, r, ErrOther);
    }
  }

  /** A raised error is answered with its documented status exactly if it is not a sentinel met outside a create. */
  lemma DocumentedIff(t: Table, r: Request, e: RepoError)
    requires Raises(t, r, e)
    ensures Serve(t, r).1 == Failed(Documented(e)) <==> r.Create? || (e != ErrAlreadyExists && e != ErrInvalidEntity)
    ensures Serve(t, r).1 != Failed(Documented(e)) ==> Serve(t, r) == (t, Failed(Internal))
  {
    assert SOURCE_APP != SOURCE_TENANT;
  }

  /** A rename of any live row whose write raises a sentinel is answered with an internal error. */
  lemma UpdateLosesSentinel(t: Table, id: Id, name: string, now: Reflection.Time, e: Fault)
    requires id in LiveRows(t)
    ensures var r := Update(id, UpdateInput(None, None, Some(name)), Env(now, None, Some(e), ErrOther));
            Raises(t, r, e) && Serve(t, r) == (t, Failed(Internal))
  {
  }

  /** So is a delete. */
  lemma DeleteLosesSentinel(t: Table, id: Id, now: Reflection.Time, e: Fault)
    requires id in LiveRows(t)
    ensures var r := Delete(id, Env(now, None, Some(e), ErrOther));
            Raises(t, r, e) && Serve(t, r) == (t, Failed(Internal))
  {
  }

  // --------------------------------------------------------------- other requests

  /** A list fails only with an internal error: when its read does, or when its offset has wrapped below zero. */
  lemma ListFailsIff(t: Table, r: Request)
    requires r.List?
    ensures Serve(t, r).1.Page? || Serve(t, r).1 == Failed(Internal)
    ensures Serve(t, r).1.Page? <==>
              r.env.readFault.None? && Offset(ClampPage(r.params.page), ClampSize(r.params.size)) >= 0
    ensures Serve(t, r).1.Page? ==> Serve(t, r).1.page == r.params.page && Serve(t, r).1.size == r.params.size
  {
  }

  /** What the decorator itself answers: whether a live row has the id, and how many live rows meet the conditions. */
  lemma ExistsAndCount(t: Table, id: Id, conditions: seq<Condition>, env: Env)
    requires env.readFault.None?
    ensures Serve(t, Exists(id, env)).1 == Flag(id in t && t[id].deletedAt.None?)
    ensures Serve(t, Count(conditions, env)).1
         == Number(|set x | x in t && t[x].deletedAt.None? && MatchesAll(t[x], conditions)|)
  {
    forall c: Category ensures Kept(conditions)(c) <==> c.deletedAt.None? && MatchesAll(c, conditions) {
      KeptIff(conditions, c);
    }
    assert IdsOf(t, Kept(conditions))
        == set x | x in t && t[x].deletedAt.None? && MatchesAll(t[x], conditions);
  }

  /** A failing read is passed on by the two as it is. */
  lemma DecoratorPassesErrorsOn(t: Table, id: Id, conditions: seq<Condition>, env: Env)
    requires env.readFault.Some?
    ensures Serve(t, Exists(id, env)).1 == Serve(t, Count(conditions, env)).1 == RepoFailed(env.readFault.value)
  {
  }
}
