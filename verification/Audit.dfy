/** The soft-deleting, time-stamping decorator around a repository of structs of any layout. */
module Audit {
  import opened Wrappers
  import opened Reflection
  import opened Listing
  import opened RowStore
  import GoSlice

  /** Appends "deleted_at IS NULL"; with spare capacity it writes into the caller's backing array. */
  method AppendSoftDeleteFilter(f: Filter) returns (r: Filter)
    requires GoSlice.Valid(f.conditions)
    modifies f.conditions.data
    ensures GoSlice.Valid(r.conditions)
    ensures GoSlice.View(r.conditions) == old(GoSlice.View(f.conditions)) + [NOT_DELETED]
    ensures GoSlice.View(f.conditions) == old(GoSlice.View(f.conditions))
    ensures r.conditions.data == f.conditions.data || fresh(r.conditions.data)
    ensures r.conditions.data == f.conditions.data ==> r.conditions.off == f.conditions.off
    ensures r.conditions.len == f.conditions.len + 1
    ensures forall i | 0 <= i < f.conditions.data.Length ::
              f.conditions.data[i] == old(f.conditions.data[i])
              || (i == f.conditions.off + f.conditions.len && f.conditions.data[i] == NOT_DELETED)
  {
    var end := f.conditions.off + f.conditions.len;
    var conditions := GoSlice.Append(f.conditions, NOT_DELETED);
    assert f.conditions.len < f.conditions.cap ==>
        f.conditions.data[..] == old(f.conditions.data[..])[end := NOT_DELETED];
    forall i | 0 <= i < f.conditions.data.Length
      ensures f.conditions.data[i] == old(f.conditions.data[i]) || (i == end && f.conditions.data[i] == NOT_DELETED)
    {
      assert f.conditions.data[i] == f.conditions.data[..][i];
      assert old(f.conditions.data[i]) == old(f.conditions.data[..][i]);
    }
    r := f.(conditions := conditions);
  }

  /** Any number of filters derived from one base stay right, shared backing array or not. */
  method DeriveFilters(base: Filter, count: nat) returns (derived: seq<Filter>)
    requires GoSlice.Valid(base.conditions)
    modifies base.conditions.data
    ensures |derived| == count
    ensures GoSlice.View(base.conditions) == old(GoSlice.View(base.conditions))
    ensures forall f | f in derived ::
              && GoSlice.Valid(f.conditions)
              && GoSlice.View(f.conditions) == old(GoSlice.View(base.conditions)) + [NOT_DELETED]
  {
    derived := [];
    ghost var seen := GoSlice.View(base.conditions);
    for i := 0 to count
      invariant |derived| == i
      invariant GoSlice.View(base.conditions) == seen
      invariant forall f | f in derived ::
                  && f.conditions.len == base.conditions.len + 1
                  && (f.conditions.data == base.conditions.data ==> f.conditions.off == base.conditions.off)
                  && GoSlice.Valid(f.conditions)
                  && GoSlice.View(f.conditions) == seen + [NOT_DELETED]
    {
      label before:
      var f := AppendSoftDeleteFilter(base);
      forall g | g in derived ensures GoSlice.View(g.conditions) == seen + [NOT_DELETED] {
        assert old@before(GoSlice.View(g.conditions)) == seen + [NOT_DELETED];
        if g.conditions.data == base.conditions.data {
          forall j | 0 <= j < g.conditions.len
            ensures g.conditions.data[g.conditions.off + j] == (seen + [NOT_DELETED])[j]
          {
            assert old@before(g.conditions.data[g.conditions.off + j]) == old@before(GoSlice.View(g.conditions)[j]);
          }
        }
      }
      derived := derived + [f];
    }
  }

  /** The decorator's read: a tombstone is reported as missing. */
  function ReadLive<K>(layout: Layout, columns: seq<string>, rows: map<K, seq<Value>>, id: K, fault: Option<Fault>)
    : (r: Result<seq<Value>, RepoError>)
    requires AllFit(layout, rows)
    ensures r.Ok? ==> Fits(layout, r.value)
  {
    match ReadRow(rows, id, fault)
    case Err(e) => Err(e)
    case Ok(row) =>
      var values := Scanned(layout, columns, row);
      if SoftDeleted(layout, values) then Err(ErrNotFound) else Ok(values)
  }

  /** The rows a filter lets through once "deleted_at IS NULL" has been appended to it. */
  function KeptIn(layout: Layout, conditions: seq<Condition>): seq<Value> -> bool {
    MatchingIn(layout, conditions + [NOT_DELETED])
  }

  class AuditableRepository<TID(==)> {
    const inner: SqlRepository<TID>

    constructor (inner: SqlRepository<TID>)
      ensures this.inner == inner
    {
      this.inner := inner;
    }

    /** Stamps the first created_at and updated_at fields, if settable times, and inserts the struct. */
    method Create(entity: Struct, now: Time, fault: Option<Fault>, refusal: Fault) returns (err: Option<RepoError>)
      requires inner.Valid() && entity.Valid() && entity.layout == inner.layout
      modifies entity, inner
      ensures inner.Valid() && entity.Valid()
      ensures entity.values == CreateStamp(inner.layout, old(entity.values), now)
      ensures (inner.rows, err)
           == InsertRow(old(inner.rows), inner.idOf(entity.values), entity.values,
                        inner.accepts(entity.values), fault, refusal)
    {
      SetTimeField(entity, "created_at", now);
      SetTimeField(entity, "updated_at", now);
      err := inner.Create(entity, fault, refusal);
    }

    method GetByID(id: TID, fault: Option<Fault>) returns (r: Result<Struct, RepoError>)
      requires inner.Valid()
      ensures match ReadLive(inner.layout, inner.columns, inner.rows, id, fault)
              case Ok(values) =>
                && r.Ok? && fresh(r.value) && r.value.Valid() && r.value.layout == inner.layout
                && r.value.values == values
              case Err(e) => r == Err(e)
    {
      r := inner.GetByID(id, fault);
      if r.Err? {
        return;
      }
      var deleted := IsSoftDeleted(r.value);
      if deleted {
        return Err(ErrNotFound);
      }
    }

    /** Stamps and writes; unlike every other method it does not look for a tombstone. */
    method Update(id: TID, entity: Struct, now: Time, fault: Option<Fault>, refusal: Fault)
      returns (err: Option<RepoError>)
      requires inner.Valid() && entity.Valid() && entity.layout == inner.layout
      modifies entity, inner
      ensures inner.Valid() && entity.Valid()
      ensures entity.values == WithTime(inner.layout, old(entity.values), "updated_at", now)
      ensures (inner.rows, err)
           == ReplaceRow(old(inner.rows), id, entity.values, inner.accepts(entity.values), fault, refusal)
    {
      SetTimeField(entity, "updated_at", now);
      err := inner.Update(id, entity, fault, refusal);
    }

    /** A soft delete: the row stays, stamped, and only the inner repository's Update is called. */
    method Delete(id: TID, now: Time, readFault: Option<Fault>, writeFault: Option<Fault>, refusal: Fault)
      returns (err: Option<RepoError>)
      requires inner.Valid()
      modifies inner
      ensures inner.Valid()
      ensures match ReadLive(inner.layout, inner.columns, old(inner.rows), id, readFault)
              case Err(e) => err == Some(e) && inner.rows == old(inner.rows)
              case Ok(values) =>
                var stamped := DeleteStamp(inner.layout, values, now);
                (inner.rows, err)
                == ReplaceRow(old(inner.rows), id, stamped, inner.accepts(stamped), writeFault, refusal)
    {
      var r := inner.GetByID(id, readFault);
      if r.Err? {
        return Some(r.error);
      }
      var entity := r.value;
      var deleted := IsSoftDeleted(entity);
      if deleted {
        return Some(ErrNotFound);
      }
      SetPtrTimeField(entity, "deleted_at", now);
      SetTimeField(entity, "updated_at", now);
      err := inner.Update(id, entity, writeFault, refusal);
    }

    /** Adds the tombstone condition and passes pagination, sorts and the count switch on untouched. */
    method List(opts: Option<ListOptions>, order: seq<TID>, fault: Option<Fault>, refusal: Fault)
      returns (r: Result<(seq<seq<Value>>, nat), RepoError>, ghost page: seq<seq<Value>>)
      requires opts.Some? ==> GoSlice.Valid(opts.value.filter.conditions)
      modifies inner`asked, if opts.Some? then {opts.value.filter.conditions.data} else {}
      ensures opts.Some? ==>
                && inner.asked == Query(old(GoSlice.View(opts.value.filter.conditions)) + [NOT_DELETED],
                                        opts.value.pagination, opts.value.sorts, opts.value.skipCount)
                && GoSlice.View(opts.value.filter.conditions) == old(GoSlice.View(opts.value.filter.conditions))
      ensures opts.None? ==> inner.asked == Query([NOT_DELETED], Pagination(0, 0), [], false)
      ensures fault.Some? ==> r == Err(fault.value)
      ensures fault.None? && inner.asked.pagination.offset < 0 ==> r == Err(refusal)
      ensures fault.None? && inner.asked.pagination.offset >= 0 ==>
                var given := if opts.Some? then old(GoSlice.View(opts.value.filter.conditions)) else [];
                && r.Ok? && r.value.0 == ScanAll(inner.layout, inner.columns, page)
                && IsPageOf(Select(inner.rows, order, KeptIn(inner.layout, given)), inner.asked, page, r.value.1)
    {
      var given: ListOptions;
      if opts.Some? {
        given := opts.value;
      } else {
        var none := GoSlice.Nil<Condition>();
        given := ListOptions(Filter(none), Pagination(0, 0), [], false);
      }
      var filter := AppendSoftDeleteFilter(given.filter);
      var merged := ListOptions(filter, given.pagination, given.sorts, given.skipCount);
      r, page := inner.List(merged, order, fault, refusal);
    }

    method Count(filter: Filter, fault: Option<Fault>) returns (r: Result<nat, RepoError>)
      requires GoSlice.Valid(filter.conditions)
      modifies filter.conditions.data
      ensures GoSlice.View(filter.conditions) == old(GoSlice.View(filter.conditions))
      ensures r == if fault.Some? then Err(fault.value)
                   else Ok(CountRows(inner.rows, KeptIn(inner.layout, GoSlice.View(filter.conditions))))
    {
      var merged := AppendSoftDeleteFilter(filter);
      r := inner.Count(merged, fault);
    }

    method Exists(id: TID, fault: Option<Fault>) returns (r: Result<bool, RepoError>)
      requires inner.Valid()
      ensures match ReadLive(inner.layout, inner.columns, inner.rows, id, fault)
              case Ok(_) => r == Ok(true)
              case Err(e) => r == if e == ErrNotFound then Ok(false) else Err(e)
    {
      var got := GetByID(id, fault);
      if got.Err? {
        if got.error == ErrNotFound {
          return Ok(false);
        }
        return Err(got.error);
      }
      return Ok(true);
    }
  }
}
