/**
 The SQL repository under the decorator, as an assumed contract for structs of
 any layout: a map from id to row in which reads hand out fresh structs with the
 selected columns, updates replace whole rows, a missing id is ErrNotFound, and
 an error leaves the table as it was.
 */
module RowStore {
  import opened Wrappers
  import opened Reflection
  import opened Listing
  import GoSlice

  datatype RepoError = ErrNotFound | ErrAlreadyExists | ErrInvalidEntity | ErrOther

  /** An error the database raises of its own accord; "not found" is never one. */
  type Fault = e: RepoError | e != ErrNotFound witness ErrOther

  /** `INSERT`: a refused or duplicate row leaves the table alone. */
  function InsertRow<K, R>(t: map<K, R>, id: K, row: R, accepted: bool, fault: Option<Fault>, refusal: Fault)
    : (map<K, R>, Option<RepoError>)
  {
    if fault.Some? then (t, Some(fault.value))
    else if !accepted then (t, Some(refusal))
    else if id in t then (t, Some(ErrAlreadyExists))
    else (t[id := row], None)
  }

  /** `UPDATE ... WHERE id = ?` of every column. */
  function ReplaceRow<K, R>(t: map<K, R>, id: K, row: R, accepted: bool, fault: Option<Fault>, refusal: Fault)
    : (map<K, R>, Option<RepoError>)
  {
    if fault.Some? then (t, Some(fault.value))
    else if id !in t then (t, Some(ErrNotFound))
    else if !accepted then (t, Some(refusal))
    else (t[id := row], None)
  }

  function ReadRow<K, R>(t: map<K, R>, id: K, fault: Option<Fault>): Result<R, RepoError> {
    if fault.Some? then Err(fault.value)
    else if id !in t then Err(ErrNotFound)
    else Ok(t[id])
  }

  /** A read selects the given columns; every other field has its zero value. */
  function Scanned(layout: Layout, columns: seq<string>, row: seq<Value>): (values: seq<Value>)
    ensures Fits(layout, row) ==> Fits(layout, values)
  {
    seq(|layout|, i requires 0 <= i < |layout| =>
      var col := ColumnName(layout[i].dbTag);
      if i < |row| && col in columns && FindColumn(layout, col) == i then row[i] else Zero(layout[i].goType))
  }

  function ScanAll(layout: Layout, columns: seq<string>, rows: seq<seq<Value>>): (r: seq<seq<Value>>)
    ensures |r| == |rows|
  {
    seq(|rows|, i requires 0 <= i < |rows| => Scanned(layout, columns, rows[i]))
  }

  predicate AllFit<K>(layout: Layout, t: map<K, seq<Value>>) {
    forall id | id in t :: Fits(layout, t[id])
  }

  /** The page of the found rows that a query asks for; a limit that is not positive leaves its length open. */
  ghost predicate IsPageOf<R>(found: seq<R>, asked: Query, page: seq<R>, total: nat)
    requires asked.pagination.offset >= 0
  {
    && (exists n: nat ::
          page == Window(found, asked.pagination.offset, n)
          && (asked.pagination.limit > 0 ==> n == asked.pagination.limit))
    && (!asked.skipCount ==> total == |found|)
  }

  class SqlRepository<TID(==)> {
    const layout: Layout
    /** The columns selected on reads. */
    const columns: seq<string>
    const idOf: seq<Value> -> TID
    /** The table's CHECKs. */
    const accepts: seq<Value> -> bool
    var rows: map<TID, seq<Value>>
    /** What the last list was asked for. */
    ghost var asked: Query

    ghost predicate Valid()
      reads this
    {
      AllFit(layout, rows)
    }

    constructor (layout: Layout, columns: seq<string>, idOf: seq<Value> -> TID, accepts: seq<Value> -> bool)
      ensures Valid() && rows == map[]
      ensures this.layout == layout && this.columns == columns && this.idOf == idOf && this.accepts == accepts
    {
      this.layout := layout;
      this.columns := columns;
      this.idOf := idOf;
      this.accepts := accepts;
      this.rows := map[];
    }

    method Create(entity: Struct, fault: Option<Fault>, refusal: Fault) returns (err: Option<RepoError>)
      requires Valid() && entity.Valid() && entity.layout == layout
      modifies this
      ensures Valid()
      ensures (rows, err)
           == InsertRow(old(rows), idOf(entity.values), entity.values, accepts(entity.values), fault, refusal)
    {
      var (rows', e) :=
        InsertRow(rows, idOf(entity.values), entity.values, accepts(entity.values), fault, refusal);
      rows := rows';
      err := e;
    }

    method GetByID(id: TID, fault: Option<Fault>) returns (r: Result<Struct, RepoError>)
      requires Valid()
      ensures match ReadRow(rows, id, fault)
              case Ok(row) =>
                && r.Ok? && fresh(r.value) && r.value.Valid() && r.value.layout == layout
                && r.value.values == Scanned(layout, columns, row)
              case Err(e) => r == Err(e)
    {
      match ReadRow(rows, id, fault)
      case Err(e) =>
        r := Err(e);
      case Ok(row) =>
        var entity := new Struct(layout, Scanned(layout, columns, row));
        r := Ok(entity);
    }

    method Update(id: TID, entity: Struct, fault: Option<Fault>, refusal: Fault) returns (err: Option<RepoError>)
      requires Valid() && entity.Valid() && entity.layout == layout
      modifies this
      ensures Valid()
      ensures (rows, err) == ReplaceRow(old(rows), id, entity.values, accepts(entity.values), fault, refusal)
    {
      var (rows', e) := ReplaceRow(rows, id, entity.values, accepts(entity.values), fault, refusal);
      rows := rows';
      err := e;
    }

    /** Ids are scanned in the given order; `page` holds the stored rows of the answer. */
    method List(opts: ListOptions, order: seq<TID>, fault: Option<Fault>, refusal: Fault)
      returns (r: Result<(seq<seq<Value>>, nat), RepoError>, ghost page: seq<seq<Value>>)
      requires GoSlice.Valid(opts.filter.conditions)
      modifies this`asked
      ensures asked == Asked(opts)
      ensures fault.Some? ==> r == Err(fault.value)
      ensures fault.None? && asked.pagination.offset < 0 ==> r == Err(refusal)
      ensures fault.None? && asked.pagination.offset >= 0 ==>
                && r.Ok? && r.value.0 == ScanAll(layout, columns, page)
                && IsPageOf(Select(rows, order, MatchingIn(layout, asked.conditions)), asked, page, r.value.1)
    {
      asked := Asked(opts);
      page := [];
      if fault.Some? {
        return Err(fault.value), page;
      }
      if opts.pagination.offset < 0 {
        return Err(refusal), page;
      }
      var slice := opts.filter.conditions;
      var conditions := slice.data[slice.off..slice.off + slice.len];
      var found := Select(rows, order, MatchingIn(layout, conditions));
      var limit: nat, total: nat := *, *;
      if opts.pagination.limit > 0 {
        limit := opts.pagination.limit;
      }
      if !opts.skipCount {
        total := |found|;
      }
      page := Window(found, opts.pagination.offset, limit);
      return Ok((ScanAll(layout, columns, Window(found, opts.pagination.offset, limit)), total)), page;
    }

    method Count(filter: Filter, fault: Option<Fault>) returns (r: Result<nat, RepoError>)
      requires GoSlice.Valid(filter.conditions)
      ensures r == if fault.Some? then Err(fault.value)
                   else Ok(CountRows(rows, MatchingIn(layout, GoSlice.View(filter.conditions))))
    {
      if fault.Some? {
        return Err(fault.value);
      }
      var slice := filter.conditions;
      var conditions := slice.data[slice.off..slice.off + slice.len];
      r := Ok(CountRows(rows, MatchingIn(layout, conditions)));
    }
  }
}
