/** The service for event categories, over a soft-deleting repository. */
module CategoryService {
  import opened Wrappers
  import opened Reflection
  import opened Categories
  import opened Listing
  import opened Requests
  import opened RowStore
  import opened CategoryStore
  import Audit
  import GoSlice
  import Paging
  import Text

  datatype PageResponse = PageResponse(items: seq<Category>, total: nat, page: int, size: int)

  lemma FilterListGrows(done: map<string, string>, seen: seq<Condition>, field: string, value: string)
    requires IsFilterList(done, seen) && field !in done
    ensures IsFilterList(done[field := value], seen + [Condition(field, Eq, value)])
  {
    var all := seen + [Condition(field, Eq, value)];
    assert all[|seen|] == Condition(field, Eq, value);
    forall f | f in done ensures Condition(f, Eq, done[f]) in all {
      assert Condition(f, Eq, done[f]) in seen;
    }
  }

  /** The conditions listed so far are those of the entries no longer left. */
  ghost predicate Listed(filters: map<string, string>, left: set<string>, conditions: seq<Condition>) {
    left <= filters.Keys && IsFilterList(filters - left, conditions)
  }

  lemma ListOne(filters: map<string, string>, left: set<string>, seen: seq<Condition>, field: string)
    requires Listed(filters, left, seen) && field in left
    ensures Listed(filters, left - {field}, seen + [Condition(field, Eq, filters[field])])
  {
    assert filters - (left - {field}) == (filters - left)[field := filters[field]];
    FilterListGrows(filters - left, seen, field, filters[field]);
  }

  lemma ListNone(filters: map<string, string>)
    ensures Listed(filters, filters.Keys, [])
  {
    assert filters - filters.Keys == map[];
  }

  lemma ListAll(filters: map<string, string>, conditions: seq<Condition>)
    requires Listed(filters, {}, conditions)
    ensures IsFilterList(filters, conditions)
  {
    assert filters - {} == filters;
  }

  /** The filter loop of `ListParamsToListOptions`; the map is visited in any order. */
  method FilterConditions(filters: map<string, string>) returns (conditions: GoSlice.Slice<Condition>)
    ensures GoSlice.Valid(conditions) && fresh(conditions.data)
    ensures IsFilterList(filters, GoSlice.View(conditions))
  {
    conditions := GoSlice.Nil<Condition>();
    var left := filters.Keys;
    ListNone(filters);
    ghost var seen: seq<Condition> := [];
    while left != {}
      invariant GoSlice.Valid(conditions) && fresh(conditions.data)
      invariant seen == GoSlice.View(conditions)
      invariant Listed(filters, left, seen)
      decreases |left|
    {
      var field :| field in left;
      ListOne(filters, left, seen, field);
      conditions := GoSlice.Append(conditions, Condition(field, Eq, filters[field]));
      left := left - {field};
      seen := GoSlice.View(conditions);
    }
    ListAll(filters, seen);
  }

  /** The sort loop of `ListParamsToListOptions`. */
  method RepositorySorts(specs: seq<SortSpec>) returns (sorts: seq<Sort>)
    ensures sorts == SortsOf(specs)
  {
    sorts := [];
    for i := 0 to |specs|
      invariant sorts == SortsOf(specs)[..i]
    {
      var dir := Asc;
      if specs[i].direction == SORT_DESC {
        dir := Desc;
      }
      sorts := sorts + [Sort(specs[i].field, dir)];
    }
  }

  /** Turns parsed parameters into repository options. */
  method ListParamsToListOptions(params: Option<ListParams>) returns (opts: ListOptions)
    ensures GoSlice.Valid(opts.filter.conditions) && fresh(opts.filter.conditions.data)
    ensures !opts.skipCount
    ensures params.None? ==>
              opts.pagination == Pagination(0, 0) && opts.sorts == [] && GoSlice.View(opts.filter.conditions) == []
    ensures params.Some? ==>
              && opts.pagination.limit == ClampSize(params.value.size)
              && opts.pagination.offset == Offset(ClampPage(params.value.page), ClampSize(params.value.size))
              && opts.sorts == SortsOf(params.value.sorts)
              && IsFilterList(params.value.filters, GoSlice.View(opts.filter.conditions))
  {
    if params.None? {
      var none := GoSlice.Nil<Condition>();
      return ListOptions(Filter(none), Pagination(0, 0), [], false);
    }
    var page, size := params.value.page, params.value.size;
    if page < 1 {
      page := 1;
    }
    if size < 1 {
      size := 20;
    }
    if size > 100 {
      size := 100;
    }
    var offset := Text.Wrap64((page - 1) * size);
    var conditions := FilterConditions(params.value.filters);
    var sorts := RepositorySorts(params.value.sorts);
    opts := ListOptions(Filter(conditions), Pagination(size, offset), sorts, false);
  }

  /** Assigning the given fields of a row's struct gives the struct of the updated row. */
  lemma AssignedFields(row: Category, u: UpdateInput)
    ensures var v0 := Encode(row);
            var v1 := if u.source.Some? then v0[SOURCE := Plain(u.source.value)] else v0;
            var v2 := if u.tenantId.Some? then v1[TENANT_ID := Pointer(Some(Plain(u.tenantId.value)))] else v1;
            var v3 := if u.name.Some? then v2[NAME := Plain(u.name.value)] else v2;
            v3 == Encode(Apply(row, u))
  {
  }

  /** The assignments of `Update`: each given field goes to its struct field. */
  method AssignFields(entity: Struct, input: UpdateInput)
    requires IsCategory(entity)
    modifies entity
    ensures IsCategory(entity) && entity.values == Encode(Apply(old(RowOf(entity)), input))
  {
    EncodeDecode(entity.values);
    AssignedFields(RowOf(entity), input);
    if input.source.Some? {
      entity.values := entity.values[SOURCE := Plain(input.source.value)];
    }
    if input.tenantId.Some? {
      entity.values := entity.values[TENANT_ID := Pointer(Some(Plain(input.tenantId.value)))];
    }
    if input.name.Some? {
      entity.values := entity.values[NAME := Plain(input.name.value)];
    }
  }

  /** Stamping that struct gives the struct of the row an update writes. */
  lemma StampedFields(r: RowWrite, row: Category)
    requires r.Update?
    ensures WithTime(LAYOUT, Encode(Apply(row, r.update)), "updated_at", r.env.now) == Encode(NewRow(r, row))
    ensures Decode(Encode(NewRow(r, row))) == NewRow(r, row)
  {
    StampUpdatedAt(Apply(row, r.update), r.env.now);
    DecodeEncode(NewRow(r, row));
  }

  function WriteAnswer(r: RowWrite, row: Category, err: Option<RepoError>): Response {
    if err.Some? then Failed(CodeOf(err.value)) else if r.Update? then Entity(NewRow(r, row)) else Done
  }

  lemma FinishAgrees(rows: map<Id, seq<Value>>, r: RowWrite, row: Category)
    requires AllFit(LAYOUT, rows)
    ensures var row' := NewRow(r, row);
            var (rows', err) :=
              ReplaceRow(rows, r.id, Encode(row'), CheckHolds(row'), r.env.writeFault, r.env.refusal);
            && AllFit(LAYOUT, rows')
            && Finish(TableOf(rows), r, row) == (TableOf(rows'), WriteAnswer(r, row, err))
  {
    var row' := NewRow(r, row);
    ReplaceAgrees(rows, r.id, row', CheckHolds(row'), r.env.writeFault, r.env.refusal);
  }

  /** An update or delete of the table is the decorator's read of the stored rows and then a write of one of them. */
  lemma RowWriteAgrees(rows: map<Id, seq<Value>>, r: RowWrite)
    requires AllFit(LAYOUT, rows)
    ensures match Audit.ReadLive(LAYOUT, COLUMNS, rows, r.id, r.env.readFault)
            case Err(e) => Serve(TableOf(rows), r) == (TableOf(rows), Failed(CodeOf(e)))
            case Ok(values) =>
              var row := Decode(values);
              var row' := NewRow(r, row);
              var (rows', err) :=
                ReplaceRow(rows, r.id, Encode(row'), CheckHolds(row'), r.env.writeFault, r.env.refusal);
              && AllFit(LAYOUT, rows')
              && Serve(TableOf(rows), r) == (TableOf(rows'), WriteAnswer(r, row, err))
  {
    ReadAgrees(rows, r.id, r.env.readFault);
    match Audit.ReadLive(LAYOUT, COLUMNS, rows, r.id, r.env.readFault)
    case Err(_) =>
    case Ok(values) => FinishAgrees(rows, r, Decode(values));
  }

  /** The page the decorator answers, decoded, is the specified window of the table's rows. */
  lemma PageAgrees(
      rows: map<Id, seq<Value>>, order: seq<Id>, listed: seq<Condition>, asked: Query,
      page: seq<seq<Value>>, total: nat)
    requires AllFit(LAYOUT, rows) && asked.pagination.offset >= 0 && asked.pagination.limit > 0 && !asked.skipCount
    requires IsPageOf(Select(rows, order, Audit.KeptIn(LAYOUT, listed)), asked, page, total)
    ensures forall v | v in ScanAll(LAYOUT, COLUMNS, page) :: Fits(LAYOUT, v)
    ensures var found := Select(TableOf(rows), order, Kept(listed));
            && Decoded(ScanAll(LAYOUT, COLUMNS, page)) == Window(found, asked.pagination.offset, asked.pagination.limit)
            && total == |found|
  {
    SelectAgrees(rows, order, listed + [NOT_DELETED]);
    var found := Select(rows, order, Audit.KeptIn(LAYOUT, listed));
    WindowAgrees(found, asked.pagination.offset, asked.pagination.limit);
    ScanAllCategories(page);
  }

  class CategoryServiceImpl {
    const repo: Audit.AuditableRepository<Id>

    constructor (repo: Audit.AuditableRepository<Id>)
      ensures this.repo == repo
    {
      this.repo := repo;
    }

    ghost predicate Valid()
      reads repo.inner
    {
      IsCategoryStore(repo.inner)
    }

    /** The physical table under the service. */
    ghost function Table(): Table
      requires Valid()
      reads repo.inner
    {
      TableOf(repo.inner.rows)
    }

    /** `id` is the UUID just generated. */
    method Create(id: Id, input: CreateInput, env: Env) returns (r: Result<Struct, ErrorCode>)
      requires Valid()
      modifies repo.inner
      ensures Valid() && (r.Ok? ==> fresh(r.value) && IsCategory(r.value))
      ensures Serve(old(Table()), Requests.Create(id, input, env))
           == (Table(), if r.Ok? then Entity(RowOf(r.value)) else Failed(r.error))
    {
      if input.source == SOURCE_APP && input.tenantId.Some? {
        return Err(BadRequest);
      }
      if input.source == SOURCE_TENANT && input.tenantId.None? {
        return Err(BadRequest);
      }
      ghost var blank := Category(id, input.source, input.tenantId, input.name, 0, 0, None);
      ghost var row := blank.(createdAt := env.now, updatedAt := env.now);
      var entity := new Struct(LAYOUT,
        [Plain(id), Plain(input.source), EncodeText(input.tenantId), Plain(input.name),
         TimeValue(0), TimeValue(0), Pointer(None)]);
      assert entity.values == Encode(blank);
      StampCreate(blank, env.now);
      DecodeEncode(row);
      InsertAgrees(repo.inner.rows, id, row, CheckHolds(row), env.writeFault, env.refusal);
      var err := repo.Create(entity, env.now, env.writeFault, env.refusal);
      if err.Some? {
        if err.value == ErrAlreadyExists {
          return Err(Conflict);
        }
        if err.value == ErrInvalidEntity {
          return Err(UnprocessableEntity);
        }
        return Err(Internal);
      }
      return Ok(entity);
    }

    method GetByID(id: Id, env: Env) returns (r: Result<Struct, ErrorCode>)
      requires Valid()
      ensures r.Ok? ==> fresh(r.value) && IsCategory(r.value)
      ensures Serve(Table(), Get(id, env))
           == (Table(), if r.Ok? then Entity(RowOf(r.value)) else Failed(r.error))
    {
      ReadAgrees(repo.inner.rows, id, env.readFault);
      var got := repo.GetByID(id, env.readFault);
      if got.Err? {
        if got.error == ErrNotFound {
          return Err(NotFound);
        }
        return Err(Internal);
      }
      return Ok(got.value);
    }

    method Update(id: Id, input: UpdateInput, env: Env) returns (r: Result<Struct, ErrorCode>)
      requires Valid()
      modifies repo.inner
      ensures Valid() && (r.Ok? ==> fresh(r.value) && IsCategory(r.value))
      ensures Serve(old(Table()), Requests.Update(id, input, env))
           == (Table(), if r.Ok? then Entity(RowOf(r.value)) else Failed(r.error))
    {
      ghost var request: RowWrite := Requests.Update(id, input, env);
      RowWriteAgrees(repo.inner.rows, request);
      var got := repo.GetByID(id, env.readFault);
      if got.Err? {
        if got.error == ErrNotFound {
          return Err(NotFound);
        }
        return Err(Internal);
      }
      var entity := got.value;
      ghost var row := RowOf(entity);
      AssignFields(entity, input);
      StampedFields(request, row);
      var err := repo.Update(id, entity, env.now, env.writeFault, env.refusal);
      if err.Some? {
        if err.value == ErrNotFound {
          return Err(NotFound);
        }
        return Err(Internal);
      }
      return Ok(entity);
    }

    method Delete(id: Id, env: Env) returns (err: Option<ErrorCode>)
      requires Valid()
      modifies repo.inner
      ensures Valid()
      ensures Serve(old(Table()), Requests.Delete(id, env))
           == (Table(), if err.None? then Done else Failed(err.value))
    {
      RowWriteAgrees(repo.inner.rows, Requests.Delete(id, env));
      ghost var read := Audit.ReadLive(LAYOUT, COLUMNS, repo.inner.rows, id, env.readFault);
      if read.Ok? {
        EncodeDecode(read.value);
        StampDelete(Decode(read.value), env.now);
      }
      var e := repo.Delete(id, env.now, env.readFault, env.writeFault, env.refusal);
      if e.Some? {
        if e.value == ErrNotFound {
          return Some(NotFound);
        }
        return Some(Internal);
      }
      return None;
    }

    /** Dereferences its parameters, so they are not optional here. */
    method List(params: ListParams, order: seq<Id>, env: Env) returns (r: Result<PageResponse, ErrorCode>)
      requires Valid()
      modifies repo.inner`asked
      ensures Valid()
      ensures forall conditions | IsFilterList(params.filters, conditions) ::
                Serve(Table(), Requests.List(params, conditions, order, env)).1
                == if r.Ok? then Page(r.value.items, r.value.total, r.value.page, r.value.size) else Failed(r.error)
      ensures var size := ClampSize(params.size);
              repo.inner.asked == Query(repo.inner.asked.conditions,
                                        Pagination(size, Offset(ClampPage(params.page), size)),
                                        SortsOf(params.sorts), false)
      ensures exists conditions :: IsFilterList(params.filters, conditions)
                && repo.inner.asked.conditions == conditions + [NOT_DELETED]
    {
      var opts := ListParamsToListOptions(Some(params));
      ghost var listed := GoSlice.View(opts.filter.conditions);
      var got;
      ghost var page;
      got, page := repo.List(Some(opts), order, env.readFault, env.refusal);
      assert repo.inner.asked.conditions == listed + [NOT_DELETED];
      forall conditions | IsFilterList(params.filters, conditions)
        ensures Serve(Table(), Requests.List(params, conditions, order, env)).1
             == Serve(Table(), Requests.List(params, listed, order, env)).1
      {
        Paging.FilterOrderIsIrrelevant(Table(), params, conditions, listed, order, env);
      }
      if got.Err? {
        return Err(Internal);
      }
      PageAgrees(repo.inner.rows, order, listed, repo.inner.asked, page, got.value.1);
      var (rows, total) := got.value;
      return Ok(PageResponse(Decoded(rows), total, params.page, params.size));
    }
  }
}
