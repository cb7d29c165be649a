/** The list endpoint end to end: from query text to the rows and columns of the table. */
module ListEndpoint {
  import opened Wrappers
  import opened Categories
  import opened Listing
  import opened ListQuery
  import opened ListQueryLaws
  import Paging
  import Requests
  import Text

  /** End to end: an accepted query gets the page its own numbers name, unless that page's offset leaves 64 bits. */
  lemma AcceptedQueryGetsItsPage(
      q: Values, config: Config, t: Table, conditions: seq<Condition>, order: seq<Id>, env: Env, offset: nat)
    requires Parse(q, config).Ok? && WithDefaults(config).maxSize <= 100 && env.readFault.None?
    requires offset == (Parse(q, config).value.page - 1) * Parse(q, config).value.size && offset <= Text.MAX_INT
    ensures var p := Parse(q, config).value;
            var rows := Select(t, order, Requests.Kept(conditions));
            Requests.Serve(t, Requests.List(p, conditions, order, env)).1
            == Requests.Page(Window(rows, offset, p.size), |rows|, p.page, p.size)
  {
    AcceptedBounds(q, config);
    Paging.AnswerIsTheClaimedPage(t, Parse(q, config).value, conditions, order, env, offset);
  }

  /** End to end: only allowed columns, and deleted_at, ever reach the repository, and sorts arrive as parsed. */
  lemma OnlyAllowedColumnsReachTheTable(q: Values, config: Config, conditions: seq<Condition>)
    requires Parse(q, config).Ok? && IsFilterList(Parse(q, config).value.filters, conditions)
    ensures forall k | k in conditions + [NOT_DELETED] ::
              k == NOT_DELETED || (k.op == Eq && k.field in config.allowedFilterFields && k.field in q)
    ensures var p := Parse(q, config).value;
            && |SortsOf(p.sorts)| == |TextsOf(q, "sort")|
            && forall i | 0 <= i < |p.sorts| ::
              && SortsOf(p.sorts)[i].field == p.sorts[i].field
              && p.sorts[i].field in config.allowedSortFields
              && (SortsOf(p.sorts)[i].direction == Asc <==> p.sorts[i].direction == "ASC")
  {
    var p := Parse(q, config).value;
    ParseAcceptsIff(q, config, p);
    assert "ASC" != "DESC";
  }

  /** The configuration of the category list endpoint. */
  const CATEGORY_LIST := Config(
    0, 0, 0, ["id", "source", "tenant_id", "name", "created_at", "updated_at"], ["name", "source", "tenant_id"])

  lemma AcceptedFilters(q: Values, config: Config, p: ListParams, k: string)
    requires Parse(q, config) == Ok(p)
    ensures k in p.filters <==> k in q && k !in {"page", "size", "sort"} && k in config.allowedFilterFields
    ensures k in p.filters ==> p.filters[k] == First(q, k)
  {
    ParseAcceptsIff(q, config, p);
  }

  lemma CategoryFilters(q: Values, p: ListParams)
    requires Parse(q, CATEGORY_LIST) == Ok(p)
    ensures p.filters.Keys <= {"name", "source", "tenant_id"}
    ensures forall k | k in {"name", "source", "tenant_id"} ::
              (k in p.filters <==> k in q) && (k in q ==> p.filters[k] == First(q, k))
  {
    forall k
      ensures k in p.filters <==> k in q && k in {"name", "source", "tenant_id"}
      ensures k in p.filters ==> p.filters[k] == First(q, k)
    {
      AcceptedFilters(q, CATEGORY_LIST, p, k);
    }
  }

  /** End to end: the rows an accepted category query pages through are the live ones with the name, source and tenant it gives. */
  lemma CategoryQueryIsExact(
      q: Values, t: Table, conditions: seq<Condition>, order: seq<Id>, c: Category)
    requires WellFormed(t) && Enumerates(order, t)
    requires Parse(q, CATEGORY_LIST).Ok? && IsFilterList(Parse(q, CATEGORY_LIST).value.filters, conditions)
    ensures c in Select(t, order, Requests.Kept(conditions))
       <==> && c.id in t && t[c.id] == c && c.deletedAt.None?
            && ("name" in q ==> c.name == First(q, "name"))
            && ("source" in q ==> c.source == First(q, "source"))
            && ("tenant_id" in q ==> c.tenantId == Some(First(q, "tenant_id")))
  {
    var p := Parse(q, CATEGORY_LIST).value;
    CategoryFilters(q, p);
    Paging.FilteredListIsExact(t, p.filters, conditions, order, c);
  }
}
