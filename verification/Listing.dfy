/**
 Lists as the repositories see them: filters, sorts, pages, and which rows of a
 table, of whatever kind, a list or a count is about.
 */
module Listing {
  import GoSlice
  import Reflection
  import Text

  datatype Operator = Eq | IsNull

  datatype Condition = Condition(field: string, op: Operator, value: string)

  datatype Direction = Asc | Desc

  datatype Sort = Sort(field: string, direction: Direction)

  datatype Filter = Filter(conditions: GoSlice.Slice<Condition>)

  datatype Pagination = Pagination(limit: int, offset: int)

  datatype ListOptions =
    ListOptions(filter: Filter, pagination: Pagination, sorts: seq<Sort>, skipCount: bool)

  /** What a repository's list is asked for: the options with the conditions a reader of them sees. */
  datatype Query = Query(conditions: seq<Condition>, pagination: Pagination, sorts: seq<Sort>, skipCount: bool)

  ghost function Asked(opts: ListOptions): Query
    requires GoSlice.Valid(opts.filter.conditions)
    reads opts.filter.conditions.data
  {
    Query(GoSlice.View(opts.filter.conditions), opts.pagination, opts.sorts, opts.skipCount)
  }

  /** A parsed sort: the direction is still the text "ASC" or "DESC". */
  datatype SortSpec = SortSpec(field: string, direction: string)

  const SORT_ASC := "ASC"
  const SORT_DESC := "DESC"

  datatype ListParams = ListParams(page: int, size: int, sorts: seq<SortSpec>, filters: map<string, string>)

  /** A column's value; only text can equal a filter's text, times never do. */
  datatype ColumnValue = Null | TextValue(text: string) | TimeStamp(time: Reflection.Time)

  /** The column a field value is stored as: a nil pointer is NULL. */
  function Stored(v: Reflection.Value): ColumnValue {
    match v
    case Plain(text) => TextValue(text)
    case TimeValue(time) => TimeStamp(time)
    case Pointer(None) => Null
    case Pointer(Some(target)) => Stored(target)
  }

  /** A column of a row stored for a struct of the given layout. */
  function ColumnIn(layout: Reflection.Layout, values: seq<Reflection.Value>, field: string): ColumnValue
    requires Reflection.Fits(layout, values)
  {
    var i := Reflection.FindColumn(layout, field);
    if i < |layout| then Stored(values[i]) else Null
  }

  predicate Satisfies(v: ColumnValue, k: Condition) {
    match k.op
    case Eq => v == TextValue(k.value)
    case IsNull => v == Null
  }

  /** The rows of a layout that meet all conditions. */
  function MatchingIn(layout: Reflection.Layout, conditions: seq<Condition>): seq<Reflection.Value> -> bool {
    values =>
      Reflection.Fits(layout, values)
      && forall k | k in conditions :: Satisfies(ColumnIn(layout, values, k.field), k)
  }

  const NOT_DELETED := Condition("deleted_at", IsNull, "")

  /** The rows to keep, in the order the database happens to scan ids. */
  function Select<K, R>(t: map<K, R>, order: seq<K>, keep: R -> bool): (rows: seq<R>)
    ensures forall r | r in rows :: keep(r) && exists id :: id in order && id in t && t[id] == r
  {
    if order == [] then []
    else
      (if order[0] in t && keep(t[order[0]]) then [t[order[0]]] else []) + Select(t, order[1..], keep)
  }

  /** A scan order visits every id of the table, and none twice. */
  ghost predicate Enumerates<K, R>(order: seq<K>, t: map<K, R>) {
    && (forall id | id in t :: id in order)
    && (forall i, j | 0 <= i < j < |order| :: order[i] != order[j])
  }

  /** Rows `offset`, `offset + 1`, ... of a result, at most `limit` of them. */
  function Window<T>(rows: seq<T>, offset: nat, limit: nat): (w: seq<T>)
    ensures |w| <= limit
    ensures forall i | 0 <= i < |w| :: offset + i < |rows| && w[i] == rows[offset + i]
    ensures |w| < limit && offset <= |rows| ==> offset + |w| == |rows|
  {
    if offset >= |rows| then []
    else if offset + limit >= |rows| then rows[offset..]
    else rows[offset..offset + limit]
  }

  function IdsOf<K, R>(t: map<K, R>, keep: R -> bool): set<K> {
    set id | id in t && keep(t[id])
  }

  function CountRows<K, R>(t: map<K, R>, keep: R -> bool): nat {
    |IdsOf(t, keep)|
  }

  function ClampPage(page: int): (r: int)
    ensures page < 1 ==> r == 1
    ensures page >= 1 ==> r == page
  {
    if page < 1 then 1 else page
  }

  function ClampSize(size: int): (r: int)
    ensures size < 1 ==> r == 20
    ensures 1 <= size <= 100 ==> r == size
    ensures size > 100 ==> r == 100
  {
    var size := if size < 1 then 20 else size;
    if size > 100 then 100 else size
  }

  /** `(page - 1) * size` in 64-bit arithmetic. */
  function Offset(page: int, size: int): int {
    Text.Wrap64((page - 1) * size)
  }

  /** A list of equality conditions, one per entry of the filter map, in some order. */
  ghost predicate IsFilterList(filters: map<string, string>, conditions: seq<Condition>) {
    && (forall k | k in conditions :: k.op == Eq && k.field in filters && filters[k.field] == k.value)
    && (forall f | f in filters :: Condition(f, Eq, filters[f]) in conditions)
    && |conditions| == |filters|
  }

  function SortsOf(specs: seq<SortSpec>): (sorts: seq<Sort>)
    ensures |sorts| == |specs|
    ensures forall i | 0 <= i < |specs| ::
              && sorts[i].field == specs[i].field
              && (sorts[i].direction == Desc <==> specs[i].direction == "DESC")
  {
    seq(|specs|, i requires 0 <= i < |specs| =>
      Sort(specs[i].field, if specs[i].direction == SORT_DESC then Desc else Asc))
  }
}
