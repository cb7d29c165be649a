/**
 The shared parser of list-endpoint query parameters: page, size, repeatable
 sorts and equality filters, checked against allow-lists.
 */
module ListQuery {
  import opened Wrappers
  import opened Listing
  import opened Text

  /** `url.Values`. */
  type Values = map<string, seq<string>>

  datatype Config = Config(
    defaultPage: int, defaultSize: int, maxSize: int,
    allowedSortFields: seq<string>, allowedFilterFields: seq<string>)

  datatype ParseError =
    | InvalidPage(value: string)
    | InvalidSize(value: string)
    | InvalidSortFormat(value: string)
    | SortFieldNotAllowed(field: string)
    | InvalidSortDirection(value: string)

  const DEFAULT_PAGE := 1
  const DEFAULT_SIZE := 20
  const DEFAULT_MAX_SIZE := 100

  const PAGE := "page"
  const SIZE := "size"
  const SORT := "sort"

  predicate IsReserved(key: string): (r: bool)
    ensures r <==> key in {"page", "size", "sort"}
  {
    key == PAGE || key == SIZE || key == SORT
  }

  /** Fills in what a config leaves unset (or sets to nonsense). */
  function WithDefaults(c: Config): (r: Config)
    ensures r.defaultPage >= 1 && r.defaultSize >= 1 && r.maxSize >= 1
    ensures r.defaultPage in {c.defaultPage, 1} && r.defaultSize in {c.defaultSize, 20} && r.maxSize in {c.maxSize, 100}
    ensures c.defaultPage >= 1 ==> r.defaultPage == c.defaultPage
    ensures c.defaultSize >= 1 ==> r.defaultSize == c.defaultSize
    ensures c.maxSize >= 1 ==> r.maxSize == c.maxSize
    ensures r.allowedSortFields == c.allowedSortFields && r.allowedFilterFields == c.allowedFilterFields
  {
    c.(defaultPage := if c.defaultPage <= 0 then DEFAULT_PAGE else c.defaultPage,
       defaultSize := if c.defaultSize <= 0 then DEFAULT_SIZE else c.defaultSize,
       maxSize := if c.maxSize <= 0 then DEFAULT_MAX_SIZE else c.maxSize)
  }

  /** `q.Get(key)`: the first value, or "". */
  function Get(q: Values, key: string): string {
    if key in q && q[key] != [] then q[key][0] else ""
  }

  /** `q["sort"]`. */
  function SortValues(q: Values): seq<string> {
    if SORT in q then q[SORT] else []
  }

  /** `c` is a defaulted config in the functions below. */
  function ParsePage(q: Values, c: Config): Result<int, ParseError> {
    var v := Get(q, PAGE);
    if v == "" then Ok(c.defaultPage)
    else
      match Atoi(v)
      case None => Err(InvalidPage(v))
      case Some(n) => if n < 1 then Err(InvalidPage(v)) else Ok(n)
  }

  function AtMost(n: int, max: int): int {
    if n > max then max else n
  }

  function ParseSize(q: Values, c: Config): Result<int, ParseError> {
    var v := Get(q, SIZE);
    if v == "" then Ok(AtMost(c.defaultSize, c.maxSize))
    else
      match Atoi(v)
      case None => Err(InvalidSize(v))
      case Some(n) => if n < 1 then Err(InvalidSize(v)) else Ok(AtMost(n, c.maxSize))
  }

  /** The two parts of a sort value. */
  function ParseParts(head: string, tail: string, allowed: seq<string>): Result<SortSpec, ParseError> {
    var field := TrimSpace(head);
    var direction := ToUpper(TrimSpace(tail));
    if field !in allowed then Err(SortFieldNotAllowed(field))
    else if direction == SORT_ASC || direction == SORT_DESC then Ok(SortSpec(field, direction))
    else Err(InvalidSortDirection(tail))
  }

  /** One value of the form "field,DIRECTION", split at its first comma. */
  function ParseSort(sv: string, allowed: seq<string>): Result<SortSpec, ParseError> {
    var comma := IndexOf(sv, ',');
    if comma == |sv| then Err(InvalidSortFormat(sv))
    else ParseParts(sv[..comma], sv[comma + 1..], allowed)
  }

  /** All elements have a value, in order; or the error is that of the first element without one. */
  ghost predicate IsCollected<A, B, E>(f: A -> Result<B, E>, xs: seq<A>, r: Result<seq<B>, E>) {
    match r
    case Ok(ys) => |ys| == |xs| && forall i | 0 <= i < |xs| :: f(xs[i]) == Ok(ys[i])
    case Err(e) => exists i :: 0 <= i < |xs| && f(xs[i]) == Err(e) && forall j | 0 <= j < i :: f(xs[j]).Ok?
  }

  function Collect<A, B, E>(f: A -> Result<B, E>, xs: seq<A>): (r: Result<seq<B>, E>)
    ensures IsCollected(f, xs, r)
  {
    if xs == [] then Ok([])
    else
      match f(xs[0])
      case Err(e) => Err(e)
      case Ok(y) =>
        var rest := Collect(f, xs[1..]);
        assert IsCollected(f, xs[1..], rest);
        match rest
        case Err(e) =>
          assert exists i ::
            (&& 0 <= i < |xs[1..]| && f(xs[1..][i]) == Err(e) && xs[1..][i] == xs[i + 1]
             && (forall j | 0 <= j < i :: f(xs[1..][j]).Ok?)
             && (forall j | 0 < j < i + 1 :: xs[j] == xs[1..][j - 1]));
          Err(e)
        case Ok(ys) => Ok([y] + ys)
  }

  function SortParser(allowed: seq<string>): string -> Result<SortSpec, ParseError> {
    sv => ParseSort(sv, allowed)
  }

  function ParseSorts(values: seq<string>, allowed: seq<string>): Result<seq<SortSpec>, ParseError> {
    Collect(SortParser(allowed), values)
  }

  function ParseFilters(q: Values, c: Config): map<string, string> {
    map key | key in q && !IsReserved(key) && key in c.allowedFilterFields :: Get(q, key)
  }

  function Parse(q: Values, config: Config): Result<ListParams, ParseError> {
    var c := WithDefaults(config);
    match ParsePage(q, c)
    case Err(e) => Err(e)
    case Ok(page) =>
      match ParseSize(q, c)
      case Err(e) => Err(e)
      case Ok(size) =>
        match ParseSorts(SortValues(q), c.allowedSortFields)
        case Err(e) => Err(e)
        case Ok(sorts) => Ok(ListParams(page, size, sorts, ParseFilters(q, c)))
  }

  // -------------------------------------------------------- the parser's loops

  method ToSet(ss: seq<string>) returns (m: map<string, bool>)
    ensures forall s :: (s in m && m[s]) <==> s in ss
  {
    m := map[];
    for i := 0 to |ss|
      invariant forall s :: s in m <==> s in ss[..i]
      invariant forall s | s in m :: m[s]
    {
      m := m[ss[i] := true];
      assert ss[..i + 1] == ss[..i] + [ss[i]];
    }
    assert ss[..|ss|] == ss;
  }

  lemma CollectedIsUnique<A, B, E>(f: A -> Result<B, E>, xs: seq<A>, r: Result<seq<B>, E>)
    requires IsCollected(f, xs, r)
    ensures r == Collect(f, xs)
  {
    var r' := Collect(f, xs);
    match r
    case Ok(ys) =>
      assert forall i | 0 <= i < |xs| :: f(xs[i]).Ok?;
      assert r'.Ok? && |r'.value| == |ys|;
      forall i | 0 <= i < |xs| ensures ys[i] == r'.value[i] {
        assert f(xs[i]) == Ok(ys[i]) == Ok(r'.value[i]);
      }
      assert ys == r'.value;
    case Err(e) =>
      var i :| 0 <= i < |xs| && f(xs[i]) == Err(e) && forall j | 0 <= j < i :: f(xs[j]).Ok?;
      assert r'.Err?;
      var i' :| 0 <= i' < |xs| && f(xs[i']) == Err(r'.error) && forall j | 0 <= j < i' :: f(xs[j]).Ok?;
      assert i == i';
  }

  lemma FirstError<A, B, E>(f: A -> Result<B, E>, xs: seq<A>) returns (i: nat)
    requires Collect(f, xs).Err?
    ensures i < |xs| && f(xs[i]) == Err(Collect(f, xs).error)
    ensures forall j | 0 <= j < i :: f(xs[j]).Ok?
  {
    var e := Collect(f, xs).error;
    i :| 0 <= i < |xs| && f(xs[i]) == Err(e) && forall j | 0 <= j < i :: f(xs[j]).Ok?;
  }

  method ParseSortsLoop(q: Values, c: Config) returns (r: Result<seq<SortSpec>, ParseError>)
    ensures r == ParseSorts(SortValues(q), c.allowedSortFields)
  {
    var allowedSorts := ToSet(c.allowedSortFields);
    var values := SortValues(q);
    var sorts: seq<SortSpec> := [];
    ghost var parse := SortParser(c.allowedSortFields);
    for i := 0 to |values|
      invariant |sorts| == i
      invariant forall j | 0 <= j < i :: parse(values[j]) == Ok(sorts[j])
    {
      var sv := values[i];
      var comma := IndexOf(sv, ',');
      if comma == |sv| {
        CollectedIsUnique(parse, values, Err(InvalidSortFormat(sv)));
        return Err(InvalidSortFormat(sv));
      }
      var field := TrimSpace(sv[..comma]);
      var dirStr := ToUpper(TrimSpace(sv[comma + 1..]));
      if !(field in allowedSorts && allowedSorts[field]) {
        CollectedIsUnique(parse, values, Err(SortFieldNotAllowed(field)));
        return Err(SortFieldNotAllowed(field));
      }
      if dirStr != SORT_ASC && dirStr != SORT_DESC {
        CollectedIsUnique(parse, values, Err(InvalidSortDirection(sv[comma + 1..])));
        return Err(InvalidSortDirection(sv[comma + 1..]));
      }
      sorts := sorts + [SortSpec(field, dirStr)];
    }
    CollectedIsUnique(parse, values, Ok(sorts));
    return Ok(sorts);
  }

  /** Go ranges over the query's keys in any order; the result is the same map. */
  method ParseFiltersLoop(q: Values, c: Config) returns (filters: map<string, string>)
    ensures filters == ParseFilters(q, c)
  {
    var allowedFilters := ToSet(c.allowedFilterFields);
    filters := map[];
    var left := q.Keys;
    while left != {}
      invariant left <= q.Keys
      invariant filters == ParseFilters(q, c) - left
      decreases |left|
    {
      var key :| key in left;
      left := left - {key};
      if key == PAGE || key == SIZE || key == SORT {
        continue;
      }
      if key in allowedFilters && allowedFilters[key] {
        filters := filters[key := Get(q, key)];
      }
    }
  }

  method ParseListParams(q: Values, config: Config) returns (r: Result<ListParams, ParseError>)
    ensures r == Parse(q, config)
  {
    var c := WithDefaults(config);
    var page := ParsePage(q, c);
    if page.Err? {
      return Err(page.error);
    }
    var size := ParseSize(q, c);
    if size.Err? {
      return Err(size.error);
    }
    var sorts := ParseSortsLoop(q, c);
    if sorts.Err? {
      return Err(sorts.error);
    }
    var filters := ParseFiltersLoop(q, c);
    return Ok(ListParams(page.value, size.value, sorts.value, filters));
  }
}
