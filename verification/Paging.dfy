/**
 What a list request returns: exactly the live rows passing the filters, cut
 into pages that tile, as long as the 64-bit offset of the page is exact.
 */
module Paging {
  import opened Wrappers
  import opened Categories
  import opened Listing
  import opened Requests
  import opened SimpleStore
  import Text

  function KeptIds(t: Table, order: seq<Id>, keep: Category -> bool): set<Id> {
    set id | id in order && id in t && keep(t[id])
  }

  lemma KeptIdsOfRest(t: Table, order: seq<Id>, keep: Category -> bool)
    requires order != []
    ensures KeptIds(t, order, keep) ==
              KeptIds(t, order[1..], keep) + if order[0] in t && keep(t[order[0]]) then {order[0]} else {}
  {
    assert order == [order[0]] + order[1..];
  }

  /** A scan without repetition selects every kept row once. */
  lemma {:induction false} SelectCounts(t: Table, order: seq<Id>, keep: Category -> bool)
    requires forall i, j | 0 <= i < j < |order| :: order[i] != order[j]
    ensures |Select(t, order, keep)| == |KeptIds(t, order, keep)|
  {
    if order == [] {
      assert KeptIds(t, order, keep) == {};
    } else {
      SelectCounts(t, order[1..], keep);
      KeptIdsOfRest(t, order, keep);
      assert order[0] !in order[1..];
    }
  }

  lemma {:induction false} SelectFinds(t: Table, order: seq<Id>, keep: Category -> bool, id: Id)
    requires id in order && id in t && keep(t[id])
    ensures t[id] in Select(t, order, keep)
  {
    if order[0] == id {
    } else {
      assert order == [order[0]] + order[1..];
      SelectFinds(t, order[1..], keep, id);
    }
  }

  /** The rows a list pages through: the live rows passing every filter, and no others. */
  lemma ListIsExact(t: Table, filters: map<string, string>, conditions: seq<Condition>, order: seq<Id>, c: Category)
    requires WellFormed(t) && Enumerates(order, t) && IsFilterList(filters, conditions)
    ensures c in Select(t, order, Kept(conditions))
       <==> c.id in t && t[c.id] == c && Live(c) && Passes(filters)(c)
  {
    KeptIff(conditions, c);
    ConditionsIffPasses(filters, conditions, c);
    if c.id in t && t[c.id] == c && Kept(conditions)(c) {
      SelectFinds(t, order, Kept(conditions), c.id);
    }
  }

  /** The row has the given name, source, tenant and id, where those are asked for. */
  predicate HasGiven(filters: map<string, string>, c: Category) {
    && ("name" in filters ==> c.name == filters["name"])
    && ("source" in filters ==> c.source == filters["source"])
    && ("tenant_id" in filters ==> c.tenantId == Some(filters["tenant_id"]))
    && ("id" in filters ==> c.id == filters["id"])
  }

  lemma PassesIff(filters: map<string, string>, c: Category)
    requires filters.Keys <= {"name", "source", "tenant_id", "id"}
    ensures Passes(filters)(c) <==> HasGiven(filters, c)
  {
    if Passes(filters)(c) {
      assert forall f | f in filters :: ColumnOf(c, f) == TextValue(filters[f]);
    }
  }

  /** Filters on text columns keep the live rows whose fields of those names have the given values. */
  lemma FilteredListIsExact(
      t: Table, filters: map<string, string>, conditions: seq<Condition>, order: seq<Id>, c: Category)
    requires WellFormed(t) && Enumerates(order, t) && IsFilterList(filters, conditions)
    requires filters.Keys <= {"name", "source", "tenant_id", "id"}
    ensures c in Select(t, order, Kept(conditions))
       <==> c.id in t && t[c.id] == c && c.deletedAt.None? && HasGiven(filters, c)
  {
    ListIsExact(t, filters, conditions, order, c);
    PassesIff(filters, c);
  }

  /** The rows come in the order of the scan. */
  lemma {:induction false} SelectKeepsOrder(t: Table, before: seq<Id>, after: seq<Id>, keep: Category -> bool)
    ensures Select(t, before + after, keep) == Select(t, before, keep) + Select(t, after, keep)
  {
    if before == [] {
      assert before + after == after;
    } else {
      assert (before + after)[1..] == before[1..] + after;
      SelectKeepsOrder(t, before[1..], after, keep);
    }
  }

  /** A list's total is what a count of the same conditions answers. */
  lemma TotalIsCount(t: Table, params: ListParams, conditions: seq<Condition>, order: seq<Id>, env: Env)
    requires Enumerates(order, t) && Serve(t, List(params, conditions, order, env)).1.Page?
    ensures Serve(t, Count(conditions, env)).1 == Number(Serve(t, List(params, conditions, order, env)).1.total)
  {
    var keep := Kept(conditions);
    SelectCounts(t, order, keep);
    assert KeptIds(t, order, keep) == IdsOf(t, keep);
  }

  /** Go may iterate over the filter map in any order: the answer does not depend on it. */
  lemma FilterOrderIsIrrelevant(
      t: Table, params: ListParams, c1: seq<Condition>, c2: seq<Condition>, order: seq<Id>, env: Env)
    requires IsFilterList(params.filters, c1) && IsFilterList(params.filters, c2)
    ensures Serve(t, List(params, c1, order, env)).1 == Serve(t, List(params, c2, order, env)).1
  {
    ListAgrees(t, List(params, c1, order, env));
    ListAgrees(t, List(params, c2, order, env));
  }

  // --------------------------------------------------------------------- pages

  /** Pages 1 to `last`, one after the other. */
  function Pages<T>(rows: seq<T>, last: nat, size: nat): seq<T> {
    if last == 0 then []
    else Pages(rows, last - 1, size) + Window(rows, (last - 1) * size, size)
  }

  function Prefix<T>(rows: seq<T>, n: nat): seq<T> {
    if n <= |rows| then rows[..n] else rows
  }

  lemma PrefixGrows<T>(rows: seq<T>, lo: nat, size: nat)
    ensures Prefix(rows, lo) + Window(rows, lo, size) == Prefix(rows, lo + size)
  {
  }

  lemma {:induction false} PagesArePrefix<T>(rows: seq<T>, last: nat, size: nat)
    ensures Pages(rows, last, size) == Prefix(rows, last * size)
  {
    if last == 0 {
    } else {
      PagesArePrefix(rows, last - 1, size);
      assert (last - 1) * size + size == last * size;
      PrefixGrows(rows, (last - 1) * size, size);
    }
  }

  /** How many pages `n` rows take: the quotient rounded up. */
  function PageCount(n: nat, size: nat): (pages: nat)
    requires size >= 1
    ensures n <= pages * size
    ensures pages > 0 ==> (pages - 1) * size < n
  {
    var dividend := n + size - 1;
    assert dividend == dividend / size * size + dividend % size;
    dividend / size
  }

  /** Pages 1 to the page count are the whole result, no row lost or repeated. */
  lemma PagesTile<T>(rows: seq<T>, size: nat)
    requires size >= 1
    ensures Pages(rows, PageCount(|rows|, size), size) == rows
  {
    PagesArePrefix(rows, PageCount(|rows|, size), size);
  }

  lemma TimesMonotone(a: nat, b: int, c: int)
    requires b <= c
    ensures a * b <= a * c
  {
    assert a * (c - b) >= 0;
  }

  /** A page is empty exactly when it lies past the page count. */
  lemma PageEmptyIff<T>(rows: seq<T>, size: nat, page: nat)
    requires size >= 1 && page >= 1
    ensures 0 <= (page - 1) * size
    ensures Window(rows, (page - 1) * size, size) == [] <==> page > PageCount(|rows|, size)
  {
    var last := PageCount(|rows|, size);
    TimesMonotone(size, 0, page - 1);
    if page > last {
      TimesMonotone(size, last, page - 1);
    } else {
      TimesMonotone(size, page - 1, last - 1);
    }
  }

  // -------------------------------------------------------------------- offset

  /** The 64-bit offset is the intended one exactly when that one fits. */
  lemma OffsetExactIff(page: int, size: int)
    requires 1 <= page && 1 <= size
    ensures Offset(page, size) == (page - 1) * size <==> (page - 1) * size <= Text.MAX_INT
  {
    assert (page - 1) * size >= 0;
  }

  /** Every size the service uses is safe up to this page, and 100 a page is not beyond it. */
  lemma SafePages(page: int, size: int)
    requires 1 <= page <= 92233720368547759 && 1 <= size <= 100
    ensures Offset(page, size) == (page - 1) * size && Offset(page, size) >= 0
    ensures Offset(92233720368547760, 100) < 0
  {
    TimesMonotone(page - 1, size, 100);
    TimesMonotone(page - 1, 0, size);
  }

  /** Further out the wrapped offset can even come back to zero: a remote page then shows the first one. */
  lemma WrappedPageShowsFirstPage(t: Table, p: ListParams, conditions: seq<Condition>, order: seq<Id>, env: Env)
    requires p.page == 0x400_0000_0000_0001 && p.size == 64 && env.readFault.None?
    ensures p.page <= Text.MAX_INT
    ensures Serve(t, List(p, conditions, order, env)).1.Page?
    ensures Serve(t, List(p, conditions, order, env)).1.items
         == Serve(t, List(p.(page := 1), conditions, order, env)).1.items
  {
    assert Offset(p.page, 64) == 0 == Offset(1, 64);
  }

  /** The answer is the page its numbers name whenever they survive the clamping and their offset fits. */
  lemma AnswerIsTheClaimedPage(
      t: Table, p: ListParams, conditions: seq<Condition>, order: seq<Id>, env: Env, offset: nat)
    requires env.readFault.None? && 1 <= p.page && 1 <= p.size <= 100
    requires offset == (p.page - 1) * p.size && offset <= Text.MAX_INT
    ensures var rows := Select(t, order, Kept(conditions));
            Serve(t, List(p, conditions, order, env)).1 == Page(Window(rows, offset, p.size), |rows|, p.page, p.size)
  {
    OffsetExactIff(p.page, p.size);
  }

  /** Past 64 bits the answer is still the claimed page only when the wrapped offset, too, lies beyond the rows. */
  lemma ClaimedPageIff(
      t: Table, p: ListParams, conditions: seq<Condition>, order: seq<Id>, env: Env, offset: nat)
    requires env.readFault.None? && 1 <= p.page && 1 <= p.size <= 100 && offset == (p.page - 1) * p.size
    requires |Select(t, order, Kept(conditions))| <= Text.MAX_INT
    ensures var rows := Select(t, order, Kept(conditions));
            (Serve(t, List(p, conditions, order, env)).1 == Page(Window(rows, offset, p.size), |rows|, p.page, p.size)
             <==> offset <= Text.MAX_INT || Text.Wrap64(offset) >= |rows|)
  {
    var rows := Select(t, order, Kept(conditions));
    if offset <= Text.MAX_INT {
      AnswerIsTheClaimedPage(t, p, conditions, order, env, offset);
    } else {
      assert Window(rows, offset, p.size) == [];
    }
  }

  // ------------------------------------------------------------- all the pages

  function ItemsOf(answer: Response): seq<Category> {
    if answer.Page? then answer.items else []
  }

  /** What lists of pages 1 to `last` answer, one after the other. */
  function Answered(
      t: Table, p: ListParams, conditions: seq<Condition>, order: seq<Id>, env: Env, last: nat): seq<Category>
  {
    if last == 0 then []
    else
      Answered(t, p, conditions, order, env, last - 1)
      + ItemsOf(Serve(t, List(p.(page := last), conditions, order, env)).1)
  }

  lemma OffsetOfPage(n: nat, size: nat, page: nat)
    requires size >= 1 && 1 <= page <= PageCount(n, size)
    ensures 0 <= (page - 1) * size < n
  {
    TimesMonotone(size, page - 1, PageCount(n, size) - 1);
    TimesMonotone(size, 0, page - 1);
  }

  lemma {:induction false} AnsweredArePages(
      t: Table, p: ListParams, conditions: seq<Condition>, order: seq<Id>, env: Env, rows: seq<Category>, last: nat)
    requires env.readFault.None? && 1 <= p.size <= 100
    requires rows == Select(t, order, Kept(conditions)) && |rows| <= Text.MAX_INT
    requires last <= PageCount(|rows|, p.size)
    ensures Answered(t, p, conditions, order, env, last) == Pages(rows, last, p.size)
  {
    if last == 0 {
    } else {
      AnsweredArePages(t, p, conditions, order, env, rows, last - 1);
      OffsetOfPage(|rows|, p.size, last);
      AnswerIsTheClaimedPage(t, p.(page := last), conditions, order, env, (last - 1) * p.size);
    }
  }

  /** Asking for every page up to the page count answers the whole selection in order, no row lost or repeated. */
  lemma AnswersTile(t: Table, p: ListParams, conditions: seq<Condition>, order: seq<Id>, env: Env)
    requires env.readFault.None? && 1 <= p.size <= 100 && |Select(t, order, Kept(conditions))| <= Text.MAX_INT
    ensures var rows := Select(t, order, Kept(conditions));
            Answered(t, p, conditions, order, env, PageCount(|rows|, p.size)) == rows
  {
    var rows := Select(t, order, Kept(conditions));
    AnsweredArePages(t, p, conditions, order, env, rows, PageCount(|rows|, p.size));
    PagesTile(rows, p.size);
  }
}
