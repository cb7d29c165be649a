/**
 The category table as the repository stores it, struct values row by row, and
 the decorator's functions for any layout read on that table.
 */
module CategoryStore {
  import opened Wrappers
  import opened Reflection
  import opened Listing
  import opened RowStore
  import opened Categories
  import Audit
  import Requests

  ghost predicate IsCategory(e: Struct)
    reads e
  {
    e.layout == LAYOUT && e.Valid()
  }

  function RowOf(e: Struct): Category
    requires IsCategory(e)
    reads e
  {
    Decode(e.values)
  }

  /** A repository of category structs over a table with the category CHECKs. */
  ghost predicate IsCategoryStore(s: SqlRepository<Id>)
    reads s
  {
    && s.Valid() && s.layout == LAYOUT && s.columns == COLUMNS
    && forall c: Category :: s.idOf(Encode(c)) == c.id && s.accepts(Encode(c)) == CheckHolds(c)
  }

  function TableOf(rows: map<Id, seq<Value>>): Table
    requires AllFit(LAYOUT, rows)
  {
    map id | id in rows :: Decode(rows[id])
  }

  function Decoded(rows: seq<seq<Value>>): (r: seq<Category>)
    requires forall v | v in rows :: Fits(LAYOUT, v)
    ensures |r| == |rows| && forall i | 0 <= i < |rows| :: r[i] == Decode(rows[i])
  {
    seq(|rows|, i requires 0 <= i < |rows| => Decode(rows[i]))
  }

  /** The store a category repository is wired to. */
  method NewCategoryRepository() returns (s: SqlRepository<Id>)
    ensures fresh(s) && IsCategoryStore(s) && TableOf(s.rows) == map[]
  {
    var idOf := values => if Fits(LAYOUT, values) then Decode(values).id else "";
    var accepts := values => Fits(LAYOUT, values) && CheckHolds(Decode(values));
    forall c ensures idOf(Encode(c)) == c.id && accepts(Encode(c)) == CheckHolds(c) {
      DecodeEncode(c);
    }
    s := new SqlRepository(LAYOUT, COLUMNS, idOf, accepts);
  }

  // ------------------------------------------------------------ single rows

  /** Every column of a category is selected, so reads give back the whole struct. */
  lemma ScannedCategory(values: seq<Value>)
    requires Fits(LAYOUT, values)
    ensures Scanned(LAYOUT, COLUMNS, values) == values
  {
    forall i | 0 <= i < |LAYOUT| ensures Scanned(LAYOUT, COLUMNS, values)[i] == values[i] {
      FieldColumn(i);
      ColumnIsFirst(i);
    }
  }

  lemma KnownColumn(c: Category, i: int)
    requires 0 <= i < |COLUMNS|
    ensures |Encode(c)| == |COLUMNS| && ColumnOf(c, COLUMNS[i]) == Stored(Encode(c)[i])
  {
    forall j | 0 <= j < i ensures COLUMNS[j] != COLUMNS[i] {
      ColumnsDiffer(j, i);
    }
  }

  lemma UnknownColumn(c: Category, field: string)
    requires field !in COLUMNS
    ensures ColumnOf(c, field) == Null
  {
    assert forall i | 0 <= i < |COLUMNS| :: COLUMNS[i] != field;
  }

  /** A category's column, looked up by tag, is the field of that name. */
  lemma ColumnAgrees(values: seq<Value>, field: string)
    requires Fits(LAYOUT, values)
    ensures ColumnIn(LAYOUT, values, field) == ColumnOf(Decode(values), field)
  {
    var c := Decode(values);
    EncodeDecode(values);
    if field in COLUMNS {
      var i :| 0 <= i < |COLUMNS| && COLUMNS[i] == field;
      ColumnIsFirst(i);
      KnownColumn(c, i);
    } else {
      forall i | 0 <= i < |LAYOUT| ensures ColumnName(LAYOUT[i].dbTag) != field {
        FieldColumn(i);
      }
      UnknownColumn(c, field);
    }
  }

  lemma MatchingAgrees(conditions: seq<Condition>, values: seq<Value>)
    requires Fits(LAYOUT, values)
    ensures MatchingIn(LAYOUT, conditions)(values) <==> MatchesAll(Decode(values), conditions)
  {
    forall k | k in conditions
      ensures Satisfies(ColumnIn(LAYOUT, values, k.field), k) <==> Matches(Decode(values), k)
    {
      ColumnAgrees(values, k.field);
    }
  }

  lemma SoftDeletedRow(values: seq<Value>)
    requires Fits(LAYOUT, values)
    ensures SoftDeleted(LAYOUT, values) <==> !Live(Decode(values))
  {
    EncodeDecode(values);
    SoftDeletedCategory(Decode(values));
  }

  /** The decorator's read of the stored rows is the specification's read of the table. */
  lemma ReadAgrees(rows: map<Id, seq<Value>>, id: Id, fault: Option<Fault>)
    requires AllFit(LAYOUT, rows)
    ensures match Audit.ReadLive(LAYOUT, COLUMNS, rows, id, fault)
            case Ok(values) => Requests.ReadLive(TableOf(rows), id, fault) == Ok(Decode(values))
            case Err(e) => Requests.ReadLive(TableOf(rows), id, fault) == Err(e)
  {
    if fault.None? && id in rows {
      var values := rows[id];
      ScannedCategory(values);
      SoftDeletedRow(values);
      assert TableOf(rows)[id] == Decode(values);
    }
  }

  lemma InsertAgrees(rows: map<Id, seq<Value>>, id: Id, c: Category, accepted: bool, fault: Option<Fault>, refusal: Fault)
    requires AllFit(LAYOUT, rows)
    ensures var (rows', err) := InsertRow(rows, id, Encode(c), accepted, fault, refusal);
            AllFit(LAYOUT, rows') && InsertRow(TableOf(rows), id, c, accepted, fault, refusal) == (TableOf(rows'), err)
  {
    DecodeEncode(c);
    assert TableOf(rows[id := Encode(c)]) == TableOf(rows)[id := c];
  }

  lemma ReplaceAgrees(rows: map<Id, seq<Value>>, id: Id, c: Category, accepted: bool, fault: Option<Fault>, refusal: Fault)
    requires AllFit(LAYOUT, rows)
    ensures var (rows', err) := ReplaceRow(rows, id, Encode(c), accepted, fault, refusal);
            AllFit(LAYOUT, rows') && ReplaceRow(TableOf(rows), id, c, accepted, fault, refusal) == (TableOf(rows'), err)
  {
    DecodeEncode(c);
    assert TableOf(rows[id := Encode(c)]) == TableOf(rows)[id := c];
  }

  // ------------------------------------------------------------------ lists

  /** Selecting the same rows from two tables, one holding the images of the other's rows. */
  lemma {:induction false} SelectMaps<K, R, S>(
      t: map<K, R>, u: map<K, S>, f: R -> S, order: seq<K>, keep: R -> bool, keep': S -> bool)
    requires t.Keys == u.Keys
    requires forall id | id in t :: u[id] == f(t[id]) && (keep(t[id]) <==> keep'(u[id]))
    ensures |Select(u, order, keep')| == |Select(t, order, keep)|
    ensures forall i | 0 <= i < |Select(t, order, keep)| :: Select(u, order, keep')[i] == f(Select(t, order, keep)[i])
  {
    if order == [] {
    } else {
      SelectMaps(t, u, f, order[1..], keep, keep');
    }
  }

  lemma SelectAgrees(rows: map<Id, seq<Value>>, order: seq<Id>, conditions: seq<Condition>)
    requires AllFit(LAYOUT, rows)
    ensures var found := Select(rows, order, MatchingIn(LAYOUT, conditions));
            && (forall v | v in found :: Fits(LAYOUT, v))
            && Decoded(found) == Select(TableOf(rows), order, MatchingAll(conditions))
  {
    var blank := Category("", "", None, "", 0, 0, None);
    var decode := v => if Fits(LAYOUT, v) then Decode(v) else blank;
    var keep, keep' := MatchingIn(LAYOUT, conditions), MatchingAll(conditions);
    forall id | id in rows ensures keep(rows[id]) <==> keep'(TableOf(rows)[id]) {
      MatchingAgrees(conditions, rows[id]);
    }
    SelectMaps(rows, TableOf(rows), decode, order, keep, keep');
    var found := Select(rows, order, keep);
    forall v | v in found ensures Fits(LAYOUT, v) {
      assert keep(v);
    }
  }

  lemma WindowAgrees(found: seq<seq<Value>>, offset: nat, limit: nat)
    requires forall v | v in found :: Fits(LAYOUT, v)
    ensures forall v | v in Window(found, offset, limit) :: Fits(LAYOUT, v)
    ensures Decoded(Window(found, offset, limit)) == Window(Decoded(found), offset, limit)
  {
  }

  lemma ScanAllCategories(rows: seq<seq<Value>>)
    requires forall v | v in rows :: Fits(LAYOUT, v)
    ensures ScanAll(LAYOUT, COLUMNS, rows) == rows
  {
    forall i | 0 <= i < |rows| ensures ScanAll(LAYOUT, COLUMNS, rows)[i] == rows[i] {
      ScannedCategory(rows[i]);
    }
  }

  lemma CountAgrees(rows: map<Id, seq<Value>>, conditions: seq<Condition>)
    requires AllFit(LAYOUT, rows)
    ensures CountRows(rows, MatchingIn(LAYOUT, conditions)) == CountRows(TableOf(rows), MatchingAll(conditions))
  {
    forall id | id in rows
      ensures MatchingIn(LAYOUT, conditions)(rows[id]) <==> MatchingAll(conditions)(TableOf(rows)[id])
    {
      MatchingAgrees(conditions, rows[id]);
    }
    assert IdsOf(rows, MatchingIn(LAYOUT, conditions)) == IdsOf(TableOf(rows), MatchingAll(conditions));
  }
}
