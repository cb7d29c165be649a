/**
 On which struct types the decorator really is a soft delete: a deleted entity
 stays away from single reads, and lists and counts agree with those, exactly
 if the type's deleted_at field is declared and selected as documented.
 */
module AuditLaws {
  import opened Wrappers
  import opened Reflection
  import opened Listing
  import opened RowStore
  import opened Audit

  const DELETED_AT := "deleted_at"

  /** The first field bound to deleted_at is a time pointer the setters can write, and reads select the column. */
  predicate CanBeStamped(layout: Layout, columns: seq<string>) {
    var i := FindColumn(layout, DELETED_AT);
    i < |layout| && Writes(layout, DELETED_AT, PointerTo(TimeType), i) && DELETED_AT in columns
  }

  lemma ScannedDeletedAt(layout: Layout, columns: seq<string>, row: seq<Value>)
    requires Fits(layout, row)
    ensures SoftDeleted(layout, Scanned(layout, columns, row)) <==> DELETED_AT in columns && SoftDeleted(layout, row)
  {
  }

  /** What a successful delete writes is afterwards reported missing exactly on such types; on any other, Delete succeeds in vain. */
  lemma DeleteHidesIff<K>(layout: Layout, columns: seq<string>, rows: map<K, seq<Value>>, id: K, now: Time)
    requires AllFit(layout, rows) && ReadLive(layout, columns, rows, id, None).Ok?
    ensures var stamped := DeleteStamp(layout, ReadLive(layout, columns, rows, id, None).value, now);
            ReadLive(layout, columns, rows[id := stamped], id, None) == Err(ErrNotFound) <==> CanBeStamped(layout, columns)
  {
    var values := ReadLive(layout, columns, rows, id, None).value;
    var stamped := DeleteStamp(layout, values, now);
    ScannedDeletedAt(layout, columns, stamped);
    DeleteStampHidesIff(layout, values, now);
    forall i | Writes(layout, DELETED_AT, PointerTo(TimeType), i) ensures FindColumn(layout, DELETED_AT) == i {
      FirstIsUnique(layout, DELETED_AT, i);
    }
  }

  /** deleted_at is a single pointer, and reads select it. */
  predicate IsNullable(layout: Layout, columns: seq<string>) {
    var i := FindColumn(layout, DELETED_AT);
    i < |layout| && layout[i].goType.PointerTo? && !layout[i].goType.elem.PointerTo? && DELETED_AT in columns
  }

  /** The filter of lists and counts and the test of single reads agree on a row. */
  predicate Agree(layout: Layout, columns: seq<string>, row: seq<Value>)
    requires Fits(layout, row)
  {
    Satisfies(ColumnIn(layout, row, DELETED_AT), NOT_DELETED) <==> !SoftDeleted(layout, Scanned(layout, columns, row))
  }

  lemma AgreeIff(layout: Layout, columns: seq<string>, row: seq<Value>, i: nat)
    requires Fits(layout, row) && i == FindColumn(layout, DELETED_AT) < |layout|
    ensures Agree(layout, columns, row)
       <==> (Stored(row[i]) == Null <==> !(DELETED_AT in columns && row[i].Pointer? && row[i].target.Some?))
  {
    assert HasType(row[i], layout[i].goType);
    assert SoftDeleted(layout, row) <==> row[i].Pointer? && row[i].target.Some?;
    assert ColumnIn(layout, row, DELETED_AT) == Stored(row[i]);
    ScannedDeletedAt(layout, columns, row);
  }

  lemma NullableAgrees(layout: Layout, columns: seq<string>, row: seq<Value>)
    requires IsNullable(layout, columns) && Fits(layout, row)
    ensures Agree(layout, columns, row)
  {
    var i := FindColumn(layout, DELETED_AT);
    assert HasType(row[i], layout[i].goType);
    var elem := layout[i].goType.elem;
    if row[i].target.Some? {
      assert HasType(row[i].target.value, elem) && Stored(row[i]) == Stored(row[i].target.value);
      assert elem.TimeType? || elem.OtherType?;
    }
    AgreeIff(layout, columns, row, i);
  }

  /** A pointer to a nil pointer, where the type allows it. */
  function NilBehind(t: GoType): (v: Value)
    ensures HasType(v, t)
  {
    if t.PointerTo? then Pointer(Some(Zero(t.elem))) else Zero(t)
  }

  /** A value without any nil pointer. */
  function NonNil(t: GoType): (v: Value)
    ensures HasType(v, t) && Stored(v) != Null
  {
    if t.PointerTo? then Pointer(Some(NonNil(t.elem))) else Zero(t)
  }

  /** A row on which the two disagree, for a type that does not declare or select deleted_at so. */
  lemma Disagreement(layout: Layout, columns: seq<string>) returns (row: seq<Value>)
    requires FindColumn(layout, DELETED_AT) < |layout| && !IsNullable(layout, columns)
    ensures Fits(layout, row) && !Agree(layout, columns, row)
  {
    var i := FindColumn(layout, DELETED_AT);
    if DELETED_AT in columns {
      row := seq(|layout|, j requires 0 <= j < |layout| => NilBehind(layout[j].goType));
    } else {
      row := seq(|layout|, j requires 0 <= j < |layout| => NonNil(layout[j].goType));
    }
    AgreeIff(layout, columns, row, i);
  }

  /** Lists and counts agree with single reads on every possible row exactly if deleted_at is a single pointer and selected. */
  lemma ListsAgreeIff(layout: Layout, columns: seq<string>)
    requires FindColumn(layout, DELETED_AT) < |layout|
    ensures (forall row | Fits(layout, row) :: Agree(layout, columns, row)) <==> IsNullable(layout, columns)
  {
    if IsNullable(layout, columns) {
      forall row | Fits(layout, row) ensures Agree(layout, columns, row) {
        NullableAgrees(layout, columns, row);
      }
    } else {
      var row := Disagreement(layout, columns);
    }
  }

  lemma KeptInIff(layout: Layout, conditions: seq<Condition>, row: seq<Value>)
    requires Fits(layout, row)
    ensures KeptIn(layout, conditions)(row)
       <==> MatchingIn(layout, conditions)(row) && Satisfies(ColumnIn(layout, row, DELETED_AT), NOT_DELETED)
  {
    var all := conditions + [NOT_DELETED];
    assert all[|conditions|] == NOT_DELETED;
    assert forall k | k in conditions :: k in all;
  }

  /** Single reads find a row exactly if an unconditioned list keeps it. */
  lemma ReadableIff<K>(
      layout: Layout, columns: seq<string>, rows: map<K, seq<Value>>, conditions: seq<Condition>, id: K)
    requires IsNullable(layout, columns) && AllFit(layout, rows) && id in rows
    ensures KeptIn(layout, conditions)(rows[id])
       <==> MatchingIn(layout, conditions)(rows[id]) && ReadLive(layout, columns, rows, id, None).Ok?
  {
    KeptInIff(layout, conditions, rows[id]);
    NullableAgrees(layout, columns, rows[id]);
  }

  /** The ids single reads find and whose rows meet the conditions. */
  ghost function Readable<K>(
      layout: Layout, columns: seq<string>, rows: map<K, seq<Value>>, conditions: seq<Condition>): set<K>
    requires AllFit(layout, rows)
  {
    set id | id in rows && MatchingIn(layout, conditions)(rows[id]) && ReadLive(layout, columns, rows, id, None).Ok?
  }

  /** On such types a count counts what single reads find. */
  lemma CountIsReadable<K>(layout: Layout, columns: seq<string>, rows: map<K, seq<Value>>, conditions: seq<Condition>)
    requires IsNullable(layout, columns) && AllFit(layout, rows)
    ensures CountRows(rows, KeptIn(layout, conditions)) == |Readable(layout, columns, rows, conditions)|
  {
    var kept, readable := IdsOf(rows, KeptIn(layout, conditions)), Readable(layout, columns, rows, conditions);
    forall id | id in rows ensures id in kept <==> id in readable {
      ReadableIff(layout, columns, rows, conditions, id);
    }
    assert kept == readable;
  }
}
