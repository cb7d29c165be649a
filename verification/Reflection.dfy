/**
 Struct values as Go's `reflect` package presents them, and the helpers of the
 audit decorator that find a field by its `db` tag and stamp it in place.
 */
module Reflection {
  import opened Wrappers
  import Text

  type Time = int

  datatype GoType = TimeType | PointerTo(elem: GoType) | OtherType(name: string)

  datatype Value = TimeValue(time: Time) | Pointer(target: Option<Value>) | Plain(text: string)

  /** A struct field; `settable` is `reflect.Value.CanSet` of an addressable struct. */
  datatype Field = Field(dbTag: string, goType: GoType, settable: bool)

  type Layout = seq<Field>

  predicate HasType(v: Value, t: GoType)
    decreases t
  {
    match t
    case TimeType => v.TimeValue?
    case PointerTo(elem) => v.Pointer? && (v.target.Some? ==> HasType(v.target.value, elem))
    case OtherType(_) => v.Plain?
  }

  predicate Fits(layout: Layout, values: seq<Value>) {
    && |values| == |layout|
    && forall i | 0 <= i < |layout| :: HasType(values[i], layout[i].goType)
  }

  const ZERO_TIME: Time := 0

  /** Go's zero value of a type. */
  function Zero(t: GoType): (v: Value)
    ensures HasType(v, t)
  {
    match t
    case TimeType => TimeValue(ZERO_TIME)
    case PointerTo(_) => Pointer(None)
    case OtherType(_) => Plain("")
  }

  /** A struct in memory: its type never changes, its fields do. */
  class Struct {
    const layout: Layout
    var values: seq<Value>

    predicate Valid()
      reads this
    {
      Fits(layout, values)
    }

    constructor (layout: Layout, values: seq<Value>)
      requires Fits(layout, values)
      ensures Valid()
      ensures this.layout == layout && this.values == values
    {
      this.layout := layout;
      this.values := values;
    }
  }

  /** The column a `db` tag names; options after a comma and padding are dropped. */
  function ColumnName(tag: string): string {
    if tag == "" || tag == "-" then ""
    else
      var name := Text.TrimSpace(tag);
      var comma := Text.IndexOf(name, ',');
      if comma < |name| then Text.TrimSpace(name[..comma]) else name
  }

  /** Field `i` is the one a lookup of `col` stops at. */
  predicate IsFirst(layout: Layout, col: string, i: int) {
    && 0 <= i < |layout|
    && ColumnName(layout[i].dbTag) == col
    && forall j | 0 <= j < i :: ColumnName(layout[j].dbTag) != col
  }

  function FindColumn(layout: Layout, col: string): (i: nat)
    ensures i <= |layout|
    ensures i < |layout| ==> IsFirst(layout, col, i)
    ensures i == |layout| ==> forall j | 0 <= j < |layout| :: ColumnName(layout[j].dbTag) != col
  {
    if layout == [] || ColumnName(layout[0].dbTag) == col then 0
    else
      var i := 1 + FindColumn(layout[1..], col);
      assert forall j | 1 <= j < |layout| :: layout[j] == layout[1..][j - 1];
      i
  }

  /** The field a setter of `col` for values of type `t` writes to, if any. */
  predicate Writes(layout: Layout, col: string, t: GoType, i: int) {
    IsFirst(layout, col, i) && layout[i].settable && layout[i].goType == t
  }

  function With(layout: Layout, values: seq<Value>, col: string, t: GoType, v: Value): (r: seq<Value>)
    requires Fits(layout, values) && HasType(v, t)
    ensures Fits(layout, r)
  {
    var i := FindColumn(layout, col);
    if i < |layout| && Writes(layout, col, t, i) then values[i := v] else values
  }

  function WithTime(layout: Layout, values: seq<Value>, col: string, time: Time): (r: seq<Value>)
    requires Fits(layout, values)
    ensures Fits(layout, r)
  {
    With(layout, values, col, TimeType, TimeValue(time))
  }

  function WithPointer(layout: Layout, values: seq<Value>, col: string, time: Time): (r: seq<Value>)
    requires Fits(layout, values)
    ensures Fits(layout, r)
  {
    With(layout, values, col, PointerTo(TimeType), Pointer(Some(TimeValue(time))))
  }

  predicate SoftDeleted(layout: Layout, values: seq<Value>)
    requires Fits(layout, values)
  {
    var i := FindColumn(layout, "deleted_at");
    i < |layout| && layout[i].goType.PointerTo? && values[i].target.Some?
  }

  method SetTimeField(entity: Struct?, dbTag: string, value: Time)
    requires entity != null ==> entity.Valid()
    modifies entity
    ensures entity != null ==> entity.Valid()
    ensures entity != null ==> entity.values == WithTime(entity.layout, old(entity.values), dbTag, value)
  {
    if entity == null {
      return;
    }
    for i := 0 to |entity.layout|
      invariant entity.values == old(entity.values)
      invariant forall j | 0 <= j < i :: ColumnName(entity.layout[j].dbTag) != dbTag
    {
      var sf := entity.layout[i];
      var col := ColumnName(sf.dbTag);
      if col != dbTag {
        continue;
      }
      FirstIsUnique(entity.layout, dbTag, i);
      if sf.settable && sf.goType == TimeType {
        entity.values := entity.values[i := TimeValue(value)];
      }
      return;
    }
  }

  method SetPtrTimeField(entity: Struct?, dbTag: string, value: Time)
    requires entity != null ==> entity.Valid()
    modifies entity
    ensures entity != null ==> entity.Valid()
    ensures entity != null ==> entity.values == WithPointer(entity.layout, old(entity.values), dbTag, value)
  {
    if entity == null {
      return;
    }
    for i := 0 to |entity.layout|
      invariant entity.values == old(entity.values)
      invariant forall j | 0 <= j < i :: ColumnName(entity.layout[j].dbTag) != dbTag
    {
      var sf := entity.layout[i];
      var col := ColumnName(sf.dbTag);
      if col != dbTag {
        continue;
      }
      FirstIsUnique(entity.layout, dbTag, i);
      if sf.settable && sf.goType.PointerTo? && sf.goType.elem == TimeType {
        entity.values := entity.values[i := Pointer(Some(TimeValue(value)))];
      }
      return;
    }
  }

  method IsSoftDeleted(entity: Struct?) returns (deleted: bool)
    requires entity != null ==> entity.Valid()
    ensures deleted <==> entity != null && SoftDeleted(entity.layout, entity.values)
  {
    if entity == null {
      return false;
    }
    for i := 0 to |entity.layout|
      invariant forall j | 0 <= j < i :: ColumnName(entity.layout[j].dbTag) != "deleted_at"
    {
      var sf := entity.layout[i];
      var col := ColumnName(sf.dbTag);
      if col != "deleted_at" {
        continue;
      }
      FirstIsUnique(entity.layout, "deleted_at", i);
      if sf.goType.PointerTo? {
        return entity.values[i].target.Some?;
      }
      return false;
    }
    return false;
  }

  lemma FirstIsUnique(layout: Layout, col: string, i: int)
    requires IsFirst(layout, col, i)
    ensures FindColumn(layout, col) == i
  {
    var k := FindColumn(layout, col);
    assert k <= i;
  }

  /** What `Create` does to an entity: created_at first, then updated_at. */
  function CreateStamp(layout: Layout, values: seq<Value>, now: Time): (r: seq<Value>)
    requires Fits(layout, values)
    ensures Fits(layout, r)
  {
    WithTime(layout, WithTime(layout, values, "created_at", now), "updated_at", now)
  }

  /** What `Delete` does to an entity: deleted_at first, then updated_at. */
  function DeleteStamp(layout: Layout, values: seq<Value>, now: Time): (r: seq<Value>)
    requires Fits(layout, values)
    ensures Fits(layout, r)
  {
    WithTime(layout, WithPointer(layout, values, "deleted_at", now), "updated_at", now)
  }

  /** Setters change nothing but the first field of that column, of that exact type, if settable. */
  lemma SetterTouchesOnlyItsField(layout: Layout, values: seq<Value>, col: string, t: GoType, v: Value, i: int)
    requires Fits(layout, values) && HasType(v, t) && 0 <= i < |layout|
    ensures With(layout, values, col, t, v)[i] ==
              if && ColumnName(layout[i].dbTag) == col
                 && (forall j | 0 <= j < i :: ColumnName(layout[j].dbTag) != col)
                 && layout[i].settable && layout[i].goType == t
              then v else values[i]
  {
    if Writes(layout, col, t, i) {
      FirstIsUnique(layout, col, i);
    }
  }

  /** An entity counts as deleted when the first field bound to deleted_at is a pointer that is not nil. */
  lemma SoftDeletedIff(layout: Layout, values: seq<Value>)
    requires Fits(layout, values)
    ensures SoftDeleted(layout, values) <==>
              exists i | 0 <= i < |layout| ::
                && ColumnName(layout[i].dbTag) == "deleted_at"
                && (forall j | 0 <= j < i :: ColumnName(layout[j].dbTag) != "deleted_at")
                && values[i].Pointer? && values[i].target.Some?
  {
    var i := FindColumn(layout, "deleted_at");
    assert i < |layout| ==> HasType(values[i], layout[i].goType);
    forall k | 0 <= k < |layout| && IsFirst(layout, "deleted_at", k) ensures k == i {
      FirstIsUnique(layout, "deleted_at", k);
    }
  }

  /** A field with no tag, or the tag "-", is never written to and never makes an entity count as deleted. */
  lemma UntaggedFieldIsSkipped(
      layout: Layout, values: seq<Value>, col: string, t: GoType, v: Value, i: int, other: Value)
    requires Fits(layout, values) && HasType(v, t) && 0 <= i < |layout| && HasType(other, layout[i].goType)
    requires layout[i].dbTag in {"", "-"} && col != ""
    ensures With(layout, values, col, t, v)[i] == values[i]
    ensures SoftDeleted(layout, values[i := other]) == SoftDeleted(layout, values)
  {
    assert ColumnName(layout[i].dbTag) == "";
  }

  /** Stamping the audit times never changes whether an entity counts as deleted. */
  lemma TimeStampKeepsSoftDeleted(layout: Layout, values: seq<Value>, col: string, now: Time)
    requires Fits(layout, values)
    ensures SoftDeleted(layout, WithTime(layout, values, col, now)) == SoftDeleted(layout, values)
  {
    var i := FindColumn(layout, "deleted_at");
    if i < |layout| {
      SetterTouchesOnlyItsField(layout, values, col, TimeType, TimeValue(now), i);
    }
  }

  /** What `Create` leaves in each field: one clock reading in both stamps, all else as it was. */
  lemma CreateStampFields(layout: Layout, values: seq<Value>, now: Time, i: int)
    requires Fits(layout, values) && 0 <= i < |layout|
    ensures CreateStamp(layout, values, now)[i] ==
              if Writes(layout, "created_at", TimeType, i) || Writes(layout, "updated_at", TimeType, i)
              then TimeValue(now) else values[i]
  {
    SetterTouchesOnlyItsField(layout, values, "created_at", TimeType, TimeValue(now), i);
    SetterTouchesOnlyItsField(
      layout, WithTime(layout, values, "created_at", now), "updated_at", TimeType, TimeValue(now), i);
  }

  /** What `Delete` leaves in each field: the two stamps in the fields meant for them, all else as it was. */
  lemma DeleteStampFields(layout: Layout, values: seq<Value>, now: Time, i: int)
    requires Fits(layout, values) && 0 <= i < |layout|
    ensures DeleteStamp(layout, values, now)[i] ==
              if Writes(layout, "deleted_at", PointerTo(TimeType), i) then Pointer(Some(TimeValue(now)))
              else if Writes(layout, "updated_at", TimeType, i) then TimeValue(now)
              else values[i]
  {
    var t := PointerTo(TimeType);
    var stamp := Pointer(Some(TimeValue(now)));
    SetterTouchesOnlyItsField(layout, values, "deleted_at", t, stamp, i);
    SetterTouchesOnlyItsField(
      layout, WithPointer(layout, values, "deleted_at", now), "updated_at", TimeType, TimeValue(now), i);
  }

  /** A live entity is hidden by `Delete` exactly when its first deleted_at field is a settable *time.Time. */
  lemma DeleteStampHidesIff(layout: Layout, values: seq<Value>, now: Time)
    requires Fits(layout, values) && !SoftDeleted(layout, values)
    ensures SoftDeleted(layout, DeleteStamp(layout, values, now))
         <==> exists i :: Writes(layout, "deleted_at", PointerTo(TimeType), i)
  {
    var stamped := WithPointer(layout, values, "deleted_at", now);
    TimeStampKeepsSoftDeleted(layout, stamped, "updated_at", now);
    forall i | Writes(layout, "deleted_at", PointerTo(TimeType), i)
      ensures FindColumn(layout, "deleted_at") == i
    {
      FirstIsUnique(layout, "deleted_at", i);
    }
  }

  /** Trimming `head + "," + options` only ever eats into the options. */
  lemma TrimBeforeOptions(before: string, head: string, options: string) returns (core: string)
    requires Text.AllSpace(before) && head != "" && !Text.IsSpace(head[0])
    ensures Text.TrimSpace(before + (head + ("," + options))) == head + "," + core
  {
    var rest := "," + options;
    var b, a := Text.TrimSplits(rest);
    var kept := Text.TrimSpace(rest);
    assert b == "";
    assert rest == kept + a && kept[0] == rest[0];
    core := kept[1..];
    assert head + "," + core == head + kept;
    assert before + (head + rest) == before + (head + kept) + a;
    Text.TrimPadded(before, head + kept, a);
  }

  /** A tag may pad its column name; the column is still the name. */
  lemma ColumnNameOfTag(before: string, name: string, after: string)
    requires Text.AllSpace(before) && Text.AllSpace(after) && Text.IsTrimmed(name)
    requires name != "" && ',' !in name && before + name + after != "-"
    ensures ColumnName(before + name + after) == name
  {
    Text.TrimPadded(before, name, after);
  }

  /** A tag may carry options after a comma; the column is still the padded name before it. */
  lemma ColumnNameWithOptions(before: string, name: string, after: string, options: string)
    requires Text.AllSpace(before) && Text.AllSpace(after) && Text.IsTrimmed(name)
    requires name != "" && ',' !in name
    ensures ColumnName(before + (name + after + ("," + options))) == name
  {
    var head := name + after;
    var core := TrimBeforeOptions(before, head, options);
    assert ',' !in head by {
      assert forall c | c in after :: Text.IsSpace(c);
    }
    Text.IndexOfJoined(head, ',', core);
    assert (head + "," + core)[..|head|] == "" + name + after;
    Text.TrimPadded("", name, after);
  }
}
