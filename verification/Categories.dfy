/**
 Event categories: the row, the inputs and errors of the service, the table's
 CHECK constraints, and the row's Go struct as reflection sees it.
 */
module Categories {
  import opened Wrappers
  import opened Reflection
  import opened Listing
  import opened RowStore
  import Text

  /** A UUID in its canonical text form. */
  type Id = string

  const SOURCE_APP := "app"
  const SOURCE_TENANT := "tenant"

  datatype Category = Category(
    id: Id, source: string, tenantId: Option<Id>, name: string,
    createdAt: Time, updatedAt: Time, deletedAt: Option<Time>)

  /** The physical table, tombstones included. */
  type Table = map<Id, Category>

  datatype CreateInput = CreateInput(source: string, tenantId: Option<Id>, name: string)

  datatype UpdateInput = UpdateInput(source: Option<string>, tenantId: Option<Id>, name: Option<string>)

  datatype ErrorCode = BadRequest | NotFound | Conflict | UnprocessableEntity | Internal

  /**
   What the surroundings decide about one request: the clock reading, a failure
   of its read or write, and how the database reports a statement it refuses.
   */
  datatype Env = Env(now: Time, readFault: Option<Fault>, writeFault: Option<Fault>, refusal: Fault)

  /** chk_app_tenant_id together with the CHECK on source. */
  predicate SourceMatchesTenant(source: string, tenantId: Option<Id>) {
    (source == SOURCE_APP && tenantId.None?) || (source == SOURCE_TENANT && tenantId.Some?)
  }

  predicate CheckHolds(c: Category) {
    SourceMatchesTenant(c.source, c.tenantId)
  }

  /** What the CHECKs come to: two sources, and a tenant exactly for the second. */
  lemma CheckMeans(c: Category)
    ensures CheckHolds(c) <==> c.source in {"app", "tenant"} && (c.source == "app" <==> c.tenantId.None?)
  {
    assert "app" != "tenant";
  }

  predicate Live(c: Category) {
    c.deletedAt.None?
  }

  /** A column's value, by name. */
  function ColumnOf(c: Category, field: string): ColumnValue {
    match field
    case "id" => TextValue(c.id)
    case "source" => TextValue(c.source)
    case "tenant_id" => if c.tenantId.Some? then TextValue(c.tenantId.value) else Null
    case "name" => TextValue(c.name)
    case "created_at" => TimeStamp(c.createdAt)
    case "updated_at" => TimeStamp(c.updatedAt)
    case "deleted_at" => if c.deletedAt.Some? then TimeStamp(c.deletedAt.value) else Null
    case _ => Null
  }

  predicate Matches(c: Category, k: Condition) {
    Satisfies(ColumnOf(c, k.field), k)
  }

  predicate MatchesAll(c: Category, conditions: seq<Condition>) {
    forall k | k in conditions :: Matches(c, k)
  }

  function MatchingAll(conditions: seq<Condition>): Category -> bool {
    c => MatchesAll(c, conditions)
  }

  /** Rows are stored under their own id and pass the table's CHECKs. */
  ghost predicate WellFormed(t: Table) {
    forall id | id in t :: t[id].id == id && CheckHolds(t[id])
  }

  const UUID_TYPE := OtherType("uuid.UUID")
  const STRING_TYPE := OtherType("string")

  /** The field positions of the EventCategory struct. */
  const ID := 0
  const SOURCE := 1
  const TENANT_ID := 2
  const NAME := 3
  const CREATED_AT := 4
  const UPDATED_AT := 5
  const DELETED_AT := 6

  const LAYOUT: Layout := [
    Field("id", UUID_TYPE, true), Field("source", STRING_TYPE, true),
    Field("tenant_id", PointerTo(UUID_TYPE), true), Field("name", STRING_TYPE, true),
    Field("created_at", TimeType, true), Field("updated_at", TimeType, true),
    Field("deleted_at", PointerTo(TimeType), true)]

  function EncodeText(o: Option<string>): Value {
    Pointer(if o.Some? then Some(Plain(o.value)) else None)
  }

  function EncodeTime(o: Option<Time>): Value {
    Pointer(if o.Some? then Some(TimeValue(o.value)) else None)
  }

  /** The struct's field values for a row. */
  function Encode(c: Category): (values: seq<Value>)
    ensures Fits(LAYOUT, values)
  {
    [Plain(c.id), Plain(c.source), EncodeText(c.tenantId), Plain(c.name),
     TimeValue(c.createdAt), TimeValue(c.updatedAt), EncodeTime(c.deletedAt)]
  }

  /** The row a struct's field values stand for. */
  function Decode(values: seq<Value>): Category
    requires Fits(LAYOUT, values)
  {
    assert forall i | 0 <= i < |LAYOUT| :: HasType(values[i], LAYOUT[i].goType);
    assert HasType(values[TENANT_ID], PointerTo(UUID_TYPE)) && HasType(values[DELETED_AT], PointerTo(TimeType));
    var tenant := values[TENANT_ID].target;
    var deleted := values[DELETED_AT].target;
    Category(
      values[ID].text, values[SOURCE].text,
      if tenant.Some? then Some(tenant.value.text) else None,
      values[NAME].text, values[CREATED_AT].time, values[UPDATED_AT].time,
      if deleted.Some? then Some(deleted.value.time) else None)
  }

  lemma DecodeEncode(c: Category)
    ensures Decode(Encode(c)) == c
  {
  }

  lemma EncodeDecode(values: seq<Value>)
    requires Fits(LAYOUT, values)
    ensures Encode(Decode(values)) == values
  {
    assert HasType(values[ID], UUID_TYPE);
  }

  /** A tag with no padding and no options. */
  predicate IsPlain(tag: string) {
    tag != "" && tag != "-" && forall i | 0 <= i < |tag| :: tag[i] != ',' && !Text.IsSpace(tag[i])
  }

  lemma PlainTag(tag: string)
    requires IsPlain(tag)
    ensures ColumnName(tag) == tag
  {
    assert tag[..|tag|] == tag;
  }

  /** The column each field of the struct is bound to. */
  const COLUMNS: seq<string> :=
    ["id", "source", "tenant_id", "name", "created_at", "updated_at", "deleted_at"]

  predicate IsLowerCase(tag: string) {
    tag != "" && forall i | 0 <= i < |tag| :: tag[i] == '_' || 'a' <= tag[i] <= 'z'
  }

  lemma FieldColumn(i: int)
    requires 0 <= i < |COLUMNS|
    ensures |COLUMNS| == |LAYOUT| && ColumnName(LAYOUT[i].dbTag) == COLUMNS[i]
  {
    var tag := LAYOUT[i].dbTag;
    assert tag == COLUMNS[i];
    assert IsLowerCase(tag);
    assert tag[0] != '-';
    PlainTag(tag);
  }

  lemma ColumnsDiffer(i: int, j: int)
    requires 0 <= i < j < |COLUMNS|
    ensures COLUMNS[i] != COLUMNS[j]
  {
    assert COLUMNS[i][0] != COLUMNS[j][0] || |COLUMNS[i]| != |COLUMNS[j]|;
  }

  /** Every field of the struct is the first, and only, one bound to its column. */
  lemma ColumnIsFirst(i: int)
    requires 0 <= i < |COLUMNS|
    ensures |COLUMNS| == |LAYOUT| && IsFirst(LAYOUT, COLUMNS[i], i) && FindColumn(LAYOUT, COLUMNS[i]) == i
  {
    forall j | 0 <= j <= i ensures ColumnName(LAYOUT[j].dbTag) == COLUMNS[j] && (j < i ==> COLUMNS[j] != COLUMNS[i]) {
      FieldColumn(j);
      if j < i {
        ColumnsDiffer(j, i);
      }
    }
    FirstIsUnique(LAYOUT, COLUMNS[i], i);
  }

  /** The first field bound to a column can be set and holds this value. */
  predicate FieldHolds(c: Category, column: string, v: Value) {
    var i := FindColumn(LAYOUT, column);
    i < |LAYOUT| && LAYOUT[i].settable && Encode(c)[i] == v
  }

  lemma FieldHoldsAt(c: Category, i: int)
    requires 0 <= i < |COLUMNS|
    ensures |Encode(c)| == |COLUMNS| && FieldHolds(c, COLUMNS[i], Encode(c)[i])
  {
    ColumnIsFirst(i);
  }

  /** Which field of the struct each tag finds. */
  lemma FieldByTag(c: Category, column: string, v: Value)
    requires || (column == "id" && v == Plain(c.id))
             || (column == "source" && v == Plain(c.source))
             || (column == "tenant_id" && v == EncodeText(c.tenantId))
             || (column == "name" && v == Plain(c.name))
             || (column == "created_at" && v == TimeValue(c.createdAt))
             || (column == "updated_at" && v == TimeValue(c.updatedAt))
             || (column == "deleted_at" && v == EncodeTime(c.deletedAt))
    ensures FieldHolds(c, column, v)
  {
    var i := if column == "id" then ID
             else if column == "source" then SOURCE
             else if column == "tenant_id" then TENANT_ID
             else if column == "name" then NAME
             else if column == "created_at" then CREATED_AT
             else if column == "updated_at" then UPDATED_AT
             else DELETED_AT;
    assert COLUMNS[i] == column && Encode(c)[i] == v;
    FieldHoldsAt(c, i);
  }

  /** On the category struct the reflective setters are plain field updates. */
  lemma StampUpdatedAt(c: Category, now: Time)
    ensures WithTime(LAYOUT, Encode(c), "updated_at", now) == Encode(c.(updatedAt := now))
  {
    ColumnIsFirst(UPDATED_AT);
  }

  lemma StampCreatedAt(c: Category, now: Time)
    ensures WithTime(LAYOUT, Encode(c), "created_at", now) == Encode(c.(createdAt := now))
  {
    ColumnIsFirst(CREATED_AT);
  }

  lemma StampDeletedAt(c: Category, now: Time)
    ensures WithPointer(LAYOUT, Encode(c), "deleted_at", now) == Encode(c.(deletedAt := Some(now)))
  {
    ColumnIsFirst(DELETED_AT);
  }

  lemma StampCreate(c: Category, now: Time)
    ensures CreateStamp(LAYOUT, Encode(c), now) == Encode(c.(createdAt := now, updatedAt := now))
  {
    StampCreatedAt(c, now);
    StampUpdatedAt(c.(createdAt := now), now);
  }

  lemma StampDelete(c: Category, now: Time)
    ensures DeleteStamp(LAYOUT, Encode(c), now) == Encode(c.(deletedAt := Some(now), updatedAt := now))
  {
    StampDeletedAt(c, now);
    StampUpdatedAt(c.(deletedAt := Some(now)), now);
  }

  lemma SoftDeletedCategory(c: Category)
    ensures SoftDeleted(LAYOUT, Encode(c)) <==> !Live(c)
  {
    ColumnIsFirst(DELETED_AT);
  }
}
