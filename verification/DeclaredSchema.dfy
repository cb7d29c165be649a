/** What the migrations declare, and what deleting a row therefore does. */
module DeclaredSchema {
  import opened Wrappers
  import opened Schema
  import opened CascadeDelete

  /** The foreign key on a column of a table, if it has one. */
  function KeyOn(t: TableName, c: Column): Option<ForeignKey> {
    match t
    case Tenants => None
    case Permissions => None
    case Roles => None
    case RolePermissions =>
      if c == RoleId then Some(ForeignKey(Roles, Cascade, false))
      else if c == PermissionId then Some(ForeignKey(Permissions, Cascade, false))
      else None
    case Users =>
      if c == TenantId then Some(ForeignKey(Tenants, Cascade, false))
      else if c == RoleId then Some(ForeignKey(Roles, Restrict, false))
      else None
    case EventCategories =>
      if c == TenantId then Some(ForeignKey(Tenants, Cascade, true)) else None
    case WorkflowStepTemplates =>
      if c == CategoryId then Some(ForeignKey(EventCategories, Cascade, false)) else None
    case Events =>
      if c == TenantId then Some(ForeignKey(Tenants, Cascade, false))
      else if c == CategoryId then Some(ForeignKey(EventCategories, Restrict, false))
      else None
    case WorkflowSteps =>
      if c == EventId then Some(ForeignKey(Events, Cascade, false)) else None
    case MessageTemplates =>
      if c == TenantId then Some(ForeignKey(Tenants, Cascade, true))
      else if c == EventId then Some(ForeignKey(Events, Cascade, true))
      else None
    case EventStaffAssignments =>
      if c == EventId then Some(ForeignKey(Events, Cascade, false))
      else if c == UserId then Some(ForeignKey(Users, Cascade, false))
      else if c == RoleId then Some(ForeignKey(Roles, Restrict, false))
      else None
    case TicketTypes =>
      if c == EventId then Some(ForeignKey(Events, Cascade, false)) else None
    case TicketTypeWorkflowSteps =>
      if c == TicketTypeId then Some(ForeignKey(TicketTypes, Cascade, false))
      else if c == WorkflowStepId then Some(ForeignKey(WorkflowSteps, Cascade, false))
      else None
    case Guests =>
      if c == EventId then Some(ForeignKey(Events, Cascade, false))
      else if c == TicketId then Some(ForeignKey(Tickets, SetNull, true))
      else None
    case Tickets =>
      if c == GuestId then Some(ForeignKey(Guests, Cascade, false))
      else if c == EventId then Some(ForeignKey(Events, Cascade, false))
      else if c == TicketTypeId then Some(ForeignKey(TicketTypes, Restrict, false))
      else None
    case ScanLogs =>
      if c == EventId then Some(ForeignKey(Events, Cascade, false))
      else if c == TicketId then Some(ForeignKey(Tickets, Cascade, false))
      else if c == WorkflowStepId then Some(ForeignKey(WorkflowSteps, Cascade, false))
      else if c == OperatorUserId then Some(ForeignKey(Users, SetNull, true))
      else None
  }

  const DECLARED: Keys := (t, c) => KeyOn(t, c)

  /** chk_app_tenant_id and chk_message_template_source. */
  predicate ChecksHold(t: TableName, row: Row) {
    match t
    case EventCategories =>
      || (row.source == "app" && TenantId !in row.refs)
      || (row.source == "tenant" && TenantId in row.refs)
    case MessageTemplates =>
      || (row.source == "app" && TenantId !in row.refs && EventId !in row.refs)
      || (row.source == "tenant" && TenantId in row.refs && EventId !in row.refs)
      || (row.source == "event" && TenantId in row.refs && EventId in row.refs)
    case _ => true
  }

  /** What those CHECKs come to: who owns the row decides which references it has. */
  lemma ChecksMean(t: TableName, row: Row)
    ensures t == EventCategories ==>
              (ChecksHold(t, row) <==> row.source in {"app", "tenant"} && (TenantId in row.refs <==> row.source != "app"))
    ensures t == MessageTemplates ==>
              (ChecksHold(t, row) <==>
                && row.source in {"app", "tenant", "event"}
                && (TenantId in row.refs <==> row.source != "app")
                && (EventId in row.refs <==> row.source == "event"))
    ensures t !in {EventCategories, MessageTemplates} ==> ChecksHold(t, row)
  {
    assert "app" != "tenant" && "app" != "event" && |"tenant"| != |"event"|;
  }

  /** Every foreign key and every cross-column CHECK of the migrations holds. */
  ghost predicate Valid(db: Database) {
    KeysHold(DECLARED, db) && forall x | x in db :: ChecksHold(x.table, db[x])
  }

  /** SET NULL is declared on two columns only, both nullable and neither under a CHECK. */
  lemma SetNullColumns(t: TableName, c: Column)
    ensures HasAction(DECLARED, t, c, SetNull) <==> (t == Guests && c == TicketId) || (t == ScanLogs && c == OperatorUserId)
    ensures HasAction(DECLARED, t, c, SetNull) ==> KeyOn(t, c).value.nullable
  {
    if t == Guests {
    } else if t == ScanLogs {
    }
  }

  /** A layer per table that every CASCADE reference goes strictly down: cascades cannot run in a circle. */
  function Layer(t: TableName): nat {
    match t
    case Tenants | Permissions | Roles => 0
    case RolePermissions | Users | EventCategories | Events => 1
    case WorkflowStepTemplates | WorkflowSteps | MessageTemplates | EventStaffAssignments | TicketTypes | Guests => 2
    case TicketTypeWorkflowSteps | Tickets => 3
    case ScanLogs => 4
  }

  lemma CascadeGoesDown(t: TableName, c: Column)
    requires HasAction(DECLARED, t, c, Cascade)
    ensures Layer(KeyOn(t, c).value.target) < Layer(t)
  {
  }

  /** No cascade in a valid database runs through more than five rows, the root included. */
  lemma ChainsAreShort(db: Database, path: seq<RowId>, root: RowId)
    requires Valid(db) && IsChain(DECLARED, db, path, root)
    ensures |path| <= 1 + Layer(path[0].table) <= 5
  {
    forall t, c | HasAction(DECLARED, t, c, Cascade) ensures Layer(DECLARED(t, c).value.target) < Layer(t) {
      CascadeGoesDown(t, c);
    }
    ChainsFollowLayers(DECLARED, db, t => Layer(t), path, root);
  }

  /** Counting the SET NULL reference too, no layering exists: guests and tickets refer to each other. */
  lemma GuestsAndTicketsCycle(layer: TableName -> int)
    ensures exists t, c :: KeyOn(t, c).Some? && layer(KeyOn(t, c).value.target) >= layer(t)
  {
    assert KeyOn(Guests, TicketId) == Some(ForeignKey(Tickets, SetNull, true));
    assert KeyOn(Tickets, GuestId) == Some(ForeignKey(Guests, Cascade, false));
    assert layer(KeyOn(Guests, TicketId).value.target) >= layer(Guests)
        || layer(KeyOn(Tickets, GuestId).value.target) >= layer(Tickets);
  }

  /** Survivors change only by nulling guests.ticket_id and scan_logs.operator_user_id where they named a removed row. */
  lemma SurvivorsChangeOnly(db: Database, gone: set<RowId>, x: RowId, c: Column)
    requires x in db && x !in gone
    ensures x in Without(DECLARED, db, gone) && Without(DECLARED, db, gone)[x].source == db[x].source
    ensures c in Without(DECLARED, db, gone)[x].refs <==>
              && c in db[x].refs
              && !(db[x].refs[c] in gone && (x.table, c) in {(Guests, TicketId), (ScanLogs, OperatorUserId)})
    ensures c in Without(DECLARED, db, gone)[x].refs ==> Without(DECLARED, db, gone)[x].refs[c] == db[x].refs[c]
  {
    SurvivorRefs(DECLARED, db, gone, x, c);
    SetNullColumns(x.table, c);
  }

  /** A completed delete of any row of any valid database leaves a valid one iff no survivor restricts a removed row. */
  lemma DeleteKeepsValidIff(db: Database, root: RowId, states: seq<Deletion>, order: seq<RowId>)
    requires Valid(db) && root in db
    requires IsDelete(DECLARED, db, root, states, order) && states[|order|].pending == {}
    ensures Valid(states[|order|].db) <==> !Restricted(DECLARED, db, CascadeSet(DECLARED, db, root))
  {
    forall t, c | HasAction(DECLARED, t, c, SetNull) ensures DECLARED(t, c).value.nullable {
      SetNullColumns(t, c);
    }
    CompletedDelete(DECLARED, db, root, states, order);
    var gone := CascadeSet(DECLARED, db, root);
    forall x | x in db && x !in gone ensures ChecksHold(x.table, Without(DECLARED, db, gone)[x]) {
      SurvivorsChangeOnly(db, gone, x, TenantId);
      SurvivorsChangeOnly(db, gone, x, EventId);
    }
  }

  // ----------------------------------------------------------- particular tables

  lemma AppRowsNameNobody(t: TableName, row: Row, c: Column)
    requires t in {EventCategories, MessageTemplates} && row.source == "app" && ChecksHold(t, row)
    requires HasAction(DECLARED, t, c, Cascade)
    ensures c !in row.refs
  {
    assert row.source != "tenant" && row.source != "event";
  }

  /** App-wide categories and templates, which name no tenant, outlive every tenant. */
  lemma AppRowsOutliveTenants(db: Database, root: RowId, x: RowId)
    requires Valid(db) && root in db && root.table == Tenants
    requires x in db && x.table in {EventCategories, MessageTemplates} && db[x].source == "app"
    ensures x !in CascadeSet(DECLARED, db, root)
  {
    forall c | HasAction(DECLARED, x.table, c, Cascade) ensures c !in db[x].refs {
      AppRowsNameNobody(x.table, db[x], c);
    }
    UnattachedRowStays(DECLARED, db, x, root);
  }
}
