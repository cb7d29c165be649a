/**
 Table by table, what the declared keys make of a delete: the rows that go with
 a row, and the rows that hold it back.
 */
module DeclaredDeletes {
  import opened Wrappers
  import opened Schema
  import opened CascadeDelete
  import opened DeclaredSchema

  // ------------------------------------------------------- the keys, by column

  /** The table a column of that name refers to. */
  function Named(c: Column): TableName {
    match c
    case TenantId => Tenants
    case PermissionId => Permissions
    case RoleId => Roles
    case CategoryId => EventCategories
    case EventId => Events
    case UserId | OperatorUserId => Users
    case TicketTypeId => TicketTypes
    case WorkflowStepId => WorkflowSteps
    case GuestId => Guests
    case TicketId => Tickets
  }

  lemma KeyTarget(t: TableName, c: Column)
    requires KeyOn(t, c).Some?
    ensures KeyOn(t, c).value.target == Named(c)
  {
  }

  /** Tables with such a column declared ON DELETE CASCADE. */
  function CascadeTables(c: Column): set<TableName> {
    match c
    case TenantId => {Users, EventCategories, Events, MessageTemplates}
    case PermissionId | RoleId => {RolePermissions}
    case CategoryId => {WorkflowStepTemplates}
    case EventId =>
      {WorkflowSteps, MessageTemplates, EventStaffAssignments, TicketTypes, Guests, Tickets, ScanLogs}
    case UserId => {EventStaffAssignments}
    case TicketTypeId => {TicketTypeWorkflowSteps}
    case WorkflowStepId => {TicketTypeWorkflowSteps, ScanLogs}
    case GuestId => {Tickets}
    case TicketId => {ScanLogs}
    case OperatorUserId => {}
  }

  /** Tables with such a column declared ON DELETE RESTRICT. */
  function RestrictTables(c: Column): set<TableName> {
    match c
    case RoleId => {Users, EventStaffAssignments}
    case CategoryId => {Events}
    case TicketTypeId => {Tickets}
    case _ => {}
  }

  lemma CascadeColumns(t: TableName, c: Column)
    ensures HasAction(DECLARED, t, c, Cascade) <==> t in CascadeTables(c)
  {
  }

  lemma RestrictColumns(t: TableName, c: Column)
    ensures HasAction(DECLARED, t, c, Restrict) <==> t in RestrictTables(c)
  {
  }

  /** Five references may be absent. */
  lemma NullableColumns(t: TableName, c: Column)
    requires KeyOn(t, c).Some?
    ensures KeyOn(t, c).value.nullable <==>
              || (c == TenantId && t in {EventCategories, MessageTemplates})
              || (c == EventId && t == MessageTemplates)
              || (c == TicketId && t == Guests)
              || c == OperatorUserId
  {
  }

  /** In a valid database all other references are there, and to rows that are. */
  lemma MandatoryReference(db: Database, x: RowId, c: Column)
    requires Valid(db) && x in db && (x.table in CascadeTables(c) || x.table in RestrictTables(c))
    requires !(c == TenantId && x.table in {EventCategories, MessageTemplates})
    requires !(c == EventId && x.table == MessageTemplates)
    ensures c in db[x].refs && db[x].refs[c] in db && db[x].refs[c].table == Named(c)
  {
    CascadeColumns(x.table, c);
    RestrictColumns(x.table, c);
    NullableColumns(x.table, c);
    KeyTarget(x.table, c);
    assert WellTyped(DECLARED, x.table, db[x]) && DECLARED(x.table, c) == KeyOn(x.table, c);
  }

  /** The keys act as listed above, and every reference is to the table its column names. */
  ghost predicate Follows(k: Keys, db: Database) {
    && (forall t, c :: HasAction(k, t, c, Cascade) <==> t in CascadeTables(c))
    && (forall t, c :: HasAction(k, t, c, Restrict) <==> t in RestrictTables(c))
    && (forall x, c | x in db && c in db[x].refs :: db[x].refs[c].table == Named(c))
  }

  lemma DeclaredFollows(db: Database)
    requires KeysHold(DECLARED, db)
    ensures Follows(DECLARED, db)
  {
    forall t, c ensures HasAction(DECLARED, t, c, Cascade) <==> t in CascadeTables(c) {
      CascadeColumns(t, c);
    }
    forall t, c ensures HasAction(DECLARED, t, c, Restrict) <==> t in RestrictTables(c) {
      RestrictColumns(t, c);
    }
    forall x, c | x in db && c in db[x].refs ensures db[x].refs[c].table == Named(c) {
      ReferenceTarget(DECLARED, db, x, c, db[x].refs[c]);
      KeyTarget(x.table, c);
    }
  }

  // ------------------------------------------------------ exact cascade sets

  /** The rows of the tables that name one of the rows `ys` in column `c`. */
  function Naming(db: Database, ts: set<TableName>, c: Column, ys: set<RowId>): set<RowId> {
    set x | x in db && x.table in ts && c in db[x].refs && db[x].refs[c] in ys
  }

  lemma NamingGoes(k: Keys, db: Database, root: RowId, ts: set<TableName>, c: Column, ys: set<RowId>)
    requires Follows(k, db) && ts <= CascadeTables(c) && ys <= CascadeSet(k, db, root)
    ensures Naming(db, ts, c, ys) <= CascadeSet(k, db, root)
  {
    forall x | x in Naming(db, ts, c, ys) ensures x in CascadeSet(k, db, root) {
      assert HasAction(k, x.table, c, Cascade) && Refers(db, x, c, db[x].refs[c]);
      ReachStep(k, db, x, db[x].refs[c], root);
    }
  }

  /** With the rows go all that name them. */
  predicate TakesAll(db: Database, rows: set<RowId>, c: Column) {
    Naming(db, CascadeTables(c), c, rows) <= rows
  }

  /** A set with the root that all goes, and takes all that names it, is the cascade set. */
  lemma ExactSet(k: Keys, db: Database, root: RowId, rows: set<RowId>)
    requires Follows(k, db) && root in rows && rows <= CascadeSet(k, db, root)
    requires forall c :: TakesAll(db, rows, c)
    ensures CascadeSet(k, db, root) == rows
  {
    forall x, y | y in rows && x in db && CascadesTo(k, db, x, y) ensures x in rows {
      var c :| HasAction(k, x.table, c, Cascade) && Refers(db, x, c, y);
      assert TakesAll(db, rows, c);
      assert x in Naming(db, CascadeTables(c), c, rows);
    }
    CascadeSetIsLeast(k, db, rows, root);
  }

  /** A row that rows of leaf tables name in one column goes with just those. */
  lemma ExactPair(k: Keys, db: Database, y: RowId, c: Column)
    requires Follows(k, db) && y in db && Named(c) == y.table
    requires forall d | Named(d) == y.table && d != c :: CascadeTables(d) == {}
    requires forall d :: Named(d) !in CascadeTables(c)
    ensures CascadeSet(k, db, y) == {y} + Naming(db, CascadeTables(c), c, {y})
  {
    var rows := {y} + Naming(db, CascadeTables(c), c, {y});
    RootReaches(k, db, y);
    NamingGoes(k, db, y, CascadeTables(c), c, {y});
    forall d ensures TakesAll(db, rows, d) {
      forall x | x in Naming(db, CascadeTables(d), d, rows) ensures x in rows {
        assert db[x].refs[d].table == Named(d);
      }
    }
    ExactSet(k, db, y, rows);
  }

  // ------------------------------------------------------- what goes, by table

  function StepsOf(db: Database, events: set<RowId>): set<RowId> {
    Naming(db, {WorkflowSteps}, EventId, events)
  }

  function TypesOf(db: Database, events: set<RowId>): set<RowId> {
    Naming(db, {TicketTypes}, EventId, events)
  }

  function GuestsOf(db: Database, events: set<RowId>): set<RowId> {
    Naming(db, {Guests}, EventId, events)
  }

  /** Tickets of the events, or of guests of the events. */
  function TicketsOf(db: Database, events: set<RowId>): set<RowId> {
    Naming(db, {Tickets}, EventId, events) + Naming(db, {Tickets}, GuestId, GuestsOf(db, events))
  }

  function LinksOf(db: Database, events: set<RowId>): set<RowId> {
    Naming(db, {TicketTypeWorkflowSteps}, TicketTypeId, TypesOf(db, events))
    + Naming(db, {TicketTypeWorkflowSteps}, WorkflowStepId, StepsOf(db, events))
  }

  function LogsOf(db: Database, events: set<RowId>): set<RowId> {
    Naming(db, {ScanLogs}, EventId, events)
    + Naming(db, {ScanLogs}, TicketId, TicketsOf(db, events))
    + Naming(db, {ScanLogs}, WorkflowStepId, StepsOf(db, events))
  }

  /** Rows of the events that nothing refers to. */
  function LeavesOf(db: Database, events: set<RowId>): set<RowId> {
    Naming(db, {MessageTemplates, EventStaffAssignments}, EventId, events) + LinksOf(db, events) + LogsOf(db, events)
  }

  /** The events and everything below them. */
  function EventRows(db: Database, events: set<RowId>): set<RowId> {
    events + StepsOf(db, events) + TypesOf(db, events) + GuestsOf(db, events) + TicketsOf(db, events)
    + LeavesOf(db, events)
  }

  /** What a tenant's events do not already account for: users and their assignments, categories and their templates, messages. */
  function TenantRows(db: Database, tenants: set<RowId>): set<RowId> {
    var users, categories := Naming(db, {Users}, TenantId, tenants), Naming(db, {EventCategories}, TenantId, tenants);
    tenants + users + categories + Naming(db, {MessageTemplates}, TenantId, tenants)
    + Naming(db, {EventStaffAssignments}, UserId, users) + Naming(db, {WorkflowStepTemplates}, CategoryId, categories)
  }

  /** The rows that go when `y` does, `y` included. */
  function Going(db: Database, y: RowId): set<RowId> {
    match y.table
    case Tenants => TenantRows(db, {y}) + EventRows(db, Naming(db, {Events}, TenantId, {y}))
    case Permissions => {y} + Naming(db, {RolePermissions}, PermissionId, {y})
    case Roles => {y} + Naming(db, {RolePermissions}, RoleId, {y})
    case Users => {y} + Naming(db, {EventStaffAssignments}, UserId, {y})
    case EventCategories => {y} + Naming(db, {WorkflowStepTemplates}, CategoryId, {y})
    case Events => EventRows(db, {y})
    case WorkflowSteps => {y} + Naming(db, {TicketTypeWorkflowSteps, ScanLogs}, WorkflowStepId, {y})
    case TicketTypes => {y} + Naming(db, {TicketTypeWorkflowSteps}, TicketTypeId, {y})
    case Guests =>
      {y} + Naming(db, {Tickets}, GuestId, {y}) + Naming(db, {ScanLogs}, TicketId, Naming(db, {Tickets}, GuestId, {y}))
    case Tickets => {y} + Naming(db, {ScanLogs}, TicketId, {y})
    case _ => {y}
  }

  /**
   Rows that stay and hold `y` back: holders of a role, events of a category,
   tickets of a ticket type. An event or a tenant is held back only from outside:
   by tickets of other events that have one of its ticket types, or by events of
   other tenants that have one of its categories.
   */
  function Holders(db: Database, y: RowId): set<RowId> {
    match y.table
    case Roles => Naming(db, {Users, EventStaffAssignments}, RoleId, {y})
    case EventCategories => Naming(db, {Events}, CategoryId, {y})
    case TicketTypes => Naming(db, {Tickets}, TicketTypeId, {y})
    case Events => Naming(db, {Tickets}, TicketTypeId, TypesOf(db, {y})) - TicketsOf(db, {y})
    case Tenants =>
      var events := Naming(db, {Events}, TenantId, {y});
      (Naming(db, {Tickets}, TicketTypeId, TypesOf(db, events)) - TicketsOf(db, events))
      + (Naming(db, {Events}, CategoryId, Naming(db, {EventCategories}, TenantId, {y})) - events)
    case _ => {}
  }

  // -------------------------------------------------------------- exact deletes

  lemma GuestRows(k: Keys, db: Database, y: RowId)
    requires Follows(k, db) && y in db && y.table == Guests
    ensures CascadeSet(k, db, y) == Going(db, y)
  {
    var tickets := Naming(db, {Tickets}, GuestId, {y});
    var logs := Naming(db, {ScanLogs}, TicketId, tickets);
    var rows := {y} + tickets + logs;
    RootReaches(k, db, y);
    NamingGoes(k, db, y, {Tickets}, GuestId, {y});
    NamingGoes(k, db, y, {ScanLogs}, TicketId, tickets);
    forall d ensures TakesAll(db, rows, d) {
      forall x | x in Naming(db, CascadeTables(d), d, rows) ensures x in rows {
        assert db[x].refs[d].table == Named(d);
        assert d == GuestId || d == TicketId;
      }
    }
    ExactSet(k, db, y, rows);
  }

  /** Wherever the events go, everything below them goes. */
  lemma EventRowsGo(k: Keys, db: Database, root: RowId, events: set<RowId>)
    requires Follows(k, db) && events <= CascadeSet(k, db, root)
    ensures EventRows(db, events) <= CascadeSet(k, db, root)
  {
    var steps, types, guests := StepsOf(db, events), TypesOf(db, events), GuestsOf(db, events);
    NamingGoes(k, db, root, {WorkflowSteps}, EventId, events);
    NamingGoes(k, db, root, {TicketTypes}, EventId, events);
    NamingGoes(k, db, root, {Guests}, EventId, events);
    NamingGoes(k, db, root, {MessageTemplates, EventStaffAssignments}, EventId, events);
    NamingGoes(k, db, root, {Tickets}, EventId, events);
    NamingGoes(k, db, root, {Tickets}, GuestId, guests);
    NamingGoes(k, db, root, {TicketTypeWorkflowSteps}, TicketTypeId, types);
    NamingGoes(k, db, root, {TicketTypeWorkflowSteps}, WorkflowStepId, steps);
    NamingGoes(k, db, root, {ScanLogs}, EventId, events);
    NamingGoes(k, db, root, {ScanLogs}, TicketId, TicketsOf(db, events));
    NamingGoes(k, db, root, {ScanLogs}, WorkflowStepId, steps);
  }

  /** Rows of these tables only. */
  predicate AreOf(rows: set<RowId>, ts: set<TableName>) {
    forall x | x in rows :: x.table in ts
  }

  /** Which rows of a union of single-table sets and leaf rows a table has. */
  lemma UnionByTable(
      events: set<RowId>, steps: set<RowId>, types: set<RowId>, guests: set<RowId>, tickets: set<RowId>,
      leaves: set<RowId>, z: RowId)
    requires AreOf(events, {Events}) && AreOf(steps, {WorkflowSteps}) && AreOf(types, {TicketTypes})
    requires AreOf(guests, {Guests}) && AreOf(tickets, {Tickets})
    requires AreOf(leaves, {MessageTemplates, EventStaffAssignments, TicketTypeWorkflowSteps, ScanLogs})
    requires z in events + steps + types + guests + tickets + leaves
    ensures z.table !in {Tenants, Permissions, Roles, Users, EventCategories}
    ensures (z.table == Events ==> z in events) && (z.table == WorkflowSteps ==> z in steps)
    ensures (z.table == TicketTypes ==> z in types) && (z.table == Guests ==> z in guests)
    ensures z.table == Tickets ==> z in tickets
  {
  }

  lemma AreLeaves(db: Database, events: set<RowId>)
    ensures AreOf(LeavesOf(db, events),
                  {MessageTemplates, EventStaffAssignments, TicketTypeWorkflowSteps, ScanLogs})
  {
    assert AreOf(LinksOf(db, events), {TicketTypeWorkflowSteps}) && AreOf(LogsOf(db, events), {ScanLogs});
    assert AreOf(Naming(db, {MessageTemplates, EventStaffAssignments}, EventId, events),
                 {MessageTemplates, EventStaffAssignments});
  }

  /** Which of the rows below events a table has. */
  lemma EventRowsByTable(db: Database, events: set<RowId>, z: RowId)
    requires AreOf(events, {Events}) && z in EventRows(db, events)
    ensures z.table !in {Tenants, Permissions, Roles, Users, EventCategories}
    ensures (z.table == Events ==> z in events) && (z.table == WorkflowSteps ==> z in StepsOf(db, events))
    ensures (z.table == TicketTypes ==> z in TypesOf(db, events)) && (z.table == Guests ==> z in GuestsOf(db, events))
    ensures z.table == Tickets ==> z in TicketsOf(db, events)
  {
    AreLeaves(db, events);
    UnionByTable(events, StepsOf(db, events), TypesOf(db, events), GuestsOf(db, events), TicketsOf(db, events),
                 LeavesOf(db, events), z);
  }

  lemma EventRowsTakeAll(k: Keys, db: Database, events: set<RowId>, d: Column)
    requires Follows(k, db) && AreOf(events, {Events})
    ensures TakesAll(db, EventRows(db, events), d)
  {
    var rows := EventRows(db, events);
    forall x | x in Naming(db, CascadeTables(d), d, rows) ensures x in rows {
      var z := db[x].refs[d];
      assert z.table == Named(d);
      EventRowsByTable(db, events, z);
    }
  }

  lemma EventDeleteRows(k: Keys, db: Database, y: RowId)
    requires Follows(k, db) && y in db && y.table == Events
    ensures CascadeSet(k, db, y) == EventRows(db, {y})
  {
    RootReaches(k, db, y);
    EventRowsGo(k, db, y, {y});
    forall d ensures TakesAll(db, EventRows(db, {y}), d) {
      EventRowsTakeAll(k, db, {y}, d);
    }
    ExactSet(k, db, y, EventRows(db, {y}));
  }

  lemma TenantRowsGo(k: Keys, db: Database, y: RowId)
    requires Follows(k, db) && y in db && y.table == Tenants
    ensures TenantRows(db, {y}) <= CascadeSet(k, db, y)
    ensures EventRows(db, Naming(db, {Events}, TenantId, {y})) <= CascadeSet(k, db, y)
  {
    RootReaches(k, db, y);
    NamingGoes(k, db, y, {Users}, TenantId, {y});
    NamingGoes(k, db, y, {EventCategories}, TenantId, {y});
    NamingGoes(k, db, y, {MessageTemplates}, TenantId, {y});
    NamingGoes(k, db, y, {EventStaffAssignments}, UserId, Naming(db, {Users}, TenantId, {y}));
    NamingGoes(k, db, y, {WorkflowStepTemplates}, CategoryId, Naming(db, {EventCategories}, TenantId, {y}));
    NamingGoes(k, db, y, {Events}, TenantId, {y});
    EventRowsGo(k, db, y, Naming(db, {Events}, TenantId, {y}));
  }

  /** Which of a tenant's other rows a table has. */
  lemma TenantRowsByTable(db: Database, tenants: set<RowId>, z: RowId)
    requires AreOf(tenants, {Tenants}) && z in TenantRows(db, tenants)
    ensures z.table in {Tenants, Users, EventCategories, MessageTemplates, EventStaffAssignments, WorkflowStepTemplates}
    ensures z.table == Tenants ==> z in tenants
    ensures z.table == Users ==> z in Naming(db, {Users}, TenantId, tenants)
    ensures z.table == EventCategories ==> z in Naming(db, {EventCategories}, TenantId, tenants)
  {
  }

  lemma TenantRowTakes(db: Database, tenants: set<RowId>, d: Column, x: RowId)
    requires AreOf(tenants, {Tenants}) && x in db && x.table in CascadeTables(d) && d in db[x].refs
    requires db[x].refs[d] in TenantRows(db, tenants) && db[x].refs[d].table == Named(d)
    ensures x in TenantRows(db, tenants) + Naming(db, {Events}, TenantId, tenants)
  {
    TenantRowsByTable(db, tenants, db[x].refs[d]);
    assert d in {TenantId, UserId, CategoryId};
  }

  lemma UnionTakesAll(db: Database, own: set<RowId>, some: set<RowId>, below: set<RowId>, d: Column)
    requires TakesAll(db, below, d) && some <= below && Naming(db, CascadeTables(d), d, own) <= own + some
    ensures TakesAll(db, own + below, d)
  {
    forall x | x in Naming(db, CascadeTables(d), d, own + below) ensures x in own + below {
      assert x in Naming(db, CascadeTables(d), d, own) || x in Naming(db, CascadeTables(d), d, below);
    }
  }

  lemma TenantOwnTakes(k: Keys, db: Database, tenants: set<RowId>, d: Column)
    requires Follows(k, db) && AreOf(tenants, {Tenants})
    ensures Naming(db, CascadeTables(d), d, TenantRows(db, tenants))
         <= TenantRows(db, tenants) + Naming(db, {Events}, TenantId, tenants)
  {
    forall x | x in Naming(db, CascadeTables(d), d, TenantRows(db, tenants))
      ensures x in TenantRows(db, tenants) + Naming(db, {Events}, TenantId, tenants)
    {
      assert db[x].refs[d].table == Named(d);
      TenantRowTakes(db, tenants, d, x);
    }
  }

  lemma EventsAreAmongThem(db: Database, events: set<RowId>)
    ensures events <= EventRows(db, events)
  {
  }

  lemma TenantRowsTakeAll(k: Keys, db: Database, y: RowId, d: Column)
    requires Follows(k, db) && y.table == Tenants
    ensures TakesAll(db, TenantRows(db, {y}) + EventRows(db, Naming(db, {Events}, TenantId, {y})), d)
  {
    var events := Naming(db, {Events}, TenantId, {y});
    EventRowsTakeAll(k, db, events, d);
    TenantOwnTakes(k, db, {y}, d);
    EventsAreAmongThem(db, events);
    UnionTakesAll(db, TenantRows(db, {y}), events, EventRows(db, events), d);
  }

  lemma TenantDeleteRows(k: Keys, db: Database, y: RowId)
    requires Follows(k, db) && y in db && y.table == Tenants
    ensures CascadeSet(k, db, y) == TenantRows(db, {y}) + EventRows(db, Naming(db, {Events}, TenantId, {y}))
  {
    var rows := TenantRows(db, {y}) + EventRows(db, Naming(db, {Events}, TenantId, {y}));
    TenantRowsGo(k, db, y);
    forall d ensures TakesAll(db, rows, d) {
      TenantRowsTakeAll(k, db, y, d);
    }
    ExactSet(k, db, y, rows);
  }

  lemma LeafRows(k: Keys, db: Database, y: RowId)
    requires Follows(k, db) && y in db
    requires forall d | Named(d) == y.table :: CascadeTables(d) == {}
    ensures CascadeSet(k, db, y) == {y}
  {
    RootReaches(k, db, y);
    forall d ensures TakesAll(db, {y}, d) {
    }
    ExactSet(k, db, y, {y});
  }

  /** What goes with a row, under the keys as listed. */
  lemma ExactCascade(k: Keys, db: Database, y: RowId)
    requires Follows(k, db) && y in db
    ensures CascadeSet(k, db, y) == Going(db, y)
  {
    match y.table
    case Tenants => TenantDeleteRows(k, db, y);
    case Permissions => ExactPair(k, db, y, PermissionId);
    case Roles => ExactPair(k, db, y, RoleId);
    case Users => ExactPair(k, db, y, UserId);
    case EventCategories => ExactPair(k, db, y, CategoryId);
    case Events => EventDeleteRows(k, db, y);
    case WorkflowSteps => ExactPair(k, db, y, WorkflowStepId);
    case TicketTypes => ExactPair(k, db, y, TicketTypeId);
    case Guests => GuestRows(k, db, y);
    case Tickets => ExactPair(k, db, y, TicketId);
    case _ => LeafRows(k, db, y);
  }

  // -------------------------------------------------------------- exact holders

  /** Rows that stay and name a row that goes in a RESTRICT column. */
  function Outside(db: Database, gone: set<RowId>): set<RowId> {
    (Naming(db, {Users, EventStaffAssignments}, RoleId, gone) - gone)
    + (Naming(db, {Events}, CategoryId, gone) - gone)
    + (Naming(db, {Tickets}, TicketTypeId, gone) - gone)
  }

  lemma RestrictedIff(k: Keys, db: Database, gone: set<RowId>)
    requires Follows(k, db)
    ensures Restricted(k, db, gone) <==> Outside(db, gone) != {}
  {
    if x, c :| Restricts(k, db, gone, x, c) {
      assert x.table in RestrictTables(c);
      assert x in Outside(db, gone);
    }
    if x :| x in Outside(db, gone) {
      var c := if x in Naming(db, {Users, EventStaffAssignments}, RoleId, gone) then RoleId
               else if x in Naming(db, {Events}, CategoryId, gone) then CategoryId
               else TicketTypeId;
      assert x.table in RestrictTables(c);
      assert Restricts(k, db, gone, x, c);
    }
  }

  /** Of the rows that go, only those a column can name, and those of its own tables, matter. */
  lemma OutsideColumn(
      k: Keys, db: Database, ts: set<TableName>, c: Column, gone: set<RowId>, named: set<RowId>, own: set<RowId>)
    requires Follows(k, db)
    requires named <= gone && forall z | z in gone && z.table == Named(c) :: z in named
    requires own <= gone && forall z | z in gone && z.table in ts :: z in own
    ensures Naming(db, ts, c, gone) - gone == Naming(db, ts, c, named) - own
  {
    forall x | x in Naming(db, ts, c, gone) ensures db[x].refs[c] in named {
      assert db[x].refs[c].table == Named(c);
    }
  }

  /** `part` is what the rows have of the tables. */
  predicate IsPart(rows: set<RowId>, ts: set<TableName>, part: set<RowId>) {
    part <= rows && forall z | z in rows && z.table in ts :: z in part
  }

  /** Who stays and holds rows back that go, given what these have of the five tables that matter. */
  lemma OutsideParts(
      k: Keys, db: Database, gone: set<RowId>, roles: set<RowId>, categories: set<RowId>, types: set<RowId>,
      staff: set<RowId>, events: set<RowId>, tickets: set<RowId>)
    requires Follows(k, db)
    requires IsPart(gone, {Roles}, roles) && IsPart(gone, {Users, EventStaffAssignments}, staff)
    requires IsPart(gone, {EventCategories}, categories) && IsPart(gone, {Events}, events)
    requires IsPart(gone, {TicketTypes}, types) && IsPart(gone, {Tickets}, tickets)
    ensures Outside(db, gone) == (Naming(db, {Users, EventStaffAssignments}, RoleId, roles) - staff)
                                 + (Naming(db, {Events}, CategoryId, categories) - events)
                                 + (Naming(db, {Tickets}, TicketTypeId, types) - tickets)
  {
    OutsideColumn(k, db, {Users, EventStaffAssignments}, RoleId, gone, roles, staff);
    OutsideColumn(k, db, {Events}, CategoryId, gone, categories, events);
    OutsideColumn(k, db, {Tickets}, TicketTypeId, gone, types, tickets);
  }

  lemma EventParts(db: Database, events: set<RowId>)
    requires AreOf(events, {Events})
    ensures var gone := EventRows(db, events);
            && IsPart(gone, {Roles}, {}) && IsPart(gone, {EventCategories}, {}) && IsPart(gone, {Events}, events)
            && IsPart(gone, {TicketTypes}, TypesOf(db, events)) && IsPart(gone, {Tickets}, TicketsOf(db, events))
  {
    forall z | z in EventRows(db, events)
      ensures && z.table !in {Roles, EventCategories} && (z.table == Events ==> z in events)
              && (z.table == TicketTypes ==> z in TypesOf(db, events)) && (z.table == Tickets ==> z in TicketsOf(db, events))
    {
      EventRowsByTable(db, events, z);
    }
  }

  lemma TenantParts(db: Database, tenants: set<RowId>, events: set<RowId>)
    requires AreOf(tenants, {Tenants})
    requires AreOf(events, {Events})
    ensures var gone := TenantRows(db, tenants) + EventRows(db, events);
            && IsPart(gone, {Roles}, {}) && IsPart(gone, {Events}, events)
            && IsPart(gone, {EventCategories}, Naming(db, {EventCategories}, TenantId, tenants))
            && IsPart(gone, {TicketTypes}, TypesOf(db, events)) && IsPart(gone, {Tickets}, TicketsOf(db, events))
  {
    EventParts(db, events);
    forall z | z in TenantRows(db, tenants)
      ensures && z.table !in {Roles, Events, TicketTypes, Tickets}
              && (z.table == EventCategories ==> z in Naming(db, {EventCategories}, TenantId, tenants))
    {
      TenantRowsByTable(db, tenants, z);
    }
  }

  function PartOf(rows: set<RowId>, ts: set<TableName>): set<RowId> {
    set z | z in rows && z.table in ts
  }

  lemma EventHolders(k: Keys, db: Database, y: RowId)
    requires Follows(k, db) && y.table == Events
    ensures Outside(db, Going(db, y)) == Holders(db, y)
  {
    var gone := EventRows(db, {y});
    EventParts(db, {y});
    OutsideParts(k, db, gone, {}, {}, TypesOf(db, {y}), PartOf(gone, {Users, EventStaffAssignments}), {y}, TicketsOf(db, {y}));
    NamingNone(db);
  }

  lemma NamingNone(db: Database)
    ensures forall ts, c :: Naming(db, ts, c, {}) == {}
  {
  }

  lemma TenantHolders(k: Keys, db: Database, y: RowId)
    requires Follows(k, db) && y.table == Tenants
    ensures Outside(db, Going(db, y)) == Holders(db, y)
  {
    var events := Naming(db, {Events}, TenantId, {y});
    var gone := TenantRows(db, {y}) + EventRows(db, events);
    TenantParts(db, {y}, events);
    OutsideParts(k, db, gone, {}, Naming(db, {EventCategories}, TenantId, {y}), TypesOf(db, events), PartOf(gone, {Users, EventStaffAssignments}),
                 events, TicketsOf(db, events));
    NamingNone(db);
  }

  /** Other rows go with none of the tables' rows but themselves. */
  lemma OtherParts(db: Database, y: RowId)
    requires y.table !in {Tenants, Events}
    ensures var gone := Going(db, y);
            && OnlyHeld(gone, y)
            && (y.table == Roles ==> PartOf(gone, {Users, EventStaffAssignments}) == {})
            && (y.table == TicketTypes ==> PartOf(gone, {Tickets}) == {})
  {
    assert y.table == Roles ==> Going(db, y) == {y} + Naming(db, {RolePermissions}, RoleId, {y});
    assert y.table == TicketTypes ==> Going(db, y) == {y} + Naming(db, {TicketTypeWorkflowSteps}, TicketTypeId, {y});
  }

  /** At most `y` itself can be held back, and no event goes. */
  predicate OnlyHeld(gone: set<RowId>, y: RowId) {
    && y in gone
    && forall z | z in gone :: z.table != Events && (z.table in {Roles, EventCategories, TicketTypes} ==> z == y)
  }

  lemma OtherOutside(k: Keys, db: Database, y: RowId, gone: set<RowId>)
    requires Follows(k, db) && OnlyHeld(gone, y)
    requires y.table == Roles ==> PartOf(gone, {Users, EventStaffAssignments}) == {}
    requires y.table == TicketTypes ==> PartOf(gone, {Tickets}) == {}
    ensures y.table == Roles ==> Outside(db, gone) == Naming(db, {Users, EventStaffAssignments}, RoleId, {y})
    ensures y.table == EventCategories ==> Outside(db, gone) == Naming(db, {Events}, CategoryId, {y})
    ensures y.table == TicketTypes ==> Outside(db, gone) == Naming(db, {Tickets}, TicketTypeId, {y})
    ensures y.table !in {Roles, EventCategories, TicketTypes} ==> Outside(db, gone) == {}
  {
    var staff, tickets := PartOf(gone, {Users, EventStaffAssignments}), PartOf(gone, {Tickets});
    assert Naming(db, {Users, EventStaffAssignments}, RoleId, {}) == {};
    assert Naming(db, {Events}, CategoryId, {}) == {} && Naming(db, {Tickets}, TicketTypeId, {}) == {};
    if y.table == Roles {
      OutsideParts(k, db, gone, {y}, {}, {}, staff, {}, tickets);
    } else if y.table == EventCategories {
      OutsideParts(k, db, gone, {}, {y}, {}, staff, {}, tickets);
    } else if y.table == TicketTypes {
      OutsideParts(k, db, gone, {}, {}, {y}, staff, {}, tickets);
    } else {
      OutsideParts(k, db, gone, {}, {}, {}, staff, {}, tickets);
    }
  }

  lemma OtherHolders(k: Keys, db: Database, y: RowId)
    requires Follows(k, db) && y.table !in {Tenants, Events}
    ensures Outside(db, Going(db, y)) == Holders(db, y)
  {
    OtherParts(db, y);
    OtherOutside(k, db, y, Going(db, y));
  }

  // ------------------------------------------------------------------ theorems

  /** For every row of every valid database: what goes with it, and what holds it back. */
  lemma DeclaredDelete(db: Database, y: RowId)
    requires Valid(db) && y in db
    ensures CascadeSet(DECLARED, db, y) == Going(db, y)
    ensures Restricted(DECLARED, db, Going(db, y)) <==> Holders(db, y) != {}
  {
    DeclaredFollows(db);
    ExactCascade(DECLARED, db, y);
    RestrictedIff(DECLARED, db, Going(db, y));
    if y.table == Tenants {
      TenantHolders(DECLARED, db, y);
    } else if y.table == Events {
      EventHolders(DECLARED, db, y);
    } else {
      OtherHolders(DECLARED, db, y);
    }
  }

  /** A role, for one, takes its permission grants and nothing else, and is held back exactly by users and staff who have it. */
  lemma RoleDelete(db: Database, role: RowId)
    requires Valid(db) && role in db && role.table == Roles
    ensures CascadeSet(DECLARED, db, role) == {role} + Naming(db, {RolePermissions}, RoleId, {role})
    ensures Restricted(DECLARED, db, CascadeSet(DECLARED, db, role))
       <==> Naming(db, {Users, EventStaffAssignments}, RoleId, {role}) != {}
  {
    DeclaredDelete(db, role);
  }

  /** What any completed delete leaves: all other rows, without the two nullable references to rows that went; valid iff nothing held it back. */
  lemma DeclaredOutcome(db: Database, y: RowId, states: seq<Deletion>, order: seq<RowId>)
    requires Valid(db) && y in db
    requires IsDelete(DECLARED, db, y, states, order) && states[|order|].pending == {}
    ensures var left := states[|order|].db;
            && left.Keys == db.Keys - Going(db, y)
            && (forall x | x in left :: left[x].source == db[x].source)
            && (forall x, c | x in left ::
                  c in left[x].refs <==>
                    && c in db[x].refs
                    && !(db[x].refs[c] in Going(db, y) && (x.table, c) in {(Guests, TicketId), (ScanLogs, OperatorUserId)}))
            && (forall x, c | x in left && c in left[x].refs :: left[x].refs[c] == db[x].refs[c])
            && (Valid(left) <==> Holders(db, y) == {})
  {
    var gone := Going(db, y);
    DeclaredDelete(db, y);
    DeleteRemovesCascadeSet(DECLARED, db, y, states, order);
    DeleteKeepsValidIff(db, y, states, order);
    forall x, c | x in db && x !in gone
      ensures c in Without(DECLARED, db, gone)[x].refs <==>
                && c in db[x].refs
                && !(db[x].refs[c] in gone && (x.table, c) in {(Guests, TicketId), (ScanLogs, OperatorUserId)})
    {
      SurvivorsChangeOnly(db, gone, x, c);
    }
  }
}
