/** Tables related by foreign keys: rows, references and valid database instances. */
module Schema {
  import opened Wrappers

  datatype TableName =
    | Tenants | Permissions | Roles | RolePermissions | Users
    | EventCategories | WorkflowStepTemplates | Events | WorkflowSteps | MessageTemplates
    | EventStaffAssignments | TicketTypes | TicketTypeWorkflowSteps | Guests | Tickets | ScanLogs

  datatype Column =
    | TenantId | PermissionId | RoleId | CategoryId | EventId | UserId
    | TicketTypeId | WorkflowStepId | GuestId | TicketId | OperatorUserId

  datatype Action = Cascade | Restrict | SetNull

  datatype ForeignKey = ForeignKey(target: TableName, action: Action, nullable: bool)

  /** The foreign key on each column of each table. */
  type Keys = (TableName, Column) -> Option<ForeignKey>

  predicate HasAction(k: Keys, t: TableName, c: Column, a: Action) {
    k(t, c).Some? && k(t, c).value.action == a
  }

  datatype RowId = RowId(table: TableName, key: nat)

  /** A row: its non-null references, and its source text where the table has one. */
  datatype Row = Row(refs: map<Column, RowId>, source: string)

  type Database = map<RowId, Row>

  /** Column `c` of row `x` refers to row `y`. */
  predicate Refers(db: Database, x: RowId, c: Column, y: RowId) {
    x in db && c in db[x].refs && db[x].refs[c] == y
  }

  /** Columns that refer are foreign keys into the right table; NOT NULL ones always refer. */
  ghost predicate WellTyped(k: Keys, t: TableName, row: Row) {
    && (forall c | c in row.refs :: k(t, c).Some? && row.refs[c].table == k(t, c).value.target)
    && (forall c | k(t, c).Some? && !k(t, c).value.nullable :: c in row.refs)
  }

  /** Every row is well typed and refers to rows that exist. */
  ghost predicate KeysHold(k: Keys, db: Database) {
    forall x | x in db :: WellTyped(k, x.table, db[x]) && forall c | c in db[x].refs :: db[x].refs[c] in db
  }

  /** A column that may be nulled by a delete may be null. */
  ghost predicate SetNullIsNullable(k: Keys) {
    forall t, c | HasAction(k, t, c, SetNull) :: k(t, c).value.nullable
  }
}
