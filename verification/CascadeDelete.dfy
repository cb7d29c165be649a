/**
 Deleting a row under the declared foreign keys, after the referential actions
 of section 11.8 of ISO/IEC 9075-2:1999. Rows wait on a worklist and are
 deleted one at a time in an order the database chooses.
 */
module CascadeDelete {
  import opened Wrappers
  import opened Schema

  /** Row `x` goes when row `y` does. */
  predicate CascadesTo(k: Keys, db: Database, x: RowId, y: RowId) {
    exists c :: HasAction(k, x.table, c, Cascade) && Refers(db, x, c, y)
  }

  /** A chain of CASCADE references from `path[0]` up to `root`. */
  predicate IsChain(k: Keys, db: Database, path: seq<RowId>, root: RowId) {
    && path != [] && path[0] in db
    && if |path| == 1 then path[0] == root
       else CascadesTo(k, db, path[0], path[1]) && IsChain(k, db, path[1..], root)
  }

  ghost predicate Reaches(k: Keys, db: Database, x: RowId, root: RowId) {
    exists path :: IsChain(k, db, path, root) && path[0] == x
  }

  ghost function CascadeSet(k: Keys, db: Database, root: RowId): set<RowId> {
    set x | x in db && Reaches(k, db, x, root)
  }

  /** A row with its SET NULL references to `gone` nulled. */
  function Nulled(k: Keys, t: TableName, row: Row, gone: set<RowId>): Row {
    row.(refs := map c | c in row.refs && !(HasAction(k, t, c, SetNull) && row.refs[c] in gone) :: row.refs[c])
  }

  /** The database once the rows `gone` are deleted. */
  function Without(k: Keys, db: Database, gone: set<RowId>): Database {
    map x | x in db && x !in gone :: Nulled(k, x.table, db[x], gone)
  }

  /** A delete under way: the rows still there, and which of them must go. */
  datatype Deletion = Deletion(db: Database, pending: set<RowId>)

  /** Deletes one waiting row: SET NULL references to it are nulled, CASCADE ones put their rows on the list. */
  function DeleteRow(k: Keys, s: Deletion, y: RowId): Deletion {
    Deletion(Without(k, s.db, {y}), s.pending - {y} + set x | x in s.db && x != y && CascadesTo(k, s.db, x, y))
  }

  /** The states of a delete of `root`, the database choosing the order. */
  ghost predicate IsDelete(k: Keys, db: Database, root: RowId, states: seq<Deletion>, order: seq<RowId>) {
    && |states| == |order| + 1 && states[0] == Deletion(db, {root})
    && forall i {:trigger order[i]} | 0 <= i < |order| ::
         order[i] in states[i].pending && states[i + 1] == DeleteRow(k, states[i], order[i])
  }

  /** Column `c` of row `x`, outside `gone`, has a RESTRICT reference into it. */
  predicate Restricts(k: Keys, db: Database, gone: set<RowId>, x: RowId, c: Column) {
    x in db && x !in gone && HasAction(k, x.table, c, Restrict) && c in db[x].refs && db[x].refs[c] in gone
  }

  ghost predicate Restricted(k: Keys, db: Database, gone: set<RowId>) {
    exists x, c :: Restricts(k, db, gone, x, c)
  }

  // ---------------------------------------------------------------- reachability

  lemma RootReaches(k: Keys, db: Database, root: RowId)
    requires root in db
    ensures root in CascadeSet(k, db, root)
  {
    assert IsChain(k, db, [root], root);
  }

  lemma ReachStep(k: Keys, db: Database, x: RowId, y: RowId, root: RowId)
    requires y in CascadeSet(k, db, root) && x in db && CascadesTo(k, db, x, y)
    ensures x in CascadeSet(k, db, root)
  {
    var path :| IsChain(k, db, path, root) && path[0] == y;
    assert ([x] + path)[1..] == path;
    assert IsChain(k, db, [x] + path, root);
  }

  ghost predicate IsClosed(k: Keys, db: Database, rows: set<RowId>) {
    forall x, y | y in rows && x in db && CascadesTo(k, db, x, y) :: x in rows
  }

  lemma {:induction false} ChainStays(k: Keys, db: Database, rows: set<RowId>, path: seq<RowId>, root: RowId)
    requires IsClosed(k, db, rows) && root in rows && IsChain(k, db, path, root)
    ensures path[0] in rows
  {
    if |path| == 1 {
    } else {
      ChainStays(k, db, rows, path[1..], root);
    }
  }

  /** The cascade set is the least set with the root that cascades do not leave. */
  lemma CascadeSetIsLeast(k: Keys, db: Database, rows: set<RowId>, root: RowId)
    requires IsClosed(k, db, rows) && root in rows
    ensures CascadeSet(k, db, root) <= rows
  {
    forall x | x in CascadeSet(k, db, root) ensures x in rows {
      var path :| IsChain(k, db, path, root) && path[0] == x;
      ChainStays(k, db, rows, path, root);
    }
  }

  // -------------------------------------------------------------------- invariant

  /** Half-way through: `removed` is gone and what it drags along is gone or waiting. */
  ghost predicate Inv(k: Keys, db: Database, root: RowId, s: Deletion, removed: set<RowId>) {
    && removed <= db.Keys
    && s.db == Without(k, db, removed)
    && s.pending <= s.db.Keys
    && root in removed + s.pending
    && removed + s.pending <= CascadeSet(k, db, root)
    && forall x, y | y in removed && x in db && CascadesTo(k, db, x, y) :: x in removed + s.pending
  }

  /** Deleting rows in two goes is deleting them at once. */
  lemma WithoutTwice(k: Keys, db: Database, a: set<RowId>, b: set<RowId>)
    ensures Without(k, Without(k, db, a), b) == Without(k, db, a + b)
  {
    var once, twice := Without(k, db, a + b), Without(k, Without(k, db, a), b);
    forall x | x in once ensures twice[x] == once[x] {
      assert twice[x].refs == once[x].refs;
    }
  }

  /** Nulling columns never touches a CASCADE reference. */
  lemma WithoutKeepsCascades(k: Keys, db: Database, gone: set<RowId>, x: RowId, y: RowId)
    requires x in db && x !in gone
    ensures CascadesTo(k, Without(k, db, gone), x, y) <==> CascadesTo(k, db, x, y)
  {
    var db' := Without(k, db, gone);
    forall c | HasAction(k, x.table, c, Cascade) ensures Refers(db', x, c, y) <==> Refers(db, x, c, y) {
      assert !HasAction(k, x.table, c, SetNull);
    }
  }

  lemma DeleteRowKeepsInv(k: Keys, db: Database, root: RowId, s: Deletion, removed: set<RowId>, y: RowId)
    requires Inv(k, db, root, s, removed) && y in s.pending
    ensures Inv(k, db, root, DeleteRow(k, s, y), removed + {y}) && y !in removed
  {
    var s', removed' := DeleteRow(k, s, y), removed + {y};
    WithoutTwice(k, db, removed, {y});
    forall x | x in s.db ensures CascadesTo(k, s.db, x, y) <==> CascadesTo(k, db, x, y) {
      WithoutKeepsCascades(k, db, removed, x, y);
    }
    forall x | x in removed' + s'.pending ensures x in CascadeSet(k, db, root) {
      if x !in removed + s.pending {
        ReachStep(k, db, x, y, root);
      }
    }
    forall x, z | z in removed' && x in db && CascadesTo(k, db, x, z) ensures x in removed' + s'.pending {
    }
  }

  lemma NothingRemoved(k: Keys, db: Database, root: RowId)
    requires root in db
    ensures Inv(k, db, root, Deletion(db, {root}), {})
  {
    forall x | x in db ensures Nulled(k, x.table, db[x], {}) == db[x] {
      assert Nulled(k, x.table, db[x], {}).refs == db[x].refs;
    }
    assert Without(k, db, {}) == db;
    RootReaches(k, db, root);
  }

  /** The first `n` rows of the order. */
  function Rows(order: seq<RowId>, n: nat): set<RowId>
    requires n <= |order|
  {
    if n == 0 then {} else Rows(order, n - 1) + {order[n - 1]}
  }

  lemma {:induction false} RowsOfOrder(order: seq<RowId>, n: nat)
    requires n <= |order|
    ensures forall x :: x in Rows(order, n) <==> x in order[..n]
  {
    if n == 0 {
    } else {
      RowsOfOrder(order, n - 1);
      assert order[..n] == order[..n - 1] + [order[n - 1]];
    }
  }

  lemma StepKeepsInv(k: Keys, db: Database, root: RowId, s: Deletion, s': Deletion, removed: set<RowId>, y: RowId)
    requires Inv(k, db, root, s, removed) && y in s.pending && s' == DeleteRow(k, s, y)
    ensures Inv(k, db, root, s', removed + {y}) && |removed + {y}| == |removed| + 1
  {
    DeleteRowKeepsInv(k, db, root, s, removed, y);
  }

  /** What is gone after `n` steps is the first `n` rows of the order, all different. */
  lemma {:induction false} DeleteInv(k: Keys, db: Database, root: RowId, states: seq<Deletion>, order: seq<RowId>, n: nat)
    requires root in db && IsDelete(k, db, root, states, order) && n <= |order|
    ensures Inv(k, db, root, states[n], Rows(order, n)) && |Rows(order, n)| == n
  {
    if n == 0 {
      NothingRemoved(k, db, root);
    } else {
      DeleteInv(k, db, root, states, order, n - 1);
      StepKeepsInv(k, db, root, states[n - 1], states[n], Rows(order, n - 1), order[n - 1]);
    }
  }

  lemma SubsetSize<T>(a: set<T>, b: set<T>)
    requires a <= b
    ensures |a| <= |b|
  {
    assert b == a + (b - a);
  }

  lemma InvBounds(k: Keys, db: Database, root: RowId, s: Deletion, removed: set<RowId>)
    requires Inv(k, db, root, s, removed)
    ensures |removed| <= |CascadeSet(k, db, root)| <= |db|
    ensures s.pending == {} <==> |removed| == |CascadeSet(k, db, root)|
  {
    var all := CascadeSet(k, db, root);
    SubsetSize(all, db.Keys);
    SubsetSize(removed, all);
    assert |db.Keys| == |db|;
    if s.pending == {} {
      CascadeSetIsLeast(k, db, removed, root);
      assert removed == all;
    } else {
      var y :| y in s.pending;
      assert y in s.db && y !in removed;
      SubsetSize(removed + {y}, all);
    }
  }

  // --------------------------------------------------------------------- theorems

  /** Every delete ends: never more steps than rows to delete, and it is done exactly when it has taken that many. */
  lemma DeleteTerminates(k: Keys, db: Database, root: RowId, states: seq<Deletion>, order: seq<RowId>)
    requires root in db && IsDelete(k, db, root, states, order)
    ensures |order| <= |CascadeSet(k, db, root)| <= |db|
    ensures states[|order|].pending == {} <==> |order| == |CascadeSet(k, db, root)|
  {
    DeleteInv(k, db, root, states, order, |order|);
    InvBounds(k, db, root, states[|order|], Rows(order, |order|));
  }

  lemma DeleteExtends(k: Keys, db: Database, root: RowId, states: seq<Deletion>, order: seq<RowId>, y: RowId)
    requires IsDelete(k, db, root, states, order) && y in states[|order|].pending
    ensures IsDelete(k, db, root, states + [DeleteRow(k, states[|order|], y)], order + [y])
  {
    var order' := order + [y];
    assert forall i {:trigger order'[i]} | 0 <= i < |order| :: order'[i] == order[i];
  }

  /** No delete gets stuck: however far it is and whatever was chosen so far, it can be completed. */
  lemma {:induction false} DeleteCompletes(k: Keys, db: Database, root: RowId, states: seq<Deletion>, order: seq<RowId>)
    returns (states': seq<Deletion>, order': seq<RowId>)
    requires root in db && IsDelete(k, db, root, states, order)
    ensures IsDelete(k, db, root, states', order') && states'[|order'|].pending == {}
    ensures states <= states' && order <= order'
    decreases |db| - |order|
  {
    if states[|order|].pending == {} {
      states', order' := states, order;
    } else {
      var y :| y in states[|order|].pending;
      DeleteExtends(k, db, root, states, order, y);
      DeleteTerminates(k, db, root, states + [DeleteRow(k, states[|order|], y)], order + [y]);
      states', order' := DeleteCompletes(k, db, root, states + [DeleteRow(k, states[|order|], y)], order + [y]);
    }
  }

  /** Every row of every database has a completed delete. */
  lemma EveryDeleteCompletes(k: Keys, db: Database, root: RowId) returns (states: seq<Deletion>, order: seq<RowId>)
    requires root in db
    ensures IsDelete(k, db, root, states, order) && states[|order|].pending == {}
    ensures |order| == |CascadeSet(k, db, root)|
  {
    states, order := DeleteCompletes(k, db, root, [Deletion(db, {root})], []);
    DeleteTerminates(k, db, root, states, order);
  }

  /** A completed delete removes exactly the rows that reach the root by cascades, whatever the order. */
  lemma DeleteRemovesCascadeSet(k: Keys, db: Database, root: RowId, states: seq<Deletion>, order: seq<RowId>)
    requires root in db && IsDelete(k, db, root, states, order) && states[|order|].pending == {}
    ensures states[|order|].db == Without(k, db, CascadeSet(k, db, root))
    ensures forall x :: x in order <==> x in CascadeSet(k, db, root)
  {
    DeleteInv(k, db, root, states, order, |order|);
    var removed := Rows(order, |order|);
    CascadeSetIsLeast(k, db, removed, root);
    assert removed == CascadeSet(k, db, root);
    RowsOfOrder(order, |order|);
    assert order[..|order|] == order;
  }

  /** The references survivors keep: all but the SET NULL ones to removed rows. */
  lemma SurvivorRefs(k: Keys, db: Database, gone: set<RowId>, x: RowId, c: Column)
    requires x in db && x !in gone
    ensures x in Without(k, db, gone) && Without(k, db, gone)[x].source == db[x].source
    ensures c in Without(k, db, gone)[x].refs <==>
              c in db[x].refs && !(db[x].refs[c] in gone && HasAction(k, x.table, c, SetNull))
    ensures c in Without(k, db, gone)[x].refs ==> Without(k, db, gone)[x].refs[c] == db[x].refs[c]
  {
  }

  lemma SurvivorWellTyped(k: Keys, db: Database, gone: set<RowId>, x: RowId)
    requires KeysHold(k, db) && SetNullIsNullable(k) && x in db && x !in gone
    ensures WellTyped(k, x.table, Without(k, db, gone)[x])
  {
    assert WellTyped(k, x.table, db[x]);
  }

  /** A survivor's reference dangles exactly when it is a RESTRICT reference into a removed, closed set. */
  lemma DanglesIff(k: Keys, db: Database, gone: set<RowId>, x: RowId, c: Column)
    requires KeysHold(k, db) && IsClosed(k, db, gone)
    requires x in Without(k, db, gone) && c in Without(k, db, gone)[x].refs
    ensures Without(k, db, gone)[x].refs[c] !in Without(k, db, gone)
       <==> Restricts(k, db, gone, x, c)
  {
    var y := db[x].refs[c];
    assert Refers(db, x, c, y) && y in db && WellTyped(k, x.table, db[x]);
    if HasAction(k, x.table, c, Cascade) {
      assert CascadesTo(k, db, x, y);
    }
  }

  /** Deleting a closed set of rows leaves every foreign key true exactly when no survivor restricts a removed row. */
  lemma WithoutKeysHoldIff(k: Keys, db: Database, gone: set<RowId>)
    requires KeysHold(k, db) && SetNullIsNullable(k) && IsClosed(k, db, gone)
    ensures KeysHold(k, Without(k, db, gone)) <==> !Restricted(k, db, gone)
  {
    var db' := Without(k, db, gone);
    forall x, c | x in db' && c in db'[x].refs
      ensures db'[x].refs[c] in db' <==> !Restricts(k, db, gone, x, c)
    {
      DanglesIff(k, db, gone, x, c);
    }
    forall x | x in db' ensures WellTyped(k, x.table, db'[x]) {
      SurvivorWellTyped(k, db, gone, x);
    }
    if Restricted(k, db, gone) {
      var x, c :| Restricts(k, db, gone, x, c);
      SurvivorRefs(k, db, gone, x, c);
      assert db'[x].refs[c] !in db';
    }
  }

  /** The delete theorem: any completed delete of any row keeps every foreign key iff nothing left restricts it. */
  lemma CompletedDelete(k: Keys, db: Database, root: RowId, states: seq<Deletion>, order: seq<RowId>)
    requires KeysHold(k, db) && SetNullIsNullable(k) && root in db
    requires IsDelete(k, db, root, states, order) && states[|order|].pending == {}
    ensures states[|order|].db == Without(k, db, CascadeSet(k, db, root))
    ensures KeysHold(k, states[|order|].db) <==> !Restricted(k, db, CascadeSet(k, db, root))
  {
    DeleteRemovesCascadeSet(k, db, root, states, order);
    var gone := CascadeSet(k, db, root);
    forall x, y | y in gone && x in db && CascadesTo(k, db, x, y) ensures x in gone {
      ReachStep(k, db, x, y, root);
    }
    WithoutKeysHoldIff(k, db, gone);
  }

  // ----------------------------------------------------------- shapes of cascades

  lemma ReferenceTarget(k: Keys, db: Database, x: RowId, c: Column, y: RowId)
    requires KeysHold(k, db) && Refers(db, x, c, y)
    ensures k(x.table, c).Some? && k(x.table, c).value.target == y.table
  {
    assert WellTyped(k, x.table, db[x]);
  }

  /** The key through which a row goes when another does. */
  lemma CascadeKey(k: Keys, db: Database, x: RowId, y: RowId) returns (c: Column)
    requires KeysHold(k, db) && CascadesTo(k, db, x, y)
    ensures HasAction(k, x.table, c, Cascade) && Refers(db, x, c, y) && k(x.table, c).value.target == y.table
  {
    c :| HasAction(k, x.table, c, Cascade) && Refers(db, x, c, y);
    ReferenceTarget(k, db, x, c, y);
  }

  /** CASCADE references go strictly down in the layers of the tables. */
  ghost predicate IsLayering(k: Keys, layer: TableName -> nat) {
    forall t, c | HasAction(k, t, c, Cascade) :: layer(k(t, c).value.target) < layer(t)
  }

  /** Where tables are layered, no cascade runs through more rows than there are layers above its end. */
  lemma {:induction false} ChainsFollowLayers(
      k: Keys, db: Database, layer: TableName -> nat, path: seq<RowId>, root: RowId)
    requires KeysHold(k, db) && IsLayering(k, layer) && IsChain(k, db, path, root)
    ensures |path| <= 1 + layer(path[0].table)
  {
    if |path| == 1 {
    } else {
      ChainsFollowLayers(k, db, layer, path[1..], root);
      var c := CascadeKey(k, db, path[0], path[1]);
    }
  }

  /** A row without CASCADE references goes only when it is itself deleted. */
  lemma UnattachedRowStays(k: Keys, db: Database, x: RowId, root: RowId)
    requires x in db && root in db && x != root
    requires forall c | HasAction(k, x.table, c, Cascade) :: c !in db[x].refs
    ensures x !in CascadeSet(k, db, root)
  {
    CascadeSetIsLeast(k, db, db.Keys - {x}, root);
  }
}
