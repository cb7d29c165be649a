/**
 How a deleted category can come back: only through a stale update, in every
 interleaving whatsoever; and what overlapping requests do that no serial order
 explains.
 */
module Resurrections {
  import opened Wrappers
  import opened Categories
  import opened Requests
  import opened SimpleStore
  import opened Histories
  import opened Interleavings

  predicate LiveIn(t: Table, id: Id) {
    id in t && Live(t[id])
  }

  /** The step is the write step of a pending update of this row, with no failure and a row the CHECK accepts. */
  predicate WritesUpdate(s: State, step: Step, id: Id) {
    && step.Finish? && step.rid in s.pending
    && var p := s.pending[step.rid];
    && p.request.Update? && p.request.id == id
    && p.request.env.writeFault.None? && CheckHolds(NewRow(p.request, p.row))
  }

  predicate WritesDelete(s: State, step: Step, id: Id) {
    && step.Finish? && step.rid in s.pending
    && s.pending[step.rid].request.Delete? && s.pending[step.rid].request.id == id
  }

  /** One step brings a tombstoned row back exactly when it is a successful write of a pending update of it. */
  lemma ResurrectingStepIff(s: State, step: Step, id: Id)
    requires Inv(s) && Tombstoned(s.table, id)
    ensures LiveIn(Next(s, step).table, id) <==> WritesUpdate(s, step, id)
  {
    if step.Start? && !TwoStep(step.request) {
      ServeTombstone(s.table, step.request, id);
    }
  }

  /** Only the write of a delete makes a live row a tombstone. */
  lemma TombstoningStep(s: State, step: Step, id: Id)
    requires Inv(s) && LiveIn(s.table, id) && Tombstoned(Next(s, step).table, id)
    ensures WritesDelete(s, step, id)
  {
  }

  /** A pending request was started by a read that succeeded, and has been pending ever since. */
  predicate ReadAt(states: seq<State>, steps: seq<Step>, rid: Rid, i: nat, k: nat)
    requires |states| == |steps| + 1 && k < |states|
  {
    && i < k && rid in states[k].pending
    && steps[i] == Start(rid, states[k].pending[rid].request)
    && Begin(states[i].table, states[k].pending[rid].request) == Ok(states[k].pending[rid].row)
    && states[i + 1].table == states[i].table
    && forall n | i < n <= k :: rid in states[n].pending && states[n].pending[rid] == states[k].pending[rid]
  }

  lemma {:induction false} FindRead(states: seq<State>, steps: seq<Step>, rid: Rid, k: nat) returns (i: nat)
    requires IsRun(states, steps) && states[0].pending == map[]
    requires k < |states| && rid in states[k].pending
    ensures ReadAt(states, steps, rid, i, k)
    decreases k
  {
    assert k > 0;
    assert states[k] == Next(states[k - 1], steps[k - 1]);
    if rid in states[k - 1].pending {
      i := FindRead(states, steps, rid, k - 1);
    } else {
      i := k - 1;
    }
  }

  lemma {:induction false} RowStays(states: seq<State>, steps: seq<Step>, id: Id, i: nat, n: nat)
    requires IsRun(states, steps) && forall j | 0 <= j < |states| :: Inv(states[j])
    requires i <= n < |states| && id in states[i].table
    ensures id in states[n].table
    decreases n
  {
    if i == n {
    } else {
      RowStays(states, steps, id, i, n - 1);
      StepKeeps(states[n - 1], steps[n - 1]);
      assert states[n] == Next(states[n - 1], steps[n - 1]);
    }
  }

  lemma {:induction false} FindTombstoning(states: seq<State>, steps: seq<Step>, id: Id, i: nat, k: nat)
    returns (m: nat)
    requires IsRun(states, steps) && forall n | 0 <= n < |states| :: Inv(states[n])
    requires i < k < |states| && LiveIn(states[i].table, id) && Tombstoned(states[k].table, id)
    ensures i <= m < k && WritesDelete(states[m], steps[m], id)
    ensures LiveIn(states[m].table, id) && Tombstoned(states[m + 1].table, id)
    decreases k
  {
    var s := states[k - 1];
    assert states[k] == Next(s, steps[k - 1]);
    RowStays(states, steps, id, i, k - 1);
    if LiveIn(s.table, id) {
      TombstoningStep(s, steps[k - 1], id);
      m := k - 1;
    } else {
      m := FindTombstoning(states, steps, id, i, k - 1);
    }
  }

  /** The exact cause of a resurrection: an update that read the row before the delete that buried it wrote. */
  lemma CauseOfResurrection(t: Table, states: seq<State>, steps: seq<Step>, k: nat, id: Id)
    returns (i: nat, m: nat)
    requires WellFormed(t) && IsRun(states, steps) && states[0] == Init(t)
    requires k < |steps| && Tombstoned(states[k].table, id) && LiveIn(states[k + 1].table, id)
    ensures i < m < k
    ensures WritesUpdate(states[k], steps[k], id)
    ensures ReadAt(states, steps, steps[k].rid, i, k) && LiveIn(states[i].table, id)
    ensures WritesDelete(states[m], steps[m], id)
    ensures LiveIn(states[m].table, id) && Tombstoned(states[m + 1].table, id)
  {
    RunKeeps(states, steps);
    assert states[k + 1] == Next(states[k], steps[k]);
    ResurrectingStepIff(states[k], steps[k], id);
    i := FindRead(states, steps, steps[k].rid, k);
    m := FindTombstoning(states, steps, id, i + 1, k);
  }

  /** Where writes do not overlap, a tombstone is permanent in concurrent runs too. */
  lemma {:induction false} NoOverlapNoResurrection(t: Table, states: seq<State>, steps: seq<Step>, id: Id, k: nat, n: nat)
    requires WellFormed(t) && IsRun(states, steps) && states[0] == Init(t) && NoOverlap(states, steps)
    requires k <= n < |states| && Tombstoned(states[k].table, id)
    ensures Tombstoned(states[n].table, id)
    decreases n
  {
    if k == n {
    } else {
      NoOverlapNoResurrection(t, states, steps, id, k, n - 1);
      RunKeeps(states, steps);
      assert states[n] == Next(states[n - 1], steps[n - 1]);
      if LiveIn(states[n].table, id) {
        var i, m := CauseOfResurrection(t, states, steps, n - 1, id);
        assert steps[n - 1].rid in states[m].pending && steps[n - 1].rid in states[m + 1].pending;
        assert states[m + 1] == Next(states[m], steps[m]);
        assert WritesRow(states, m, id);
        assert false;
      }
      StepKeeps(states[n - 1], steps[n - 1]);
    }
  }

  // --------------------------------------------------- overlaps no order explains

  /** The states of the run that starts both requests, then finishes the second, then the first. */
  function Overlapped(t: Table, a: Request, b: Request): (seq<State>, seq<Step>) {
    var steps := [Start(1, a), Start(2, b), Finish(2), Finish(1)];
    var s0 := Init(t);
    var s1 := Next(s0, steps[0]);
    var s2 := Next(s1, steps[1]);
    var s3 := Next(s2, steps[2]);
    ([s0, s1, s2, s3, Next(s3, steps[3])], steps)
  }

  lemma OverlappedIsRun(t: Table, a: Request, b: Request)
    ensures IsRun(Overlapped(t, a, b).0, Overlapped(t, a, b).1)
  {
  }

  lemma SerialOfTwo(t: Table, a: (Rid, Request), b: (Rid, Request))
    ensures var (t', x) := Serve(t, a.1);
            var (t'', y) := Serve(t', b.1);
            Serial(t, [], [a, b]) == (t'', [(a.0, x), (b.0, y)])
  {
    var (t', x) := Serve(t, a.1);
    var (t'', y) := Serve(t', b.1);
    assert [a, b][1..] == [b] && [b][1..] == [];
    assert [] + [(a.0, x)] == [(a.0, x)];
    assert [(a.0, x)] + [(b.0, y)] == [(a.0, x), (b.0, y)];
    assert Serial(t', [(a.0, x)], [b]) == Serial(t'', [(a.0, x), (b.0, y)], []);
  }

  /** A delete and a stale update both report success, and the row is live. */
  lemma StaleUpdateWins(t: Table, id: Id, u: UpdateInput, e1: Env, e2: Env)
    requires WellFormed(t) && LiveIn(t, id) && CheckHolds(Apply(t[id], u))
    requires e1.readFault.None? && e1.writeFault.None? && e2.readFault.None? && e2.writeFault.None?
    ensures var states := Overlapped(t, Update(id, u, e1), Delete(id, e2)).0;
            && LiveIn(states[4].table, id)
            && |states[4].log| == 2 && states[4].log[0] == (2, Done) && states[4].log[1].1.Entity?
  {
    var states := Overlapped(t, Update(id, u, e1), Delete(id, e2)).0;
    assert states[2].pending[1] == Pending(Update(id, u, e1), t[id]);
    assert states[3].log == [(2, Done)];
    assert states[3].pending[1] == Pending(Update(id, u, e1), t[id]);
  }

  lemma SerialDeleteFirst(t: Table, update: (Rid, Request), delete: (Rid, Request))
    requires update.1.Update? && delete.1.Delete? && update.1.id == delete.1.id && LiveIn(t, update.1.id)
    requires delete.1.env.readFault.None? && delete.1.env.writeFault.None? && update.1.env.readFault.None?
    requires WellFormed(t)
    ensures Serial(t, [], [delete, update]).1 == [(delete.0, Done), (update.0, Failed(NotFound))]
  {
    SerialOfTwo(t, delete, update);
    assert Tombstoned(Serve(t, delete.1).0, update.1.id);
  }

  lemma SerialUpdateFirst(t: Table, update: (Rid, Request), delete: (Rid, Request))
    requires update.1.Update? && delete.1.Delete? && update.1.id == delete.1.id && LiveIn(t, update.1.id)
    requires delete.1.env.readFault.None? && delete.1.env.writeFault.None?
    requires WellFormed(t)
    ensures Tombstoned(Serial(t, [], [update, delete]).0, delete.1.id)
  {
    SerialOfTwo(t, update, delete);
    ServeWellFormed(t, update.1);
    assert LiveIn(Serve(t, update.1).0, delete.1.id);
  }

  /** Neither serial order of the two does that: one leaves a tombstone, the other fails the update. */
  lemma LostDelete(t: Table, id: Id, u: UpdateInput, e1: Env, e2: Env)
    requires WellFormed(t) && LiveIn(t, id) && CheckHolds(Apply(t[id], u))
    requires e1.readFault.None? && e1.writeFault.None? && e2.readFault.None? && e2.writeFault.None?
    ensures var (states, steps) := Overlapped(t, Update(id, u, e1), Delete(id, e2));
            var update, delete := (1, Update(id, u, e1)), (2, Delete(id, e2));
            && IsRun(states, steps) && states[0] == Init(t)
            && Serial(t, [], [update, delete]).0 != states[4].table
            && Serial(t, [], [delete, update]).1 != states[4].log
  {
    var update, delete := (1, Update(id, u, e1)), (2, Delete(id, e2));
    OverlappedIsRun(t, update.1, delete.1);
    StaleUpdateWins(t, id, u, e1, e2);
    SerialDeleteFirst(t, update, delete);
    SerialUpdateFirst(t, update, delete);
  }
}
