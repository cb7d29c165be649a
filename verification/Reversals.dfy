/**
 How a tenant category can become an app one again, which no sequential run
 allows: only through a stale write, and never where writes do not overlap.
 */
module Reversals {
  import opened Wrappers
  import opened Categories
  import opened Requests
  import opened SimpleStore
  import opened Histories
  import opened Interleavings
  import opened Resurrections

  predicate HasSource(t: Table, id: Id, source: string) {
    id in t && t[id].source == source
  }

  /**
   The step writes a row that was read as an app row, by an update that does not
   itself move it to a tenant or by a delete, with no failure and a row the
   CHECK accepts.
   */
  predicate WritesBackApp(s: State, step: Step, id: Id) {
    && step.Finish? && step.rid in s.pending
    && var p := s.pending[step.rid];
    && p.request.id == id && p.row.source == SOURCE_APP
    && (p.request.Update? ==> p.request.update.source != Some(SOURCE_TENANT))
    && p.request.env.writeFault.None? && CheckHolds(NewRow(p.request, p.row))
  }

  /** One step turns a tenant category into an app one exactly when it writes back a row read as an app row. */
  lemma RevertingStepIff(s: State, step: Step, id: Id)
    requires Inv(s) && HasSource(s.table, id, SOURCE_TENANT)
    ensures HasSource(Next(s, step).table, id, SOURCE_APP) <==> WritesBackApp(s, step, id)
  {
    assert SOURCE_APP != SOURCE_TENANT;
    if step.Start? {
      ServeEvolves(s.table, step.request);
    }
  }

  lemma {:induction false} FindMove(states: seq<State>, steps: seq<Step>, id: Id, i: nat, k: nat) returns (m: nat)
    requires IsRun(states, steps) && forall n | 0 <= n < |states| :: Inv(states[n])
    requires i < k < |states|
    requires HasSource(states[i].table, id, SOURCE_APP) && HasSource(states[k].table, id, SOURCE_TENANT)
    ensures i <= m < k
    ensures HasSource(states[m].table, id, SOURCE_APP) && HasSource(states[m + 1].table, id, SOURCE_TENANT)
    decreases k
  {
    RowStays(states, steps, id, i, k - 1);
    assert Inv(states[k - 1]);
    if HasSource(states[k - 1].table, id, SOURCE_APP) {
      m := k - 1;
    } else {
      assert SOURCE_APP != SOURCE_TENANT;
      m := FindMove(states, steps, id, i, k - 1);
    }
  }

  /** The exact cause of a reversal: a request that read the category as an app one before it moved to a tenant. */
  lemma CauseOfReversal(t: Table, states: seq<State>, steps: seq<Step>, k: nat, id: Id)
    returns (i: nat, m: nat)
    requires WellFormed(t) && IsRun(states, steps) && states[0] == Init(t) && k < |steps|
    requires HasSource(states[k].table, id, SOURCE_TENANT) && HasSource(states[k + 1].table, id, SOURCE_APP)
    ensures i < m < k
    ensures WritesBackApp(states[k], steps[k], id)
    ensures ReadAt(states, steps, steps[k].rid, i, k) && HasSource(states[i].table, id, SOURCE_APP)
    ensures HasSource(states[m].table, id, SOURCE_APP) && HasSource(states[m + 1].table, id, SOURCE_TENANT)
  {
    RunKeeps(states, steps);
    assert states[k + 1] == Next(states[k], steps[k]);
    RevertingStepIff(states[k], steps[k], id);
    i := FindRead(states, steps, steps[k].rid, k);
    m := FindMove(states, steps, id, i + 1, k);
  }

  // ------------------------------------------------------------ without overlaps

  lemma EvolvesTransitive(t: Table, t': Table, t'': Table)
    requires Evolves(t, t') && Evolves(t', t'')
    ensures Evolves(t, t'')
  {
  }

  /** A step whose request, if it writes now, has read the current row is a sequential step. */
  lemma CurrentStepEvolves(s: State, step: Step)
    requires WellFormed(s.table)
    requires step.Finish? && step.rid in s.pending ==>
               Begin(s.table, s.pending[step.rid].request) == Ok(s.pending[step.rid].row)
    ensures WellFormed(Next(s, step).table) && Evolves(s.table, Next(s, step).table)
  {
    match step
    case Start(rid, r) => ServeEvolves(s.table, r);
    case Finish(rid) =>
      if rid in s.pending {
        ServeEvolves(s.table, s.pending[rid].request);
      }
  }

  lemma {:induction false} CurrentRunEvolves(states: seq<State>, steps: seq<Step>)
    requires IsRun(states, steps) && NoOverlap(states, steps)
    requires WellFormed(states[0].table) && ReadsCurrent(states[0], steps)
    ensures forall i, j | 0 <= i <= j < |states| :: Evolves(states[i].table, states[j].table)
    decreases |steps|
  {
    if steps == [] {
    } else {
      assert states[1] == Next(states[0], steps[0]) && steps[0] in steps;
      CurrentStepEvolves(states[0], steps[0]);
      ReadsStayCurrent(states, steps);
      SuffixOfRun(states, steps);
      CurrentRunEvolves(states[1..], steps[1..]);
      forall i, j | 0 <= i <= j < |states| ensures Evolves(states[i].table, states[j].table) {
        if j > 0 {
          assert states[j] == states[1..][j - 1];
          if i > 0 {
            assert states[i] == states[1..][i - 1];
          } else {
            assert Evolves(states[1..][0].table, states[1..][j - 1].table);
            EvolvesTransitive(states[0].table, states[1].table, states[j].table);
          }
        }
      }
    }
  }

  /** Where writes do not overlap, no concurrent run reverts a source, or loses or re-dates a row, between any two of its states. */
  lemma NoOverlapEvolves(t: Table, states: seq<State>, steps: seq<Step>)
    requires WellFormed(t) && IsRun(states, steps) && states[0] == Init(t) && NoOverlap(states, steps)
    ensures forall i, j | 0 <= i <= j < |states| :: Evolves(states[i].table, states[j].table)
  {
    CurrentRunEvolves(states, steps);
  }

  /** A stale rename can turn a tenant category back into an app one, which no sequential run does. */
  lemma StaleRenameRevertsSource(t: Table, id: Id, tenant: Id, name: string, e1: Env, e2: Env)
    requires WellFormed(t) && LiveIn(t, id) && t[id].source == SOURCE_APP
    requires e1.readFault.None? && e1.writeFault.None? && e2.readFault.None? && e2.writeFault.None?
    ensures var rename := Update(id, UpdateInput(None, None, Some(name)), e1);
            var move := Update(id, UpdateInput(Some(SOURCE_TENANT), Some(tenant), None), e2);
            var states := Overlapped(t, rename, move).0;
            && IsRun(states, Overlapped(t, rename, move).1)
            && id in states[3].table && states[3].table[id].source == SOURCE_TENANT
            && id in states[4].table && states[4].table[id].source == SOURCE_APP
  {
    var rename := Update(id, UpdateInput(None, None, Some(name)), e1);
    var move := Update(id, UpdateInput(Some(SOURCE_TENANT), Some(tenant), None), e2);
    var states := Overlapped(t, rename, move).0;
    OverlappedIsRun(t, rename, move);
    assert states[2].pending == map[1 := Pending(rename, t[id]), 2 := Pending(move, t[id])];
    assert states[3].pending[1] == Pending(rename, t[id]);
  }
}
