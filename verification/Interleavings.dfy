/**
 Concurrent requests. Updates and deletes read a row in one step and write it
 back in another, with any steps of other requests in between; every other
 request is a single step.
 */
module Interleavings {
  import opened Wrappers
  import opened Categories
  import opened Requests
  import opened SimpleStore
  import opened Histories
  import opened Reflection

  type Rid = nat

  /** An update or delete that has read its row and not yet written. */
  datatype Pending = Pending(request: RowWrite, row: Category)

  datatype State = State(table: Table, pending: map<Rid, Pending>, log: seq<(Rid, Response)>)

  /**
   `Start` runs the first step of a request, which is the only one unless it
   reads successfully for an update or delete; `Finish` runs the write step.
   Starting a pending request id again, or finishing one that is not pending,
   does nothing.
   */
  datatype Step = Start(rid: Rid, request: Request) | Finish(rid: Rid)

  function Next(s: State, step: Step): State {
    match step
    case Start(rid, r) =>
      if rid in s.pending then s
      else if TwoStep(r) then
        (match Begin(s.table, r)
         case Ok(row) => s.(pending := s.pending[rid := Pending(r, row)])
         case Err(code) => s.(log := s.log + [(rid, Failed(code))]))
      else
        var (t, answer) := Serve(s.table, r);
        s.(table := t, log := s.log + [(rid, answer)])
    case Finish(rid) =>
      if rid !in s.pending then s
      else
        var (t, answer) := Requests.Finish(s.table, s.pending[rid].request, s.pending[rid].row);
        State(t, s.pending - {rid}, s.log + [(rid, answer)])
  }

  /** The states an interleaving passes through. */
  ghost predicate IsRun(states: seq<State>, steps: seq<Step>) {
    && |states| == |steps| + 1
    && forall i {:trigger steps[i]} | 0 <= i < |steps| :: states[i + 1] == Next(states[i], steps[i])
  }

  function Init(t: Table): State {
    State(t, map[], [])
  }

  // ----------------------------------------------------------------- invariants

  /** Rows read are rows of some past table: right id, CHECK satisfied, live. */
  ghost predicate Inv(s: State) {
    && WellFormed(s.table)
    && forall rid | rid in s.pending ::
      var p := s.pending[rid];
      && p.request.id in s.table
      && p.row.id == p.request.id
      && p.row.createdAt == s.table[p.row.id].createdAt
      && CheckHolds(p.row) && Live(p.row)
  }

  /** What even overlapping writes cannot do: lose a row, or change its id or creation time. */
  ghost predicate Keeps(before: Table, after: Table) {
    forall id | id in before ::
      id in after && after[id].id == before[id].id && after[id].createdAt == before[id].createdAt
  }

  lemma StartKeeps(s: State, rid: Rid, r: Request)
    requires Inv(s)
    ensures Inv(Next(s, Start(rid, r))) && Keeps(s.table, Next(s, Start(rid, r)).table)
  {
    ServeEvolves(s.table, r);
  }

  lemma FinishKeeps(s: State, rid: Rid)
    requires Inv(s)
    ensures Inv(Next(s, Finish(rid))) && Keeps(s.table, Next(s, Finish(rid)).table)
  {
  }

  /** Safety of every interleaving whatsoever: the CHECKs hold, rows stay, ids and creation times are fixed. */
  lemma {:induction false} RunKeeps(states: seq<State>, steps: seq<Step>)
    requires IsRun(states, steps) && Inv(states[0])
    ensures forall i | 0 <= i < |states| :: Inv(states[i]) && Keeps(states[0].table, states[i].table)
    decreases |steps|
  {
    if steps == [] {
    } else {
      var n := |steps| - 1;
      RunKeeps(states[..n + 1], steps[..n]);
      assert Inv(states[n]) && states[n + 1] == Next(states[n], steps[n]);
      StepKeeps(states[n], steps[n]);
      forall i | 0 <= i < |states| ensures Inv(states[i]) && Keeps(states[0].table, states[i].table) {
        assert i <= n ==> states[i] == states[..n + 1][i];
      }
    }
  }

  lemma StepKeeps(s: State, step: Step)
    requires Inv(s)
    ensures Inv(Next(s, step)) && Keeps(s.table, Next(s, step).table)
  {
    match step
    case Start(rid, r) => StartKeeps(s, rid, r);
    case Finish(rid) => FinishKeeps(s, rid);
  }

  // -------------------------------------------------------------- linearization

  /** The requests of an interleaving in the order of their effective steps. */
  function Effective(states: seq<State>, steps: seq<Step>): seq<(Rid, Request)>
    requires |states| == |steps| + 1
    decreases |steps|
  {
    if steps == [] then []
    else EffectOf(states[0], steps[0]) + Effective(states[1..], steps[1..])
  }

  /** The request, if any, that takes its effect and gets its answer in this step. */
  function EffectOf(s: State, step: Step): seq<(Rid, Request)> {
    match step
    case Start(rid, r) =>
      if rid in s.pending || (TwoStep(r) && Begin(s.table, r).Ok?) then [] else [(rid, r)]
    case Finish(rid) =>
      if rid in s.pending then [(rid, s.pending[rid].request)] else []
  }

  /** A serial execution: requests one at a time, with the log they produce. */
  function Serial(t: Table, log: seq<(Rid, Response)>, requests: seq<(Rid, Request)>)
    : (Table, seq<(Rid, Response)>)
    decreases |requests|
  {
    if requests == [] then (t, log)
    else
      var (t', answer) := Serve(t, requests[0].1);
      Serial(t', log + [(requests[0].0, answer)], requests[1..])
  }

  predicate SameRow(t: Table, t': Table, id: Id) {
    (id in t <==> id in t') && (id in t ==> t[id] == t'[id])
  }

  /** Step `k` changes row `id`. */
  ghost predicate WritesRow(states: seq<State>, k: nat, id: Id)
    requires k + 1 < |states|
  {
    !SameRow(states[k].table, states[k + 1].table, id)
  }

  /**
   No overlap: while a request has read row `id` and will still write it (in
   step `j`), no step `k` but that write itself changes the row.
   */
  ghost predicate NoOverlap(states: seq<State>, steps: seq<Step>)
    requires |states| == |steps| + 1
  {
    forall k, j | 0 <= k < j < |steps| && steps[j].Finish? && steps[j].rid in states[k].pending
                  && steps[k] != steps[j] ::
      !WritesRow(states, k, states[k].pending[steps[j].rid].request.id)
  }

  /** What requests that will still write have read is what the table holds. */
  ghost predicate ReadsCurrent(s: State, steps: seq<Step>) {
    forall rid | rid in s.pending && Finish(rid) in steps ::
      var p := s.pending[rid];
      Begin(s.table, p.request) == Ok(p.row)
  }

  /** One step against the serial execution of the request that takes effect in it. */
  lemma StepIsSerial(s: State, step: Step)
    requires step.Finish? && step.rid in s.pending ==>
               Begin(s.table, s.pending[step.rid].request) == Ok(s.pending[step.rid].row)
    ensures Serial(s.table, s.log, EffectOf(s, step)) == (Next(s, step).table, Next(s, step).log)
  {
    var e := EffectOf(s, step);
    if e != [] {
      assert e[1..] == [];
      var (t', answer) := Serve(s.table, e[0].1);
      assert Serial(s.table, s.log, e) == Serial(t', s.log + [(e[0].0, answer)], []);
    }
  }

  lemma {:induction false} SerialAppend(
      t: Table, log: seq<(Rid, Response)>, a: seq<(Rid, Request)>, b: seq<(Rid, Request)>)
    requires |a| <= 1
    ensures Serial(t, log, a + b) == Serial(Serial(t, log, a).0, Serial(t, log, a).1, b)
  {
    if a == [] {
      assert a + b == b;
    } else {
      assert (a + b)[1..] == b && a[1..] == [];
    }
  }

  /** Reads stay current across a step that does not overlap them. */
  lemma ReadsStayCurrent(states: seq<State>, steps: seq<Step>)
    requires IsRun(states, steps) && steps != [] && NoOverlap(states, steps)
    requires ReadsCurrent(states[0], steps)
    ensures ReadsCurrent(states[1], steps[1..])
  {
    var s, s' := states[0], states[1];
    assert s' == Next(s, steps[0]);
    forall rid | rid in s'.pending && Finish(rid) in steps[1..]
      ensures Begin(s'.table, s'.pending[rid].request) == Ok(s'.pending[rid].row)
    {
      if rid in s.pending && steps[0] != Finish(rid) {
        assert s'.pending[rid] == s.pending[rid];
        var j :| 0 <= j < |steps[1..]| && steps[1..][j] == Finish(rid);
        assert steps[j + 1] == Finish(rid) && Finish(rid) in steps;
        assert !WritesRow(states, 0, s.pending[rid].request.id);
      }
    }
  }

  lemma SuffixOfRun(states: seq<State>, steps: seq<Step>)
    requires IsRun(states, steps) && steps != [] && NoOverlap(states, steps)
    ensures IsRun(states[1..], steps[1..]) && NoOverlap(states[1..], steps[1..])
  {
    var states', steps' := states[1..], steps[1..];
    assert forall i | 0 <= i < |steps'| :: states'[i] == states[i + 1] && steps'[i] == steps[i + 1];
    forall k, j | 0 <= k < j < |steps'| && steps'[j].Finish? && steps'[j].rid in states'[k].pending
                  && steps'[k] != steps'[j]
      ensures !WritesRow(states', k, states'[k].pending[steps'[j].rid].request.id)
    {
      assert !WritesRow(states, k + 1, states[k + 1].pending[steps[j + 1].rid].request.id);
    }
  }

  /** Linearization: without overlapping writes, table and answers are those of a serial run in effect order. */
  lemma {:induction false} Linearization(states: seq<State>, steps: seq<Step>)
    requires IsRun(states, steps) && NoOverlap(states, steps)
    requires ReadsCurrent(states[0], steps)
    ensures Serial(states[0].table, states[0].log, Effective(states, steps))
         == (states[|steps|].table, states[|steps|].log)
    decreases |steps|
  {
    if steps == [] {
    } else {
      var s := states[0];
      var states', steps' := states[1..], steps[1..];
      assert states[1] == Next(s, steps[0]);
      assert steps[0] in steps;
      StepIsSerial(s, steps[0]);
      ReadsStayCurrent(states, steps);
      SuffixOfRun(states, steps);
      Linearization(states', steps');
      SerialAppend(s.table, s.log, EffectOf(s, steps[0]), Effective(states', steps'));
    }
  }

  /** The theorem for interleavings that start from a table alone. */
  lemma LinearizationFromTable(t: Table, states: seq<State>, steps: seq<Step>)
    requires IsRun(states, steps) && states[0] == Init(t) && NoOverlap(states, steps)
    ensures Serial(t, [], Effective(states, steps)) == (states[|steps|].table, states[|steps|].log)
  {
    Linearization(states, steps);
  }

  // --------------------------------------------------------------------- stamps

  /** The clock a step writes with; a step that writes nothing leaves `latest`. */
  function ClockOf(s: State, step: Step, latest: Time): Time {
    match step
    case Start(rid, r) => if rid in s.pending || TwoStep(r) then latest else r.env.now
    case Finish(rid) => if rid in s.pending then s.pending[rid].request.env.now else latest
  }

  /** The clock does not run backwards from one write to the next. */
  ghost predicate WriteClockRuns(states: seq<State>, steps: seq<Step>, latest: Time)
    requires |states| == |steps| + 1
    decreases |steps|
  {
    steps == [] ||
    (&& latest <= ClockOf(states[0], steps[0], latest)
     && WriteClockRuns(states[1..], steps[1..], ClockOf(states[0], steps[0], latest)))
  }

  lemma StepStamps(s: State, step: Step, latest: Time)
    requires Inv(s) && Stamped(s.table, latest) && latest <= ClockOf(s, step, latest)
    ensures Stamped(Next(s, step).table, ClockOf(s, step, latest))
  {
    if step.Start? && !TwoStep(step.request) && step.rid !in s.pending {
      ServeStamps(s.table, step.request, latest);
    }
  }

  /** Overlapping writes or not, created_at <= updated_at, and deleted_at equals updated_at in every tombstone. */
  lemma {:induction false} ConcurrentStamps(states: seq<State>, steps: seq<Step>, latest: Time)
    requires IsRun(states, steps) && Inv(states[0]) && Stamped(states[0].table, latest)
    requires WriteClockRuns(states, steps, latest)
    ensures forall i, id | 0 <= i < |states| && id in states[i].table :: StampsOrdered(states[i].table[id])
    decreases |steps|
  {
    if steps == [] {
    } else {
      assert states[1] == Next(states[0], steps[0]);
      StepKeeps(states[0], steps[0]);
      StepStamps(states[0], steps[0], latest);
      var states', steps' := states[1..], steps[1..];
      assert forall i | 0 <= i < |steps'| :: states'[i] == states[i + 1] && steps'[i] == steps[i + 1];
      ConcurrentStamps(states', steps', ClockOf(states[0], steps[0], latest));
      forall i, id | 0 <= i < |states| && id in states[i].table ensures StampsOrdered(states[i].table[id]) {
        if i > 0 {
          assert states[i] == states'[i - 1];
        }
      }
    }
  }
}
