/**
 What the write step of an update or a delete leaves in any interleaving: the
 row as the request read it, however stale, with the request's own changes.
 Writes of others in between are lost.
 */
module StaleWrites {
  import opened Wrappers
  import opened Reflection
  import opened Categories
  import opened Requests
  import opened RowStore
  import opened SimpleStore
  import opened Histories
  import opened Interleavings
  import opened Resurrections

  /** Request `rid` read row `id` of table `read` in step `i`, has been pending since, and writes in step `k`. */
  predicate ReadThenWrites(states: seq<State>, steps: seq<Step>, rid: Rid, r: Request, i: nat, k: nat)
    requires |states| == |steps| + 1
  {
    && i < k < |steps|
    && steps[i] == Start(rid, r) && steps[k] == Finish(rid)
    && forall n | i < n <= k :: rid in states[n].pending
  }

  /** The step changes one row of the table to `row`, and its request is answered. */
  predicate Writes(s: State, s': State, rid: Rid, row: Category, answer: Response) {
    && s'.table == s.table[row.id := row]
    && s'.pending == s.pending - {rid}
    && s'.log == s.log + [(rid, answer)]
  }

  /** Whatever else is pending, starting an update or delete of a live row reads that row and does nothing more. */
  lemma StartReads(s: State, rid: Rid, r: RowWrite)
    requires rid !in s.pending && r.env.readFault.None? && LiveIn(s.table, r.id)
    ensures Next(s, Start(rid, r)) == State(s.table, s.pending[rid := Pending(r, s.table[r.id])], s.log)
  {
  }

  /** Whatever else is pending, any other start is the whole request, answered at once. */
  lemma StartAnswers(s: State, rid: Rid, r: Request)
    requires rid !in s.pending && !(TwoStep(r) && r.env.readFault.None? && LiveIn(s.table, r.id))
    ensures Next(s, Start(rid, r)) == State(Serve(s.table, r).0, s.pending, s.log + [(rid, Serve(s.table, r).1)])
  {
  }

  /** The read behind a write step. */
  lemma FindStart(t: Table, states: seq<State>, steps: seq<Step>, k: nat) returns (i: nat)
    requires WellFormed(t) && IsRun(states, steps) && states[0] == Init(t)
    requires k < |steps| && steps[k].Finish? && steps[k].rid in states[k].pending
    ensures var p := states[k].pending[steps[k].rid];
            && i < k && ReadThenWrites(states, steps, steps[k].rid, p.request, i, k)
            && LiveIn(states[i].table, p.request.id) && p.row == states[i].table[p.request.id]
            && Inv(states[k]) && states[k + 1] == Next(states[k], steps[k])
  {
    i := FindRead(states, steps, steps[k].rid, k);
    RunKeeps(states, steps);
  }

  /** A successful update leaves the row it read with the given source, tenant and name and a new updated_at. */
  lemma UpdateWrites(t: Table, states: seq<State>, steps: seq<Step>, k: nat, u: UpdateInput, env: Env, id: Id)
    returns (i: nat)
    requires WellFormed(t) && IsRun(states, steps) && states[0] == Init(t) && k < |steps|
    requires WritesUpdate(states[k], steps[k], id)
    requires states[k].pending[steps[k].rid].request == Update(id, u, env)
    ensures ReadThenWrites(states, steps, steps[k].rid, Update(id, u, env), i, k) && id in states[i].table
    ensures var read := states[i].table[id];
            var row := Category(
              id,
              if u.source.Some? then u.source.value else read.source,
              if u.tenantId.Some? then Some(u.tenantId.value) else read.tenantId,
              if u.name.Some? then u.name.value else read.name,
              read.createdAt, env.now, None);
            Writes(states[k], states[k + 1], steps[k].rid, row, Entity(row))
  {
    i := FindStart(t, states, steps, k);
  }

  /** A delete leaves the row it read with both stamps, and fails on nothing but its write. */
  lemma DeleteWrites(t: Table, states: seq<State>, steps: seq<Step>, k: nat, env: Env, id: Id) returns (i: nat)
    requires WellFormed(t) && IsRun(states, steps) && states[0] == Init(t) && k < |steps|
    requires WritesDelete(states[k], steps[k], id) && env.writeFault.None?
    requires states[k].pending[steps[k].rid].request == Delete(id, env)
    ensures ReadThenWrites(states, steps, steps[k].rid, Delete(id, env), i, k) && id in states[i].table
    ensures var read := states[i].table[id];
            var row := Category(
              id, read.source, read.tenantId, read.name, read.createdAt, env.now, Some(env.now));
            Writes(states[k], states[k + 1], steps[k].rid, row, Done)
  {
    i := FindStart(t, states, steps, k);
  }

  /** A write that fails, or that the CHECK refuses, leaves the table and is an internal error. */
  lemma RefusedWrite(t: Table, states: seq<State>, steps: seq<Step>, k: nat)
    requires WellFormed(t) && IsRun(states, steps) && states[0] == Init(t)
    requires k < |steps| && steps[k].Finish? && steps[k].rid in states[k].pending
    requires var p := states[k].pending[steps[k].rid];
             p.request.env.writeFault.Some? || !CheckHolds(NewRow(p.request, p.row))
    ensures states[k + 1].table == states[k].table
    ensures states[k + 1].pending == states[k].pending - {steps[k].rid}
    ensures states[k + 1].log == states[k].log + [(steps[k].rid, Failed(Internal))]
  {
    var i := FindStart(t, states, steps, k);
  }

  /** Of two overlapped updates both succeed, and the row is as if the one that wrote first had never been made. */
  lemma LostUpdate(t: Table, id: Id, u: UpdateInput, v: UpdateInput, e1: Env, e2: Env)
    requires WellFormed(t) && LiveIn(t, id) && CheckHolds(Apply(t[id], u)) && CheckHolds(Apply(t[id], v))
    requires e1.readFault.None? && e1.writeFault.None? && e2.readFault.None? && e2.writeFault.None?
    ensures var (states, steps) := Overlapped(t, Update(id, u, e1), Update(id, v, e2));
            && IsRun(states, steps) && states[0] == Init(t)
            && |states[4].log| == 2 && states[4].log[0].1.Entity? && states[4].log[1].1.Entity?
            && states[4].table == Serve(t, Update(id, u, e1)).0
  {
    var a, b := Update(id, u, e1), Update(id, v, e2);
    var states := Overlapped(t, a, b).0;
    OverlappedIsRun(t, a, b);
    assert states[2].pending[1] == Pending(a, t[id]) && states[2].pending[2] == Pending(b, t[id]);
    assert states[3].pending[1] == Pending(a, t[id]);
    assert states[3].log == [(2, Entity(NewRow(b, t[id])))];
    assert states[4].table == states[3].table[id := NewRow(a, t[id])];
  }

  /** A tenant's category is renamed while it moves to another tenant: both are told they succeeded, and it stays. */
  lemma LostMove(t: Table, id: Id, from: Id, to: Id, name: string, e1: Env, e2: Env)
    requires WellFormed(t) && LiveIn(t, id) && t[id].source == "tenant" && t[id].tenantId == Some(from) && from != to
    requires e1.readFault.None? && e1.writeFault.None? && e2.readFault.None? && e2.writeFault.None?
    ensures var rename := Update(id, UpdateInput(None, None, Some(name)), e1);
            var move := Update(id, UpdateInput(None, Some(to), None), e2);
            var states := Overlapped(t, rename, move).0;
            && |states[4].log| == 2 && states[4].log[0].1.Entity? && states[4].log[1].1.Entity?
            && id in states[3].table && states[3].table[id].tenantId == Some(to)
            && id in states[4].table && states[4].table[id].tenantId == Some(from)
            && states[4].table[id].name == name
            && Serial(t, [], [(1, rename), (2, move)]).0 != states[4].table
            && Serial(t, [], [(2, move), (1, rename)]).0 != states[4].table
  {
    var rename := Update(id, UpdateInput(None, None, Some(name)), e1);
    var move := Update(id, UpdateInput(None, Some(to), None), e2);
    LostUpdate(t, id, rename.update, move.update, e1, e2);
    SerialOfTwo(t, (1, rename), (2, move));
    SerialOfTwo(t, (2, move), (1, rename));
    MovedEitherWay(t, id, to, name, e1, e2);
    var states := Overlapped(t, rename, move).0;
    assert states[2].pending[2] == Pending(move, t[id]);
  }

  /** In either serial order the category has moved. */
  lemma MovedEitherWay(t: Table, id: Id, to: Id, name: string, e1: Env, e2: Env)
    requires WellFormed(t) && LiveIn(t, id) && t[id].source == "tenant"
    requires e1.readFault.None? && e1.writeFault.None? && e2.readFault.None? && e2.writeFault.None?
    ensures var rename := Update(id, UpdateInput(None, None, Some(name)), e1);
            var move := Update(id, UpdateInput(None, Some(to), None), e2);
            var renamed, moved := Serve(t, rename).0, Serve(t, move).0;
            && LiveIn(Serve(renamed, move).0, id) && Serve(renamed, move).0[id].tenantId == Some(to)
            && LiveIn(Serve(moved, rename).0, id) && Serve(moved, rename).0[id].tenantId == Some(to)
  {
  }
}
