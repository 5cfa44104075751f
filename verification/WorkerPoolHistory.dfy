/**
  Where what the pool publishes comes from, over whole runs
  (src/idamesh/infrastructure/process/worker_pool.py): a session's id is the one its open asked for or
  was given, its process the one its open launched, and its endpoint the one the handshake reported.
*/
module WorkerPoolHistory {
  import opened Common
  import opened WorkerPool
  import WorkerPoolRuns

  // ---------------------------------------------------------------- the last action of one kind

  predicate OpensFor(a: Action, op: OpId) { a.Open? && a.op == op }

  predicate LaunchesFor(a: Action, op: OpId) { a.Launch? && a.op == op }

  predicate HandshakesFor(a: Action, op: OpId) { a.Handshake? && a.op == op }

  /** `acts[i]` is the last open by `op`. */
  predicate IsLastOpen(acts: seq<Action>, op: OpId, i: int) {
    0 <= i < |acts| && OpensFor(acts[i], op) && forall j :: i < j < |acts| ==> !OpensFor(acts[j], op)
  }

  predicate IsLastLaunch(acts: seq<Action>, op: OpId, i: int) {
    0 <= i < |acts| && LaunchesFor(acts[i], op) && forall j :: i < j < |acts| ==> !LaunchesFor(acts[j], op)
  }

  predicate IsLastHandshake(acts: seq<Action>, op: OpId, i: int) {
    0 <= i < |acts| && HandshakesFor(acts[i], op) && forall j :: i < j < |acts| ==> !HandshakesFor(acts[j], op)
  }

  /** The id an open works under: the one preferred, unless there is none or it is empty. */
  predicate WorksUnder(a: Action, id: SessionId)
    requires a.Open?
  {
    id == match a.preferred
          case Some(preferred) => if preferred.text == "" then a.minted else preferred
          case None => a.minted
  }

  ghost predicate OpenedAs(acts: seq<Action>, op: OpId, r: Ref, id: SessionId) {
    exists i :: IsLastOpen(acts, op, i) && acts[i].ref == r && WorksUnder(acts[i], id)
  }

  ghost predicate LaunchedAs(acts: seq<Action>, op: OpId, pid: Pid) {
    exists i :: IsLastLaunch(acts, op, i) && acts[i].pid == pid
  }

  ghost predicate BoundAs(acts: seq<Action>, op: OpId, port: nat, token: string) {
    exists i :: IsLastHandshake(acts, op, i) && acts[i].port == port && acts[i].token == token
  }

  // ---------------------------------------------------------------- what program counters remember

  ghost predicate Remembers(s: State, acts: seq<Action>, op: OpId) {
    op in s.ops && IsOpen(s.ops[op]) ==>
      var x := s.ops[op];
      && x.ref in s.pool.records
      && OpenedAs(acts, op, x.ref, s.pool.records[x.ref].id)
      && (Holds(x) ==> LaunchedAs(acts, op, x.pid))
      && (x.Bound? ==> BoundAs(acts, op, x.port, x.token))
  }

  lemma StillOpened(acts: seq<Action>, a: Action, op: OpId, r: Ref, id: SessionId)
    requires OpenedAs(acts, op, r, id) && !OpensFor(a, op)
    ensures OpenedAs(acts + [a], op, r, id)
  {
    var i :| IsLastOpen(acts, op, i) && acts[i].ref == r && WorksUnder(acts[i], id);
    assert IsLastOpen(acts + [a], op, i);
  }

  lemma StillLaunched(acts: seq<Action>, a: Action, op: OpId, pid: Pid)
    requires LaunchedAs(acts, op, pid) && !LaunchesFor(a, op)
    ensures LaunchedAs(acts + [a], op, pid)
  {
    var i :| IsLastLaunch(acts, op, i) && acts[i].pid == pid;
    assert IsLastLaunch(acts + [a], op, i);
  }

  lemma StillBound(acts: seq<Action>, a: Action, op: OpId, port: nat, token: string)
    requires BoundAs(acts, op, port, token) && !HandshakesFor(a, op)
    ensures BoundAs(acts + [a], op, port, token)
  {
    var i :| IsLastHandshake(acts, op, i) && acts[i].port == port && acts[i].token == token;
    assert IsLastHandshake(acts + [a], op, i);
  }

  lemma NowDone(acts: seq<Action>, a: Action)
    ensures a.Open? ==> IsLastOpen(acts + [a], a.op, |acts|)
    ensures a.Launch? ==> IsLastLaunch(acts + [a], a.op, |acts|)
    ensures a.Handshake? ==> IsLastHandshake(acts + [a], a.op, |acts|)
  {
  }

  /** How one step moves one operation on. */
  lemma OneOp(s: State, a: Action, op: OpId)
    requires Enabled(s, a) && op in Apply(s, a).ops && IsOpen(Apply(s, a).ops[op])
    ensures var y := Apply(s, a).ops[op];
      if op !in s.ops then
        && a.Open? && a.op == op && y == Preparing(a.ref)
        && a.ref in Apply(s, a).pool.records && WorksUnder(a, Apply(s, a).pool.records[a.ref].id)
      else
        && IsOpen(s.ops[op]) && y.ref == s.ops[op].ref && !OpensFor(a, op)
        && (Holds(y) ==> if LaunchesFor(a, op) then y.pid == a.pid else Holds(s.ops[op]) && y.pid == s.ops[op].pid)
        && (y.Bound? ==>
              if HandshakesFor(a, op) then y.port == a.port && y.token == a.token
              else s.ops[op] == y)
  {
    hide Commit, Pop, Get, Terminate, Reap, HasExited, IsAlive, Known, Registered;
    if a.Open? {
      var r := Reserve(s.pool, a.preferred, a.minted, a.ref);
      assert r.1.Reserved? ==> r.1.ref == a.ref && r.0.records[a.ref].id == ChosenId(a.preferred, a.minted);
    }
  }

  /** A record keeps its id for good; only an attach or a commit of its own open changes the rest. */
  lemma IdStays(s: State, a: Action, r: Ref)
    requires Enabled(s, a) && r in s.pool.records
    ensures r in Apply(s, a).pool.records && Apply(s, a).pool.records[r].id == s.pool.records[r].id
    ensures ((a.Attach? || a.TryCommit?) && s.ops[a.op].ref == r) || Apply(s, a).pool.records[r] == s.pool.records[r]
  {
    if a.Open? {
      OpenAdds(s, a);
    } else if !a.TryCommit? && !a.Attach? {
      WorkerPoolRuns.SmallerSessions(s, a);
      hide *;
    } else {
      hide Reserve, Pop, Get, Terminate, Reap, Registered;
    }
  }

  lemma OpenAdds(s: State, a: Action)
    requires Enabled(s, a) && a.Open?
    ensures forall r :: r in s.pool.records ==>
      r in Apply(s, a).pool.records && Apply(s, a).pool.records[r] == s.pool.records[r]
    ensures forall r :: r in Apply(s, a).pool.records && r !in s.pool.records ==> Apply(s, a).pool.records[r].port == 0
  {
    hide HasExited, IsAlive, ChosenId;
  }

  lemma StepRemembers(s: State, acts: seq<Action>, a: Action, op: OpId)
    requires Enabled(s, a) && Remembers(s, acts, op)
    ensures Remembers(Apply(s, a), acts + [a], op)
  {
    var t := Apply(s, a);
    if op in t.ops && IsOpen(t.ops[op]) {
      OneOp(s, a, op);
      NowDone(acts, a);
      if op in s.ops {
        var x, y := s.ops[op], t.ops[op];
        IdStays(s, a, y.ref);
        hide Apply, Enabled, OpenedAs, LaunchedAs, BoundAs, IsLastOpen, IsLastLaunch, IsLastHandshake;
        StillOpened(acts, a, op, y.ref, s.pool.records[y.ref].id);
        if Holds(y) {
          RemembersLaunch(acts, a, op, y.pid);
        }
        if y.Bound? {
          RemembersHandshake(acts, a, op, y.port, y.token);
        }
      } else {
        hide Apply, Enabled, IsLastOpen, IsLastLaunch, IsLastHandshake;
        assert (acts + [a])[|acts|] == a;
      }
    }
  }

  lemma RemembersLaunch(acts: seq<Action>, a: Action, op: OpId, pid: Pid)
    requires if LaunchesFor(a, op) then pid == a.pid else LaunchedAs(acts, op, pid)
    ensures LaunchedAs(acts + [a], op, pid)
  {
    if LaunchesFor(a, op) {
      NowDone(acts, a);
      assert (acts + [a])[|acts|] == a;
    } else {
      StillLaunched(acts, a, op, pid);
    }
  }

  lemma RemembersHandshake(acts: seq<Action>, a: Action, op: OpId, port: nat, token: string)
    requires if HandshakesFor(a, op) then port == a.port && token == a.token else BoundAs(acts, op, port, token)
    ensures BoundAs(acts + [a], op, port, token)
  {
    if HandshakesFor(a, op) {
      NowDone(acts, a);
      assert (acts + [a])[|acts|] == a;
    } else {
      StillBound(acts, a, op, port, token);
    }
  }

  // ---------------------------------------------------------------- what is published

  /** `x` is what the commit at step `n` publishes on record `r`, read off the actions before it. */
  ghost predicate CommitGives(acts: seq<Action>, n: int, r: Ref, x: Session) {
    && 0 <= n < |acts| && acts[n].TryCommit? && x.process.Some? && x.token.Some?
    && OpenedAs(acts[..n], acts[n].op, r, x.id)
    && LaunchedAs(acts[..n], acts[n].op, x.process.value)
    && BoundAs(acts[..n], acts[n].op, x.port, x.token.value)
  }

  ghost predicate WasCommitted(acts: seq<Action>, r: Ref, x: Session) {
    exists n :: CommitGives(acts, n, r, x)
  }

  lemma StillCommitted(acts: seq<Action>, a: Action, r: Ref, x: Session)
    requires WasCommitted(acts, r, x)
    ensures WasCommitted(acts + [a], r, x)
  {
    var n :| CommitGives(acts, n, r, x);
    assert (acts + [a])[..n] == acts[..n];
    assert CommitGives(acts + [a], n, r, x);
  }

  /** The commit that returns a session publishes what its own open's last handshake reported. */
  lemma CommitPublishes(s: State, acts: seq<Action>, op: OpId)
    requires Inv(s) && Enabled(s, TryCommit(op)) && Remembers(s, acts, op)
    ensures var p := Apply(s, TryCommit(op)).pool;
      Opened(s, TryCommit(op)).Some? ==>
        var r := Opened(s, TryCommit(op)).value;
        r in p.records && p.records[r].port != 0 && CommitGives(acts + [TryCommit(op)], |acts|, r, p.records[r])
  {
    assert (acts + [TryCommit(op)])[..|acts|] == acts;
    assert OpOk(s.pool, s.ops[op]);
    hide OpenedAs, LaunchedAs, BoundAs, RecordsOk, SessionsOk, Apart;
  }

  /** Once published, a record is never changed again, registered or not. */
  lemma PublishedStays(s: State, a: Action, r: Ref)
    requires Inv(s) && Enabled(s, a)
    requires r in s.pool.records && s.pool.records[r].port != 0
    ensures r in Apply(s, a).pool.records && Apply(s, a).pool.records[r] == s.pool.records[r]
  {
    IdStays(s, a, r);
    if a.Attach? || a.TryCommit? { assert OpOk(s.pool, s.ops[a.op]); }
    hide Inv, Apply, Apart;
  }

  lemma {:induction false} PublishedForGood(s: State, acts: seq<Action>, t: State, r: Ref)
    requires Inv(s) && Run(s, acts, t)
    requires r in s.pool.records && s.pool.records[r].port != 0
    ensures r in t.pool.records && t.pool.records[r] == s.pool.records[r]
    decreases |acts|
  {
    RunUnfolds(s, acts, t);
    hide *;
    if acts != [] {
      StepKeeps(s, acts[0]);
      PublishedStays(s, acts[0], r);
      PublishedForGood(Apply(s, acts[0]), acts[1..], t, r);
    }
  }

  /** A port other than zero appears on a record only by a commit that returns it. */
  lemma NewlyPublished(s: State, a: Action, r: Ref)
    requires Inv(s) && Enabled(s, a)
    requires r in Apply(s, a).pool.records && Apply(s, a).pool.records[r].port != 0
    ensures (r in s.pool.records && s.pool.records[r].port != 0) || (a.TryCommit? && Opened(s, a) == Some(r))
  {
    if a.Open? {
      OpenAdds(s, a);
      hide *;
    } else if !a.TryCommit? && !a.Attach? {
      WorkerPoolRuns.SmallerSessions(s, a);
      hide *;
    } else {
      hide Inv, Reserve, Pop, Get, Terminate, Reap;
    }
  }

  ghost predicate History(s: State, acts: seq<Action>) {
    && (forall op :: Remembers(s, acts, op))
    && forall r :: r in s.pool.records && s.pool.records[r].port != 0 ==> WasCommitted(acts, r, s.pool.records[r])
  }

  lemma StepHistory(s: State, acts: seq<Action>, a: Action)
    requires Inv(s) && Enabled(s, a) && History(s, acts)
    ensures History(Apply(s, a), acts + [a])
  {
    var t := Apply(s, a);
    hide Inv, Apply, Enabled, Opened, Remembers, WasCommitted, CommitGives;
    forall op ensures Remembers(t, acts + [a], op) {
      StepRemembers(s, acts, a, op);
    }
    forall r | r in t.pool.records && t.pool.records[r].port != 0
      ensures WasCommitted(acts + [a], r, t.pool.records[r])
    {
      NewlyPublished(s, a, r);
      if r in s.pool.records && s.pool.records[r].port != 0 {
        PublishedStays(s, a, r);
        StillCommitted(acts, a, r, s.pool.records[r]);
      } else {
        CommitPublishes(s, acts, a.op);
        GivenIsCommitted(acts + [a], |acts|, r, t.pool.records[r]);
      }
    }
  }

  lemma GivenIsCommitted(acts: seq<Action>, n: int, r: Ref, x: Session)
    requires CommitGives(acts, n, r, x)
    ensures WasCommitted(acts, r, x)
  {
  }

  lemma {:induction false} RunHistory(s: State, before: seq<Action>, acts: seq<Action>, t: State)
    requires Inv(s) && History(s, before) && Run(s, acts, t)
    ensures History(t, before + acts)
    decreases |acts|
  {
    RunUnfolds(s, acts, t);
    hide *;
    if acts == [] {
      assert before + acts == before;
    } else {
      StepKeeps(s, acts[0]);
      StepHistory(s, before, acts[0]);
      RunHistory(Apply(s, acts[0]), before + [acts[0]], acts[1..], t);
      assert before + [acts[0]] + acts[1..] == before + acts;
    }
  }

  lemma StartHistory(maxWorkers: nat)
    ensures Inv(Start(maxWorkers)) && History(Start(maxWorkers), [])
  {
  }

  /**
    Every endpoint ever shown is the one handshaken: in any reachable state, a record with a port has the
    id, process, port and token that its open's own actions gave it before one of its commits.
  */
  lemma EndpointsAreHandshaken(maxWorkers: nat, acts: seq<Action>, t: State, r: Ref)
    requires Run(Start(maxWorkers), acts, t)
    requires r in t.pool.records && t.pool.records[r].port != 0
    ensures WasCommitted(acts, r, t.pool.records[r])
  {
    StartHistory(maxWorkers);
    RunHistory(Start(maxWorkers), [], acts, t);
    assert [] + acts == acts;
    hide Run, Inv, WasCommitted, Remembers;
  }

  /** What an open's commit returns carries its last handshake's endpoint, now and after any later steps. */
  lemma OpenPublishesItsHandshake(maxWorkers: nat, before: seq<Action>, s: State, op: OpId, r: Ref,
                                  opening: int, launched: int, bound: int, after: seq<Action>, t: State)
    requires Run(Start(maxWorkers), before, s) && Enabled(s, TryCommit(op)) && Opened(s, TryCommit(op)) == Some(r)
    requires IsLastOpen(before, op, opening) && IsLastLaunch(before, op, launched) && IsLastHandshake(before, op, bound)
    requires Run(Apply(s, TryCommit(op)), after, t)
    ensures r == before[opening].ref && r in t.pool.records
    ensures var x := t.pool.records[r];
      && WorksUnder(before[opening], x.id)
      && x.process == Some(before[launched].pid)
      && x.port == before[bound].port && x.token == Some(before[bound].token)
  {
    var u := Apply(s, TryCommit(op));
    assert Inv(s) && History(s, before) by {
      StartHistory(maxWorkers);
      RunKeeps(Start(maxWorkers), before, s);
      RunHistory(Start(maxWorkers), [], before, s);
      assert [] + before == before;
      hide *;
    }
    assert Remembers(s, before, op);
    hide *;
    CommitPublishes(s, before, op);
    GivenByLast(before, op, r, u.pool.records[r], opening, launched, bound);
    StepKeeps(s, TryCommit(op));
    PublishedForGood(u, after, t, r);
  }

  lemma GivenByLast(acts: seq<Action>, op: OpId, r: Ref, x: Session, opening: int, launched: int, bound: int)
    requires CommitGives(acts + [TryCommit(op)], |acts|, r, x)
    requires IsLastOpen(acts, op, opening) && IsLastLaunch(acts, op, launched) && IsLastHandshake(acts, op, bound)
    ensures r == acts[opening].ref && WorksUnder(acts[opening], x.id)
    ensures x.process == Some(acts[launched].pid)
    ensures x.port == acts[bound].port && x.token == Some(acts[bound].token)
  {
    assert (acts + [TryCommit(op)])[..|acts|] == acts;
    var i :| IsLastOpen(acts, op, i) && acts[i].ref == r && WorksUnder(acts[i], x.id);
    var j :| IsLastLaunch(acts, op, j) && acts[j].pid == x.process.value;
    var k :| IsLastHandshake(acts, op, k) && acts[k].port == x.port && acts[k].token == x.token.value;
    assert i == opening && j == launched && k == bound;
  }
}
