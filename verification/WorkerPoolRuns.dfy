/**
  Who answers for each worker process, over whole runs of the pool
  (src/idamesh/infrastructure/process/worker_pool.py).

  A live process is accounted for when a registered session carries it, an open still holds it, or
  an operation that popped its session has yet to terminate it.
*/
module WorkerPoolRuns {
  import opened Common
  import opened WorkerPool

  predicate Carries(p: Pool, r: Ref, pid: Pid) {
    r in p.records && p.records[r].process == Some(pid)
  }

  ghost predicate InSession(s: State, pid: Pid) {
    exists id :: id in s.pool.sessions && Carries(s.pool, s.pool.sessions[id], pid)
  }

  ghost predicate InOpen(s: State, pid: Pid) {
    exists o :: o in s.ops && Holds(s.ops[o]) && s.ops[o].pid == pid
  }

  ghost predicate IsPending(s: State, r: Ref) {
    exists o :: o in s.ops && s.ops[o].Terminating? && r in s.ops[o].pending
  }

  ghost predicate InTermination(s: State, pid: Pid) {
    exists r :: r in s.pool.records && Carries(s.pool, r, pid) && IsPending(s, r)
  }

  ghost predicate Accounted(s: State, pid: Pid) {
    InSession(s, pid) || InOpen(s, pid) || InTermination(s, pid)
  }

  /** The open's reservation is gone and nobody is about to terminate its record. */
  ghost predicate Abandons(s: State, a: Action, pid: Pid) {
    && a.Fault? && a.op in s.ops && s.ops[a.op].Waiting? && s.ops[a.op].pid == pid
    && !Registered(s.pool, s.ops[a.op].ref) && !IsPending(s, s.ops[a.op].ref)
  }

  // ---------------------------------------------------------------- one step

  /** A step that only moves program counters about leaves who holds what alone. */
  lemma SessionsCarry(s: State, t: State, pid: Pid)
    requires t.pool.records == s.pool.records && t.pool.sessions == s.pool.sessions
    ensures InSession(t, pid) == InSession(s, pid)
  {
    if InSession(s, pid) {
      var id :| id in s.pool.sessions && Carries(s.pool, s.pool.sessions[id], pid);
      assert Carries(t.pool, t.pool.sessions[id], pid);
    }
    if InSession(t, pid) {
      var id :| id in t.pool.sessions && Carries(t.pool, t.pool.sessions[id], pid);
      assert Carries(s.pool, s.pool.sessions[id], pid);
    }
  }

  lemma OpensHold(s: State, t: State, op: OpId, pid: Pid)
    requires forall o :: o != op ==> (o in t.ops <==> o in s.ops) && (o in s.ops ==> t.ops[o] == s.ops[o])
    requires (op in t.ops && Holds(t.ops[op]) && t.ops[op].pid == pid)
      == (op in s.ops && Holds(s.ops[op]) && s.ops[op].pid == pid)
    ensures InOpen(t, pid) == InOpen(s, pid)
  {
    if InOpen(s, pid) {
      var o :| o in s.ops && Holds(s.ops[o]) && s.ops[o].pid == pid;
      assert o in t.ops && Holds(t.ops[o]) && t.ops[o].pid == pid;
    }
    if InOpen(t, pid) {
      var o :| o in t.ops && Holds(t.ops[o]) && t.ops[o].pid == pid;
      assert o in s.ops && Holds(s.ops[o]) && s.ops[o].pid == pid;
    }
  }

  lemma TerminationsPend(s: State, t: State, op: OpId, pid: Pid)
    requires t.pool.records == s.pool.records
    requires forall o :: o != op ==> (o in t.ops <==> o in s.ops) && (o in s.ops ==> t.ops[o] == s.ops[o])
    requires op in s.ops ==> !s.ops[op].Terminating?
    requires op in t.ops ==> !t.ops[op].Terminating?
    ensures InTermination(t, pid) == InTermination(s, pid)
    ensures forall r :: IsPending(t, r) == IsPending(s, r)
  {
    forall r ensures IsPending(t, r) == IsPending(s, r) {
      if IsPending(s, r) {
        var o :| o in s.ops && s.ops[o].Terminating? && r in s.ops[o].pending;
        assert o in t.ops && t.ops[o].Terminating? && r in t.ops[o].pending;
      }
      if IsPending(t, r) {
        var o :| o in t.ops && t.ops[o].Terminating? && r in t.ops[o].pending;
        assert o in s.ops && s.ops[o].Terminating? && r in s.ops[o].pending;
      }
    }
    if InTermination(s, pid) {
      var r :| r in s.pool.records && Carries(s.pool, r, pid) && IsPending(s, r);
      assert Carries(t.pool, r, pid) && IsPending(t, r);
    }
    if InTermination(t, pid) {
      var r :| r in t.pool.records && Carries(t.pool, r, pid) && IsPending(t, r);
      assert Carries(s.pool, r, pid) && IsPending(s, r);
    }
  }

  /** An open that keeps its process while its program counter moves changes nothing. */
  lemma MoveAccounts(s: State, op: OpId, stage: Op, pid: Pid)
    requires op in s.ops && IsOpen(s.ops[op]) && IsOpen(stage)
    requires (Holds(stage) && stage.pid == pid) == (Holds(s.ops[op]) && s.ops[op].pid == pid)
    ensures Accounted(Goto(s, s.pool, op, stage), pid) == Accounted(s, pid)
  {
    var t := Goto(s, s.pool, op, stage);
    SessionsCarry(s, t, pid);
    OpensHold(s, t, op, pid);
    TerminationsPend(s, t, op, pid);
    hide InSession, InOpen, InTermination;
  }

  /** Popping sessions hands the processes they carry to the operation that popped them. */
  lemma OweAccounts(s: State, q: Pool, op: OpId, refs: set<Ref>, pid: Pid)
    requires Inv(s) && Shrinks(s.pool, q) && pid in q.alive && refs <= s.pool.records.Keys
    requires op in s.ops ==> !Holds(s.ops[op])
    requires op in s.ops && s.ops[op].Terminating? ==>
      refs <= s.ops[op].pending && q.sessions == s.pool.sessions
      && forall r :: r in s.ops[op].pending && Carries(s.pool, r, pid) ==> r in refs
    requires op !in s.ops || !s.ops[op].Terminating? ==>
      refs <= s.pool.sessions.Values
      && forall id :: id in s.pool.sessions && id !in q.sessions && Carries(s.pool, s.pool.sessions[id], pid) ==>
        s.pool.sessions[id] in refs
    ensures Accounted(Owes(s, q, op, refs), pid) == Accounted(s, pid)
  {
    hide Inv;
    var t := Owes(s, q, op, refs);
    OpensHold(s, t, op, pid);
    hide InOpen;
    if InSession(s, pid) && !InSession(t, pid) {
      var id :| id in s.pool.sessions && Carries(s.pool, s.pool.sessions[id], pid);
      assert id in q.sessions ==> Carries(t.pool, t.pool.sessions[id], pid);
      assert s.pool.sessions[id] in refs;
      assert t.ops[op].Terminating? && s.pool.sessions[id] in t.ops[op].pending;
      assert IsPending(t, s.pool.sessions[id]);
      assert Carries(t.pool, s.pool.sessions[id], pid);
    }
    if InSession(t, pid) {
      var id :| id in t.pool.sessions && Carries(t.pool, t.pool.sessions[id], pid);
      assert Carries(s.pool, s.pool.sessions[id], pid);
    }
    if InTermination(s, pid) {
      var r :| r in s.pool.records && Carries(s.pool, r, pid) && IsPending(s, r);
      var o :| o in s.ops && s.ops[o].Terminating? && r in s.ops[o].pending;
      assert o in t.ops && t.ops[o].Terminating? && r in t.ops[o].pending;
      assert Carries(t.pool, r, pid);
    }
    if InTermination(t, pid) && !InSession(s, pid) {
      var r :| r in t.pool.records && Carries(t.pool, r, pid) && IsPending(t, r);
      var o :| o in t.ops && t.ops[o].Terminating? && r in t.ops[o].pending;
      assert Carries(s.pool, r, pid);
      assert o in s.ops && s.ops[o].Terminating? && r in s.ops[o].pending;
      assert IsPending(s, r);
    }
  }

  lemma ReapAccounts(s: State, pid: Pid)
    requires pid in s.pool.alive
    ensures Accounted(State(Reap(s.pool), s.ops), pid) == Accounted(s, pid)
  {
    var t := State(Reap(s.pool), s.ops);
    if InSession(s, pid) {
      var id :| id in s.pool.sessions && Carries(s.pool, s.pool.sessions[id], pid);
      assert id in t.pool.sessions && Carries(t.pool, t.pool.sessions[id], pid);
    }
    if InSession(t, pid) {
      var id :| id in t.pool.sessions && Carries(t.pool, t.pool.sessions[id], pid);
      assert Carries(s.pool, s.pool.sessions[id], pid);
    }
    if InTermination(s, pid) {
      var r :| r in s.pool.records && Carries(s.pool, r, pid) && IsPending(s, r);
      assert Carries(t.pool, r, pid) && IsPending(t, r);
    }
    if InTermination(t, pid) {
      var r :| r in t.pool.records && Carries(t.pool, r, pid) && IsPending(t, r);
      assert Carries(s.pool, r, pid) && IsPending(s, r);
    }
  }

  /** A new reservation has no process yet. */
  lemma ReserveAccounts(s: State, op: OpId, id: SessionId, ref: Ref, pid: Pid)
    requires Inv(s) && op !in s.ops && ref !in s.pool.records && id !in s.pool.sessions
    ensures Accounted(Goto(s, WithReservation(s.pool, id, ref), op, Preparing(ref)), pid) == Accounted(s, pid)
  {
    var t := Goto(s, WithReservation(s.pool, id, ref), op, Preparing(ref));
    OpensHold(s, t, op, pid);
    assert forall r :: Carries(t.pool, r, pid) == Carries(s.pool, r, pid);
    hide InOpen, OpsOk, SessionsOk, Carries;
    ReservedTerminations(s, t, pid);
    hide InTermination;
    if InSession(s, pid) {
      var i :| i in s.pool.sessions && Carries(s.pool, s.pool.sessions[i], pid);
      assert Carries(t.pool, t.pool.sessions[i], pid);
    }
    if InSession(t, pid) {
      var i :| i in t.pool.sessions && Carries(t.pool, t.pool.sessions[i], pid);
      assert i != id && Carries(s.pool, s.pool.sessions[i], pid);
    }
  }

  lemma ReservedTerminations(s: State, t: State, pid: Pid)
    requires forall r :: Carries(t.pool, r, pid) == Carries(s.pool, r, pid)
    requires s.pool.records.Keys <= t.pool.records.Keys
    requires forall o :: o in t.ops && t.ops[o].Terminating? ==> o in s.ops && s.ops[o] == t.ops[o]
    requires forall o :: o in s.ops && s.ops[o].Terminating? ==> o in t.ops && s.ops[o] == t.ops[o]
    requires forall r :: r in t.pool.records && r !in s.pool.records ==> !Carries(t.pool, r, pid)
    ensures InTermination(t, pid) == InTermination(s, pid)
  {
    hide Carries;
    if InTermination(s, pid) {
      var r :| r in s.pool.records && Carries(s.pool, r, pid) && IsPending(s, r);
      var o :| o in s.ops && s.ops[o].Terminating? && r in s.ops[o].pending;
      assert o in t.ops && t.ops[o].Terminating? && r in t.ops[o].pending;
      assert Carries(t.pool, r, pid);
    }
    if InTermination(t, pid) {
      var r :| r in t.pool.records && Carries(t.pool, r, pid) && IsPending(t, r);
      var o :| o in t.ops && t.ops[o].Terminating? && r in t.ops[o].pending;
      assert o in s.ops && s.ops[o].Terminating? && r in s.ops[o].pending;
      assert Carries(s.pool, r, pid);
    }
  }

  lemma LaunchAccounts(s: State, op: OpId, born: Pid, pid: Pid)
    requires Enabled(s, Launch(op, born)) && pid != born
    ensures Accounted(Apply(s, Launch(op, born)), pid) == Accounted(s, pid)
  {
    var t := Apply(s, Launch(op, born));
    SessionsCarry(s, t, pid);
    OpensHold(s, t, op, pid);
    TerminationsPend(s, t, op, pid);
    hide InSession, InOpen, InTermination;
  }

  /** Attaching moves nothing out of the hands of the open that launched it. */
  lemma AttachAccounts(s: State, op: OpId, pid: Pid)
    requires Inv(s) && Enabled(s, Attach(op))
    ensures Accounted(Apply(s, Attach(op)), pid) == Accounted(s, pid)
  {
    var t := Apply(s, Attach(op));
    OpensHold(s, t, op, pid);
    assert OpOk(s.pool, s.ops[op]);
    if pid == s.ops[op].pid {
      assert InOpen(s, pid);
    } else {
      hide InOpen;
      assert forall r :: Carries(t.pool, r, pid) == Carries(s.pool, r, pid);
      hide Carries;
      forall r ensures IsPending(t, r) == IsPending(s, r) {
        if IsPending(s, r) {
          var o :| o in s.ops && s.ops[o].Terminating? && r in s.ops[o].pending;
          assert o in t.ops && t.ops[o].Terminating? && r in t.ops[o].pending;
        }
        if IsPending(t, r) {
          var o :| o in t.ops && t.ops[o].Terminating? && r in t.ops[o].pending;
          assert o in s.ops && s.ops[o].Terminating? && r in s.ops[o].pending;
        }
      }
      hide IsPending;
    }
  }

  /** A successful commit hands the process from the open to the registered session. */
  lemma CommitAccounts(s: State, op: OpId, pid: Pid)
    requires Inv(s) && Enabled(s, TryCommit(op)) && Registered(s.pool, s.ops[op].ref)
    ensures Accounted(Apply(s, TryCommit(op)), pid) == Accounted(s, pid)
  {
    var t := Apply(s, TryCommit(op));
    assert OpOk(s.pool, s.ops[op]);
    var ref := s.ops[op].ref;
    assert forall r :: Carries(t.pool, r, pid) == Carries(s.pool, r, pid);
    forall r ensures IsPending(t, r) == IsPending(s, r) {
      if IsPending(s, r) {
        var o :| o in s.ops && s.ops[o].Terminating? && r in s.ops[o].pending;
        assert o in t.ops && t.ops[o].Terminating? && r in t.ops[o].pending;
      }
    }
    if pid == s.ops[op].pid {
      assert Carries(s.pool, s.pool.sessions[s.pool.records[ref].id], pid);
    } else {
      OpensHold(s, t, op, pid);
      hide InOpen;
    }
    hide IsPending, Carries;
  }

  /** A fault keeps the books only while somebody else still answers for the process. */
  lemma FaultAccounts(s: State, a: Action, pid: Pid)
    requires Inv(s) && Enabled(s, a) && a.Fault?
    ensures Accounted(Apply(s, a), pid) == (Accounted(s, pid) && !Abandons(s, a, pid))
  {
    var t := Apply(s, a);
    var ref := s.ops[a.op].ref;
    if pid == s.ops[a.op].pid {
      assert InOpen(s, pid);
      assert OpOk(s.pool, s.ops[a.op]);
      SessionsCarry(s, t, pid);
      TerminationsPend(s, t, a.op, pid);
      assert !InOpen(t, pid) by {
        assert forall o :: o in s.ops && o != a.op ==> Apart(s.ops[o], s.ops[a.op]);
      }
      assert forall r :: Carries(s.pool, r, pid) ==> r == ref;
      assert Carries(s.pool, ref, pid);
      if Registered(s.pool, ref) {
        assert Carries(s.pool, s.pool.sessions[s.pool.records[ref].id], pid);
      }
      if InSession(s, pid) {
        var id :| id in s.pool.sessions && Carries(s.pool, s.pool.sessions[id], pid);
        assert s.pool.sessions[id] == ref;
      }
    } else {
      MoveAccounts(s, a.op, Failing(ref), pid);
    }
  }

  lemma OpenAccounts(s: State, a: Action, pid: Pid)
    requires Inv(s) && a.Open? && Enabled(s, a) && pid in s.pool.alive
    ensures Accounted(Apply(s, a), pid) == Accounted(s, pid)
  {
    OpenCases(s, a);
    ReapAccounts(s, pid);
    hide *;
    var q := State(Reap(s.pool), s.ops);
    if Apply(s, a) != q && Apply(s, a) != s {
      ReserveAccounts(q, a.op, ChosenId(a.preferred, a.minted), a.ref, pid);
    }
  }

  lemma OpenCases(s: State, a: Action)
    requires Inv(s) && a.Open? && Enabled(s, a)
    ensures var q := State(Reap(s.pool), s.ops);
      var id := ChosenId(a.preferred, a.minted);
      || Apply(s, a) == s || Apply(s, a) == q
      || (Inv(q) && a.op !in q.ops && a.ref !in q.pool.records && id !in q.pool.sessions
          && Apply(s, a) == Goto(q, WithReservation(q.pool, id, a.ref), a.op, Preparing(a.ref)))
  {
    ReserveKeeps(s, a.op, a.preferred, a.minted, a.ref);
    assert Shrinks(s.pool, Reap(s.pool)) && Reap(s.pool).records == s.pool.records by { hide Inv, Reserve; }
    ShrinkKeeps(s, Reap(s.pool));
    hide Inv, HasExited, IsAlive, WithReservation, Goto, Shrinks, Reap;
  }

  /** The steps in which an open only moves on with whatever process it holds. */
  lemma MovesAccount(s: State, a: Action, pid: Pid)
    requires Enabled(s, a)
    requires a.PrepareFails? || a.Handshake? || a.HandshakeFails?
      || (a.TryCommit? && !Registered(s.pool, s.ops[a.op].ref))
    ensures Accounted(Apply(s, a), pid) == Accounted(s, pid)
  {
    MoveAccounts(s, a.op, Apply(s, a).ops[a.op], pid);
    hide Accounted;
  }

  lemma CloseAllAccounts(s: State, op: OpId, pid: Pid)
    requires Inv(s) && Enabled(s, CloseAll(op)) && pid in s.pool.alive
    ensures Accounted(Apply(s, CloseAll(op)), pid) == Accounted(s, pid)
  {
    SessionsAreRecords(s);
    OweAccounts(s, s.pool.(sessions := map[]), op, s.pool.sessions.Values, pid);
    hide Accounted, Inv;
  }

  lemma TerminateAccounts(s: State, op: OpId, r: Ref, pid: Pid)
    requires Inv(s) && Enabled(s, TerminateOne(op, r)) && pid in Apply(s, TerminateOne(op, r)).pool.alive
    ensures Accounted(Apply(s, TerminateOne(op, r)), pid) == Accounted(s, pid)
  {
    assert Apply(s, TerminateOne(op, r))
      == Owes(s, Terminate(s.pool, r), op, s.ops[op].pending - {r}) by { hide Inv, Terminate; }
    hide *;
    PendingAreRecords(s, op);
    TerminateSpares(s.pool, r, pid);
    OweAccounts(s, Terminate(s.pool, r), op, s.ops[op].pending - {r}, pid);
  }

  lemma TerminateSpares(p: Pool, r: Ref, pid: Pid)
    requires pid in Terminate(p, r).alive
    ensures Shrinks(p, Terminate(p, r)) && Terminate(p, r).sessions == p.sessions && !Carries(p, r, pid)
  {
  }

  /** Every step but a launch or a fault keeps the books as they are. */
  lemma OtherStepAccounts(s: State, a: Action, pid: Pid)
    requires Inv(s) && Enabled(s, a) && pid in Apply(s, a).pool.alive && pid in s.pool.alive
    requires !a.Launch? && !a.Fault?
    ensures Accounted(Apply(s, a), pid) == Accounted(s, pid)
  {
    hide Inv, Accounted;
    match a
    case Open(_, _, _, _) => hide *; OpenAccounts(s, a, pid);
    case PrepareFails(_) => hide *; MovesAccount(s, a, pid);
    case Attach(op) => hide *; AttachAccounts(s, op, pid);
    case Handshake(_, _, _) => hide *; MovesAccount(s, a, pid);
    case HandshakeFails(_) => hide *; MovesAccount(s, a, pid);
    case TryCommit(op) =>
      if Registered(s.pool, s.ops[op].ref) {
        CommitAccounts(s, op, pid);
      } else {
        MovesAccount(s, a, pid);
      }
    case KillWorker(op) => KillAccounts(s, op, pid);
    case Discard(op) => PopAccounts(s, op, s.pool.records[s.ops[op].ref].id, pid);
    case Close(op, id) => PopAccounts(s, op, id, pid);
    case CloseAll(op) => hide *; CloseAllAccounts(s, op, pid);
    case Find(op, id) => hide *; FindAccounts(s, op, id, pid);
    case ReapDead => ReapAccounts(s, pid);
    case TerminateOne(op, r) => hide *; TerminateAccounts(s, op, r, pid);
    case Die(gone) => DieAccounts(s, gone, pid);
    case _ =>
  }

  /**
    One step: a process that stays alive is accounted for afterwards exactly if it was before, save
    one case - a fault in an open whose reservation somebody has already popped and finished with.
  */
  lemma StepAccounts(s: State, a: Action, pid: Pid)
    requires Inv(s) && Enabled(s, a) && pid in Apply(s, a).pool.alive
    ensures pid !in s.pool.launched ==> Accounted(Apply(s, a), pid)
    ensures pid in s.pool.launched ==> pid in s.pool.alive
    ensures pid in s.pool.launched ==> (Accounted(Apply(s, a), pid) <==> Accounted(s, pid) && !Abandons(s, a, pid))
  {
    StepTable(s, a, pid);
    AliveWasLaunched(s);
    hide Inv, Accounted, Apply, Enabled;
    if a.Launch? {
      if pid == a.pid {
        NewIsHeld(s, a.op, pid);
        LaunchIsNew(s, a);
      } else {
        LaunchAccounts(s, a.op, a.pid, pid);
        LaunchIsNew(s, a);
      }
    } else if a.Fault? {
      FaultAccounts(s, a, pid);
    } else {
      OtherStepAccounts(s, a, pid);
    }
  }

  lemma LaunchIsNew(s: State, a: Action)
    requires Enabled(s, a) && a.Launch?
    ensures a.pid !in s.pool.launched && Apply(s, a).pool.alive == s.pool.alive + {a.pid}
  {
  }

  lemma StepTable(s: State, a: Action, pid: Pid)
    requires Enabled(s, a)
    ensures pid in s.pool.launched ==> pid in Apply(s, a).pool.launched
    ensures pid in s.pool.launched && pid in Apply(s, a).pool.alive ==> pid in s.pool.alive
    ensures !a.Launch? && pid in Apply(s, a).pool.alive ==> pid in s.pool.alive
    ensures pid in Apply(s, a).pool.launched && pid !in s.pool.launched ==> pid in Apply(s, a).pool.alive
  {
    hide Reserve, Commit, Pop, Get;
  }

  lemma AliveWasLaunched(s: State)
    requires Inv(s)
    ensures s.pool.alive <= s.pool.launched
  {
  }

  lemma NewIsHeld(s: State, op: OpId, pid: Pid)
    requires Enabled(s, Launch(op, pid))
    ensures Accounted(Apply(s, Launch(op, pid)), pid)
  {
    var t := Apply(s, Launch(op, pid));
    assert op in t.ops && Holds(t.ops[op]) && t.ops[op].pid == pid;
  }

  lemma KillAccounts(s: State, op: OpId, pid: Pid)
    requires Inv(s) && Enabled(s, KillWorker(op)) && pid != s.ops[op].pid
    ensures Accounted(Apply(s, KillWorker(op)), pid) == Accounted(s, pid)
  {
    var t := Apply(s, KillWorker(op));
    KillMoves(s, op, pid);
    assert Accounted(t, pid) == (InSession(t, pid) || InOpen(t, pid) || InTermination(t, pid));
    assert Accounted(s, pid) == (InSession(s, pid) || InOpen(s, pid) || InTermination(s, pid));
    hide *;
    SessionsCarry(s, t, pid);
    OpensHold(s, t, op, pid);
    TerminationsPend(s, t, op, pid);
  }

  lemma KillMoves(s: State, op: OpId, pid: Pid)
    requires Enabled(s, KillWorker(op)) && pid != s.ops[op].pid
    ensures var t := Apply(s, KillWorker(op));
      && t.pool.records == s.pool.records && t.pool.sessions == s.pool.sessions
      && (forall o :: o != op ==> (o in t.ops <==> o in s.ops) && (o in s.ops ==> t.ops[o] == s.ops[o]))
      && op in s.ops && !s.ops[op].Terminating? && s.ops[op].pid != pid
      && (op in t.ops ==> !t.ops[op].Terminating? && !Holds(t.ops[op]))
  {
  }

  lemma DieAccounts(s: State, gone: Pid, pid: Pid)
    ensures Accounted(State(Kill(s.pool, gone), s.ops), pid) == Accounted(s, pid)
  {
    var t := State(Kill(s.pool, gone), s.ops);
    SessionsCarry(s, t, pid);
    assert forall r :: Carries(t.pool, r, pid) == Carries(s.pool, r, pid);
    hide InSession, Carries;
  }

  lemma PopAccounts(s: State, op: OpId, id: SessionId, pid: Pid)
    requires Inv(s) && pid in s.pool.alive
    requires op in s.ops ==> s.ops[op].Failing?
    ensures var (p, r) := Pop(s.pool, id); Accounted(Owes(s, p, op, if r.Some? then {r.value} else {}), pid)
                                           == Accounted(s, pid)
  {
    var (p, r) := Pop(s.pool, id);
    OweAccounts(s, p, op, if r.Some? then {r.value} else {}, pid);
  }

  lemma FindAccounts(s: State, op: OpId, id: SessionId, pid: Pid)
    requires Inv(s) && pid in s.pool.alive && Enabled(s, Find(op, id))
    ensures Accounted(Apply(s, Find(op, id)), pid) == Accounted(s, pid)
  {
    var (p, r) := Get(s.pool, id);
    OweAccounts(s, p, op, if r.Died? then {r.ref} else {}, pid);
  }

  // ---------------------------------------------------------------- whole runs

  /** The processes a run's faults abandon. */
  ghost function AbandonedIn(s: State, acts: seq<Action>): set<Pid>
    decreases |acts|
  {
    if acts == [] || !Enabled(s, acts[0]) then {}
    else
      (if acts[0].Fault? && Abandons(s, acts[0], s.ops[acts[0].op].pid) then {s.ops[acts[0].op].pid} else {})
      + AbandonedIn(Apply(s, acts[0]), acts[1..])
  }

  lemma AbandonedStep(s: State, acts: seq<Action>, pid: Pid)
    requires acts != [] && Enabled(s, acts[0])
    ensures pid in AbandonedIn(s, acts)
      <==> Abandons(s, acts[0], pid) || pid in AbandonedIn(Apply(s, acts[0]), acts[1..])
  {
  }

  lemma {:induction false} StillAlive(s: State, acts: seq<Action>, t: State, pid: Pid)
    requires Run(s, acts, t) && pid in t.pool.alive
    ensures pid in s.pool.launched ==> pid in s.pool.alive
    decreases |acts|
  {
    RunUnfolds(s, acts, t);
    hide Run;
    if acts != [] {
      StepTable(s, acts[0], pid);
      hide Apply, Enabled;
      StillAlive(Apply(s, acts[0]), acts[1..], t, pid);
    }
  }

  /**
    Over any run: a live process is unaccounted for exactly if it was so at the start or a fault
    of the run abandoned it.
  */
  lemma {:induction false} OrphansAreAbandoned(s: State, acts: seq<Action>, t: State, pid: Pid)
    requires Inv(s) && Run(s, acts, t) && pid in t.pool.alive
    ensures Accounted(t, pid) <==> (pid in s.pool.launched ==> Accounted(s, pid)) && pid !in AbandonedIn(s, acts)
    decreases |acts|
  {
    RunUnfolds(s, acts, t);
    hide Run;
    if acts == [] {
      AliveWasLaunched(s);
    } else {
      hide Inv, Accounted, Abandons, AbandonedIn, Apply, Enabled;
      var s' := Apply(s, acts[0]);
      StepKeeps(s, acts[0]);
      StillAlive(s', acts[1..], t, pid);
      OrphansAreAbandoned(s', acts[1..], t, pid);
      AbandonedStep(s, acts, pid);
      StepTable(s, acts[0], pid);
      if Abandons(s, acts[0], pid) {
        AbandonedWasLaunched(s, acts[0], pid);
      }
      if pid in s'.pool.alive {
        StepAccounts(s, acts[0], pid);
      }
    }
  }

  lemma AbandonedWasLaunched(s: State, a: Action, pid: Pid)
    requires Inv(s) && Abandons(s, a, pid)
    ensures pid in s.pool.launched
  {
    assert OpOk(s.pool, s.ops[a.op]);
  }

  lemma StartIsFine(maxWorkers: nat)
    ensures Inv(Start(maxWorkers))
  {
  }

  ghost predicate FaultFree(acts: seq<Action>) {
    forall i :: 0 <= i < |acts| ==> !acts[i].Fault?
  }

  lemma {:induction false} FaultFreeAbandonsNone(s: State, acts: seq<Action>)
    requires FaultFree(acts)
    ensures AbandonedIn(s, acts) == {}
    decreases |acts|
  {
    if acts != [] && Enabled(s, acts[0]) {
      FaultFreeAbandonsNone(Apply(s, acts[0]), acts[1..]);
    }
  }

  /**
    No orphans: in every interleaving in which an open fails only by a spawn error, each process
    ever launched is dead or accounted for.
  */
  lemma NoOrphans(maxWorkers: nat, acts: seq<Action>, t: State, pid: Pid)
    requires Run(Start(maxWorkers), acts, t) && FaultFree(acts)
    requires pid in t.pool.launched
    ensures pid !in t.pool.alive || Accounted(t, pid)
  {
    StartIsFine(maxWorkers);
    FaultFreeAbandonsNone(Start(maxWorkers), acts);
    hide Inv, Accounted;
    if pid in t.pool.alive {
      OrphansAreAbandoned(Start(maxWorkers), acts, t, pid);
    }
  }

  /** With nothing in flight, every live process belongs to a registered session that is ready. */
  lemma QuietPool(maxWorkers: nat, acts: seq<Action>, t: State, pid: Pid) returns (id: SessionId)
    requires Run(Start(maxWorkers), acts, t) && FaultFree(acts)
    requires t.ops == map[] && pid in t.pool.alive
    ensures id in t.pool.sessions && Carries(t.pool, t.pool.sessions[id], pid)
    ensures IsReady(t.pool, t.pool.sessions[id]) && t.pool.records[t.pool.sessions[id]].token.Some?
  {
    StartIsFine(maxWorkers);
    RunKeeps(Start(maxWorkers), acts, t);
    AliveWasLaunched(t);
    NoOrphans(maxWorkers, acts, t, pid);
    id :| id in t.pool.sessions && Carries(t.pool, t.pool.sessions[id], pid);
  }

  /** With nothing in flight there are no more live processes than the limit allows. */
  lemma QuietPoolFitsLimit(maxWorkers: nat, acts: seq<Action>, t: State)
    requires Run(Start(maxWorkers), acts, t) && FaultFree(acts)
    requires t.ops == map[] && maxWorkers != 0
    ensures |t.pool.alive| <= maxWorkers
  {
    hide *;
    forall pid | pid in t.pool.alive
      ensures exists id :: id in t.pool.sessions && Carries(t.pool, t.pool.sessions[id], pid)
    {
      var id := QuietPool(maxWorkers, acts, t, pid);
    }
    CarriedAreFew(t.pool);
    ReachableSessions(maxWorkers, acts, t);
  }

  lemma CarriedAreFew(p: Pool)
    requires forall pid :: pid in p.alive ==> exists id :: id in p.sessions && Carries(p, p.sessions[id], pid)
    ensures |p.alive| <= |p.sessions|
  {
    var carried := map id | id in p.sessions && p.sessions[id] in p.records :: p.records[p.sessions[id]].process;
    var live := map id | id in carried && carried[id].Some? :: carried[id].value;
    forall pid | pid in p.alive ensures pid in live.Values {
      var id :| id in p.sessions && Carries(p, p.sessions[id], pid);
      assert live[id] == pid;
    }
    FewValues(live, p.alive);
    SmallerSet(live.Keys, p.sessions.Keys);
  }

  /** The cap holds in every reachable state, reservations included, and so does readiness. */
  lemma ReachableSessions(maxWorkers: nat, acts: seq<Action>, t: State)
    requires Run(Start(maxWorkers), acts, t)
    ensures maxWorkers != 0 ==> |t.pool.sessions| <= maxWorkers
    ensures Known(t.pool)
    ensures forall r :: r in Ready(t.pool) ==>
      Registered(t.pool, r) && t.pool.records[r].process.Some? && t.pool.records[r].token.Some?
    ensures forall id :: Get(t.pool, id).1.Found? ==>
      var r := Get(t.pool, id).1.ref;
      r in Ready(t.pool) && t.pool.records[r].id == id && t.pool.records[r].process.value in t.pool.alive
  {
    StartIsFine(maxWorkers);
    RunKeeps(Start(maxWorkers), acts, t);
    SameCap(Start(maxWorkers), acts, t);
  }

  /** The ids whose process has not exited: ready sessions that run, and reservations. */
  function LiveIds(p: Pool): set<SessionId> {
    set id | id in p.sessions && !HasExited(p, p.sessions[id])
  }

  predicate AsksFor(preferred: Option<SessionId>, p: Pool) {
    preferred.Some? && preferred.value.text != "" && preferred.value in p.sessions
  }

  /**
    An open is refused for still opening, shared, refused for the limit or given a reservation of its
    own; which of the four follows from what is registered and alive, dead sessions never counting.
  */
  lemma OpenOutcome(p: Pool, preferred: Option<SessionId>, minted: SessionId, ref: Ref)
    requires Known(p)
    ensures var (q, r) := Reserve(p, preferred, minted, ref);
      var same := if AsksFor(preferred, p) then Some(p.sessions[preferred.value]) else None;
      && (r == StillOpening <==> same.Some? && p.records[same.value].port == 0)
      && (r.Shared? <==> same.Some? && p.records[same.value].port != 0 && IsAlive(p, same.value))
      && (r.Shared? ==> r.ref == same.value && q == p)
      && (r == LimitReached ==> p.maxWorkers != 0 && |LiveIds(p)| >= p.maxWorkers && q.sessions.Keys == LiveIds(p))
      && (r.Reserved? ==> (p.maxWorkers == 0 || |LiveIds(p)| < p.maxWorkers)
                          && q.sessions.Keys == LiveIds(p) + {ChosenId(preferred, minted)}
                          && q.sessions[ChosenId(preferred, minted)] == ref)
  {
    hide HasExited, IsAlive, ChosenId, LiveIds, Reap, Known;
    ReapLeavesLive(p);
  }

  lemma ReapLeavesLive(p: Pool)
    ensures Reap(p).sessions.Keys == LiveIds(p) && |Reap(p).sessions| == |LiveIds(p)|
      && Reap(p).maxWorkers == p.maxWorkers
  {
    assert Reap(p).sessions.Keys == LiveIds(p);
    assert |Reap(p).sessions| == |Reap(p).sessions.Keys|;
  }

  /** What an open returns is registered, ready, and has a process and a token. */
  lemma OpenReturnsReady(maxWorkers: nat, acts: seq<Action>, s: State, a: Action)
    requires Run(Start(maxWorkers), acts, s) && Enabled(s, a) && Opened(s, a).Some?
    ensures var r := Opened(s, a).value;
      var p := Apply(s, a).pool;
      Known(p) && Registered(p, r) && r in Ready(p) && p.records[r].process.Some? && p.records[r].token.Some?
  {
    hide Run;
    StartIsFine(maxWorkers);
    RunKeeps(Start(maxWorkers), acts, s);
    StepKeeps(s, a);
    hide OpsOk;
    var r := Opened(s, a).value;
    if a.Open? {
      hide Apply;
      assert Registered(s.pool, r) && s.pool.records[r].port != 0;
      SharedLeavesAlone(s, a);
    } else {
      assert Registered(Apply(s, a).pool, r) && Apply(s, a).pool.records[r].port != 0;
    }
  }

  lemma SharedLeavesAlone(s: State, a: Action)
    requires Enabled(s, a) && a.Open? && Opened(s, a).Some?
    ensures Apply(s, a) == s
  {
  }

  /** The record is registered under its id with a finished handshake, a token and a process. */
  predicate IsServing(p: Pool, r: Ref) {
    Registered(p, r) && p.records[r].port != 0 && p.records[r].token.Some? && p.records[r].process.Some?
  }

  /**
    In every reachable state `get` answers with a record exactly when that record serves the id and its
    process runs, and finds it dead exactly when it serves the id and its process has exited.
  */
  lemma GetIsExact(maxWorkers: nat, acts: seq<Action>, t: State, id: SessionId, r: Ref)
    requires Run(Start(maxWorkers), acts, t)
    ensures Known(t.pool)
    ensures Get(t.pool, id).1 == Found(r)
      <==> IsServing(t.pool, r) && t.pool.records[r].id == id && t.pool.records[r].process.value in t.pool.alive
    ensures Get(t.pool, id).1 == Died(r)
      <==> IsServing(t.pool, r) && t.pool.records[r].id == id && t.pool.records[r].process.value !in t.pool.alive
  {
    StartIsFine(maxWorkers);
    RunKeeps(Start(maxWorkers), acts, t);
    hide Run, OpsOk;
  }

  lemma SameCapStep(s: State, a: Action)
    requires Enabled(s, a)
    ensures Apply(s, a).pool.maxWorkers == s.pool.maxWorkers
  {
    hide Reserve, Commit, Pop, Get, DeadIds, Known;
  }

  lemma {:induction false} SameCap(s: State, acts: seq<Action>, t: State)
    requires Run(s, acts, t)
    ensures t.pool.maxWorkers == s.pool.maxWorkers
    decreases |acts|
  {
    RunUnfolds(s, acts, t);
    hide Run;
    if acts != [] {
      hide Apply, Enabled;
      SameCapStep(s, acts[0]);
      SameCap(Apply(s, acts[0]), acts[1..], t);
    }
  }

  // ---------------------------------------------------------------- every operation gets done

  /** The action is a step of operation `op`, already in flight. */
  predicate IsStepOf(a: Action, op: OpId) {
    match a
    case Open(_, _, _, _) => false
    case Close(_, _) => false
    case CloseAll(_) => false
    case Find(_, _) => false
    case ReapDead => false
    case Die(_) => false
    case _ => a.op == op
  }

  /** How many steps of its own an operation can still take. */
  function StepsLeft(x: Op): nat {
    match x
    case Preparing(_) => 7
    case Launched(_, _) => 6
    case Waiting(_, _) => 5
    case Bound(_, _, _, _) => 4
    case Unready(_, _) => 3
    case Failing(_) => 2
    case Cancelled(_, _) => 1
    case Terminating(pending) => |pending|
  }

  /** Whatever the others do, an operation in flight can take a step. */
  lemma NothingIsStuck(s: State, op: OpId) returns (a: Action)
    requires Inv(s) && op in s.ops
    ensures Enabled(s, a) && IsStepOf(a, op)
  {
    assert OpOk(s.pool, s.ops[op]);
    match s.ops[op]
    case Preparing(_) => a := PrepareFails(op);
    case Launched(_, _) => a := Attach(op);
    case Waiting(_, _) => a := HandshakeFails(op);
    case Bound(_, _, _, _) => a := TryCommit(op);
    case Cancelled(_, _) => a := KillWorker(op);
    case Unready(_, _) => a := KillWorker(op);
    case Failing(_) => a := Discard(op);
    case Terminating(pending) =>
      var r :| r in pending;
      a := TerminateOne(op, r);
  }

  /** Each step of its own brings an operation nearer its end, and nobody else's step moves it. */
  lemma StepsRunOut(s: State, a: Action, op: OpId)
    requires Enabled(s, a) && op in s.ops
    ensures IsStepOf(a, op) ==> op !in Apply(s, a).ops || StepsLeft(Apply(s, a).ops[op]) < StepsLeft(s.ops[op])
    ensures !IsStepOf(a, op) ==> op in Apply(s, a).ops && Apply(s, a).ops[op] == s.ops[op]
  {
    hide Reserve, Commit, Get, Reap, Kill, Terminate;
    if a.TerminateOne? {
      hide Pop;
      FewerLeft(s.ops[a.op].pending, a.ref);
    } else if a.Discard? {
      OneIsFew();
    } else {
      hide Pop;
    }
  }

  lemma FewerLeft(pending: set<Ref>, r: Ref)
    requires r in pending
    ensures |pending - {r}| < |pending|
  {
    assert pending == (pending - {r}) + {r};
  }

  lemma OneIsFew()
    ensures forall q: Ref :: |{q}| == 1
  {
  }

  // ---------------------------------------------------------------- close beats commit

  ghost predicate Removed(s: State, r: Ref) {
    r in s.pool.records && !Registered(s.pool, r)
  }

  /** Once a reservation is gone, no step brings it back, publishes its endpoint or returns it. */
  lemma RemovedStays(s: State, a: Action, r: Ref)
    requires Inv(s) && Enabled(s, a) && Removed(s, r)
    ensures Removed(Apply(s, a), r)
    ensures Apply(s, a).pool.records[r].port == s.pool.records[r].port
    ensures Apply(s, a).pool.records[r].token == s.pool.records[r].token
    ensures Opened(s, a) != Some(r)
  {
    if a.Open? {
      ReserveKeeps(s, a.op, a.preferred, a.minted, a.ref);
      OpenLeavesRemoved(s, a.op, a.preferred, a.minted, a.ref, r);
    } else if a.TryCommit? {
      hide OpsOk, SessionsOk;
    } else if a.Attach? {
      hide OpsOk, SessionsOk;
    } else {
      SmallerSessions(s, a);
      hide Apply, Enabled, Inv;
    }
  }

  lemma OpenLeavesRemoved(s: State, op: OpId, preferred: Option<SessionId>, minted: SessionId, ref: Ref, r: Ref)
    requires RecordsOk(s) && Enabled(s, Open(op, preferred, minted, ref)) && Removed(s, r)
    ensures var t := Apply(s, Open(op, preferred, minted, ref));
      Removed(t, r) && t.pool.records[r] == s.pool.records[r]
    ensures Opened(s, Open(op, preferred, minted, ref)) != Some(r)
  {
    hide OpsOk, SessionsOk, HasExited, ChosenId;
  }

  lemma SmallerSessions(s: State, a: Action)
    requires Enabled(s, a) && !a.Open? && !a.TryCommit? && !a.Attach?
    ensures Apply(s, a).pool.records == s.pool.records
    ensures Apply(s, a).pool.sessions.Keys <= s.pool.sessions.Keys
    ensures forall id :: id in Apply(s, a).pool.sessions ==> Apply(s, a).pool.sessions[id] == s.pool.sessions[id]
    ensures Opened(s, a) == None
  {
  }

  /** The sessions a run's opens return. */
  function OpenedIn(s: State, acts: seq<Action>): set<Ref>
    decreases |acts|
  {
    if acts == [] || !Enabled(s, acts[0]) then {}
    else
      (if Opened(s, acts[0]).Some? then {Opened(s, acts[0]).value} else {}) + OpenedIn(Apply(s, acts[0]), acts[1..])
  }

  lemma {:induction false} RemovedForGood(s: State, acts: seq<Action>, t: State, r: Ref)
    requires Inv(s) && Run(s, acts, t) && Removed(s, r)
    ensures Removed(t, r) && r !in OpenedIn(s, acts)
    ensures t.pool.records[r].port == s.pool.records[r].port && t.pool.records[r].token == s.pool.records[r].token
    decreases |acts|
  {
    RunUnfolds(s, acts, t);
    hide Run;
    if acts != [] {
      StepKeeps(s, acts[0]);
      RemovedStays(s, acts[0], r);
      hide Inv, Removed, Opened, Apply, Enabled;
      RemovedForGood(Apply(s, acts[0]), acts[1..], t, r);
    }
  }

  /**
    Close beats commit: whatever removes a reservation before its open commits, the open never
    returns that session, no port or token is ever published on it, and once its open and every
    termination of it are over, its worker is dead.
  */
  lemma CloseBeatsCommit(maxWorkers: nat, before: seq<Action>, s: State, op: OpId, after: seq<Action>, t: State)
    requires Run(Start(maxWorkers), before, s) && op in s.ops && IsOpen(s.ops[op])
    requires Removed(s, s.ops[op].ref)
    requires Run(s, after, t) && FaultFree(before) && FaultFree(after)
    ensures s.ops[op].ref !in OpenedIn(s, after)
    ensures s.ops[op].ref in t.pool.records
    ensures t.pool.records[s.ops[op].ref].port == 0 && t.pool.records[s.ops[op].ref].token == None
    ensures
      (forall o :: o in t.ops && IsOpen(t.ops[o]) ==> t.ops[o].ref != s.ops[op].ref) && !IsPending(t, s.ops[op].ref) ==>
      forall pid :: pid in t.pool.alive ==> !Carries(t.pool, s.ops[op].ref, pid)
  {
    var r := s.ops[op].ref;
    StartIsFine(maxWorkers);
    RunKeeps(Start(maxWorkers), before, s);
    RunKeeps(s, after, t);
    RemovedForGood(s, after, t, r);
    assert OpOk(s.pool, s.ops[op]);
    if (forall o :: o in t.ops && IsOpen(t.ops[o]) ==> t.ops[o].ref != r) && !IsPending(t, r) {
      forall pid | pid in t.pool.alive ensures !Carries(t.pool, r, pid) {
        if Carries(t.pool, r, pid) {
          StillAlive(s, after, t, pid);
          if pid in s.pool.launched {
            NoOrphans(maxWorkers, before, s, pid);
          }
          FaultFreeAbandonsNone(s, after);
          OrphansAreAbandoned(s, after, t, pid);
          NobodyElseCarries(t, r, pid);
        }
      }
    }
  }

  lemma NobodyElseCarries(t: State, r: Ref, pid: Pid)
    requires Inv(t) && Carries(t.pool, r, pid)
    requires Accounted(t, pid)
    ensures Registered(t.pool, r) || IsPending(t, r) || exists o :: o in t.ops && IsOpen(t.ops[o]) && t.ops[o].ref == r
  {
    if InSession(t, pid) {
      var id :| id in t.pool.sessions && Carries(t.pool, t.pool.sessions[id], pid);
      assert t.pool.sessions[id] == r;
    } else if InOpen(t, pid) {
      var o :| o in t.ops && Holds(t.ops[o]) && t.ops[o].pid == pid;
      assert OpOk(t.pool, t.ops[o]);
      assert t.ops[o].ref == r;
    } else {
      var q :| q in t.pool.records && Carries(t.pool, q, pid) && IsPending(t, q);
      assert q == r;
    }
  }

  // ---------------------------------------------------------------- the fault that does orphan

  /**
    The code catches only its own spawn error after launching, so a different exception (a thread
    that cannot be started) in an open that was closed in the meantime leaves its worker running with
    nobody to stop it.
  */
  lemma FaultCanOrphan(maxWorkers: nat, id: SessionId) returns (acts: seq<Action>, t: State)
    ensures Run(Start(maxWorkers), acts, t)
    ensures t.ops == map[] && t.pool.sessions == map[] && 7 in t.pool.alive && !Accounted(t, 7)
  {
    hide *;
    var mid := OpenedThenClosed(maxWorkers, id);
    var rest: seq<Action>;
    rest, t := AttachedThenFaulted(maxWorkers, id);
    acts := Prepend(mid[2], Close(2, id), rest, t);
    acts := Prepend(mid[1], Launch(1, 7), acts, t);
    acts := Prepend(mid[0], Open(1, None, id, 0), acts, t);
    NothingAccounts(t, 7);
  }

  /** With nothing registered an open gets a reservation. */
  lemma EmptyReserve(p: Pool, preferred: Option<SessionId>, minted: SessionId, ref: Ref)
    requires p.sessions == map[]
    ensures Known(p) && Reserve(p, preferred, minted, ref)
      == (WithReservation(p, ChosenId(preferred, minted), ref), Reserved(ref))
  {
    assert Reap(p) == p;
  }

  lemma OpenedThenClosed(maxWorkers: nat, id: SessionId) returns (states: seq<State>)
    ensures |states| == 4 && states[0] == Start(maxWorkers) && states[3] == Midway(maxWorkers, id)
    ensures Enabled(states[0], Open(1, None, id, 0)) && Apply(states[0], Open(1, None, id, 0)) == states[1]
    ensures Enabled(states[1], Launch(1, 7)) && Apply(states[1], Launch(1, 7)) == states[2]
    ensures Enabled(states[2], Close(2, id)) && Apply(states[2], Close(2, id)) == states[3]
  {
    hide Reserve, HasExited, Reap, Commit, Get, Kill, Terminate, DeadIds, IsAlive;
    var s0 := Start(maxWorkers);
    EmptyReserve(s0.pool, None, id, 0);
    var s1 := State(Pool(maxWorkers, map[id := 0], map[0 := Session(id, 0, None, None)], {}, {}),
                    map[1 := Preparing(0)]);
    var s2 := State(s1.pool.(launched := {7}, alive := {7}), map[1 := Launched(0, 7)]);
    var s3 := Midway(maxWorkers, id);
    assert Apply(s2, Close(2, id)) == s3;
    states := [s0, s1, s2, s3];
  }

  /** The open has launched its worker, and a close has popped the session but not yet terminated it. */
  function Midway(maxWorkers: nat, id: SessionId): State {
    State(Pool(maxWorkers, map[], map[0 := Session(id, 0, None, None)], {7}, {7}),
          map[1 := Launched(0, 7), 2 := Terminating({0})])
  }

  lemma AttachedThenFaulted(maxWorkers: nat, id: SessionId) returns (acts: seq<Action>, t: State)
    ensures Run(Midway(maxWorkers, id), acts, t)
    ensures t.ops == map[] && t.pool.sessions == map[] && 7 in t.pool.alive
  {
    hide Run;
    var s3 := Midway(maxWorkers, id);
    var s4 := State(s3.pool, map[1 := Launched(0, 7)]);
    assert {0} - {0} == {};
    assert Apply(s3, TerminateOne(2, 0)) == s4;
    var p5 := s4.pool.(records := map[0 := Session(id, 0, None, Some(7))]);
    var s5, s6 := State(p5, map[1 := Waiting(0, 7)]), State(p5, map[1 := Failing(0)]);
    t := State(p5, map[]);
    assert Apply(s4, Attach(1)) == s5 && Apply(s5, Fault(1)) == s6 && Apply(s6, Discard(1)) == t;
    hide Apply, Enabled;
    acts := Prepend(s6, Discard(1), [], t) by { RunNothing(t); }
    acts := Prepend(s5, Fault(1), acts, t);
    acts := Prepend(s4, Attach(1), acts, t);
    acts := Prepend(s3, TerminateOne(2, 0), acts, t);
  }

  /**
    The limit counts registered sessions, not processes: while a closed open has yet to notice, a
    second one can launch its worker under a limit of one.
  */
  lemma LimitCanBeExceeded(id: SessionId) returns (acts: seq<Action>, t: State)
    ensures FaultFree(acts) && Run(Start(1), acts, t)
    ensures |t.pool.sessions| == 1 && |t.pool.alive| == 2
  {
    var mid := OpenedThenClosed(1, id);
    var s4;
    s4, t := OpenedBeside(id);
    assert FaultFree([]);
    hide *;
    acts := Prepend(s4, Launch(3, 8), [], t) by { RunNothing(t); }
    acts := Prepend(mid[3], Open(3, None, id, 1), acts, t);
    acts := Prepend(mid[2], Close(2, id), acts, t);
    acts := Prepend(mid[1], Launch(1, 7), acts, t);
    acts := Prepend(mid[0], Open(1, None, id, 0), acts, t);
  }

  lemma OpenedBeside(id: SessionId) returns (s4: State, t: State)
    ensures var s3 := Midway(1, id);
      && Enabled(s3, Open(3, None, id, 1)) && Apply(s3, Open(3, None, id, 1)) == s4
      && Enabled(s4, Launch(3, 8)) && Apply(s4, Launch(3, 8)) == t
    ensures |t.pool.sessions| == 1 && |t.pool.alive| == 2
  {
    hide Reserve, HasExited, Reap, Commit, Get, Kill, Terminate, DeadIds, IsAlive;
    var s3 := Midway(1, id);
    EmptyReserve(s3.pool, None, id, 1);
    s4 := Apply(s3, Open(3, None, id, 1));
    t := Apply(s4, Launch(3, 8));
  }

  lemma RunNothing(t: State)
    ensures Run(t, [], t)
  {
    RunUnfolds(t, [], t);
  }

  lemma NothingAccounts(t: State, pid: Pid)
    requires t.ops == map[] && t.pool.sessions == map[]
    ensures !Accounted(t, pid)
  {
  }

  lemma Prepend(s: State, a: Action, acts: seq<Action>, t: State) returns (longer: seq<Action>)
    requires Enabled(s, a) && Run(Apply(s, a), acts, t)
    ensures longer == [a] + acts && Run(s, longer, t)
    ensures FaultFree(acts) && !a.Fault? ==> FaultFree(longer)
  {
    longer := [a] + acts;
    assert longer[1..] == acts;
    RunUnfolds(s, longer, t);
    hide Run, Enabled, Apply;
  }

  // ---------------------------------------------------------------- the discard that hits another open

  /** A failing open pops somebody else's session exactly when its id is registered for another record by then. */
  lemma DiscardHitsAnother(s: State, op: OpId)
    requires Inv(s) && Enabled(s, Discard(op))
    ensures var own := s.ops[op].ref;
      var id := s.pool.records[own].id;
      (exists r :: r != own && Registered(s.pool, r) && Removed(Apply(s, Discard(op)), r))
        <==> (id in s.pool.sessions && s.pool.sessions[id] != own)
  {
    var own := s.ops[op].ref;
    var id := s.pool.records[own].id;
    var t := Apply(s, Discard(op));
    hide OpsOk, SessionsOk;
    if id in s.pool.sessions && s.pool.sessions[id] != own {
      assert Registered(s.pool, s.pool.sessions[id]) && Removed(t, s.pool.sessions[id]);
    }
  }

  /**
    `_discard` pops by id: an open that fails after its reservation was closed cancels a later open of
    the same preferred id, which nobody closed.
  */
  lemma DiscardCanCancelAnother(maxWorkers: nat, id: SessionId) returns (acts: seq<Action>, t: State)
    requires id.text != ""
    ensures acts == [Open(1, Some(id), id, 0), Close(2, id), Open(3, Some(id), id, 1), PrepareFails(1), Discard(1)]
    ensures Run(Start(maxWorkers), acts, t)
    ensures t.ops.Keys == {1, 2, 3} && t.ops[3] == Preparing(1) && Removed(t, 1)
  {
    hide *;
    var s0, s3 := Start(maxWorkers), Reopened(maxWorkers, id);
    var s1, s2 := OpenedThenClosedEarly(maxWorkers, id);
    var s4;
    s4, t := FailedThenDiscarded(maxWorkers, id);
    acts := Prepend(s4, Discard(1), [], t) by { RunNothing(t); }
    acts := Prepend(s3, PrepareFails(1), acts, t);
    acts := Prepend(s2, Open(3, Some(id), id, 1), acts, t);
    acts := Prepend(s1, Close(2, id), acts, t);
    acts := Prepend(s0, Open(1, Some(id), id, 0), acts, t);
  }

  lemma FailedThenDiscarded(maxWorkers: nat, id: SessionId) returns (s4: State, t: State)
    ensures var s3 := Reopened(maxWorkers, id);
      Enabled(s3, PrepareFails(1)) && Apply(s3, PrepareFails(1)) == s4 && Enabled(s4, Discard(1))
        && Apply(s4, Discard(1)) == t
    ensures t.ops.Keys == {1, 2, 3} && t.ops[3] == Preparing(1) && Removed(t, 1)
  {
    var s3 := Reopened(maxWorkers, id);
    s4 := s3.(ops := s3.ops[1 := Failing(0)]);
    t := Apply(s4, Discard(1));
    assert t.pool.sessions == map[] && t.ops == s4.ops[1 := Terminating({1})];
  }

  lemma OpenedThenClosedEarly(maxWorkers: nat, id: SessionId) returns (s1: State, s2: State)
    requires id.text != ""
    ensures Enabled(Start(maxWorkers), Open(1, Some(id), id, 0))
      && Apply(Start(maxWorkers), Open(1, Some(id), id, 0)) == s1
    ensures Enabled(s1, Close(2, id)) && Apply(s1, Close(2, id)) == s2
    ensures Enabled(s2, Open(3, Some(id), id, 1)) && Apply(s2, Open(3, Some(id), id, 1)) == Reopened(maxWorkers, id)
  {
    hide Reserve, HasExited, Reap, Commit, Get, Kill, Terminate, DeadIds, IsAlive;
    var s0 := Start(maxWorkers);
    EmptyReserve(s0.pool, Some(id), id, 0);
    s1 := State(Pool(maxWorkers, map[id := 0], map[0 := Session(id, 0, None, None)], {}, {}), map[1 := Preparing(0)]);
    s2 := State(s1.pool.(sessions := map[]), map[1 := Preparing(0), 2 := Terminating({0})]);
    assert s1.pool.sessions - {id} == map[];
    EmptyReserve(s2.pool, Some(id), id, 1);
  }

  /** A first open is still preparing, its reservation was closed, and a second open has reserved the same id. */
  function Reopened(maxWorkers: nat, id: SessionId): State {
    State(Pool(maxWorkers, map[id := 1], map[0 := Session(id, 0, None, None), 1 := Session(id, 0, None, None)], {}, {}),
          map[1 := Preparing(0), 2 := Terminating({0}), 3 := Preparing(1)])
  }
}
