/**
  The worker-pool lifecycle (src/idamesh/infrastructure/process/worker_pool.py).

  `Pool` is what the lock guards plus the operating system's process table.  A session record is
  filled in over several steps by the thread that opens it while other threads hold the same record,
  so records are kept in a store and named by identity (`Ref`).  The functions on `Pool` are the
  critical sections; the class in WorkerPoolObject.dfy implements them in place; and this module
  interleaves them, one program counter for each operation in flight.
*/
module WorkerPool {
  import opened Common

  datatype SessionId = SessionId(text: string)

  type Ref = nat
  type Pid = nat
  type OpId = nat

  // port 0: reserved, still opening
  datatype Session = Session(id: SessionId, port: nat, token: Option<string>, process: Option<Pid>)

  datatype Pool = Pool(maxWorkers: nat, sessions: map<SessionId, Ref>, records: map<Ref, Session>,
                       launched: set<Pid>, alive: set<Pid>)

  // ---------------------------------------------------------------- critical sections

  predicate Known(p: Pool) {
    forall id :: id in p.sessions ==> p.sessions[id] in p.records
  }

  predicate HasExited(p: Pool, r: Ref) {
    r in p.records && p.records[r].process.Some? && p.records[r].process.value !in p.alive
  }

  /** Liveness of a headless session: a process still running, or a reservation that has none yet. */
  predicate IsAlive(p: Pool, r: Ref)
    requires r in p.records
  {
    match p.records[r].process
    case None => p.records[r].port == 0
    case Some(pid) => pid in p.alive
  }

  function DeadIds(p: Pool): set<SessionId> {
    set id | id in p.sessions && HasExited(p, p.sessions[id])
  }

  function Reap(p: Pool): Pool {
    p.(sessions := p.sessions - DeadIds(p))
  }

  datatype Reservation = StillOpening | Shared(ref: Ref) | LimitReached | Reserved(ref: Ref)

  function ChosenId(preferred: Option<SessionId>, minted: SessionId): SessionId {
    if preferred.Some? && preferred.value.text != "" then preferred.value else minted
  }

  function WithReservation(p: Pool, id: SessionId, ref: Ref): Pool {
    p.(sessions := p.sessions[id := ref], records := p.records[ref := Session(id, 0, None, None)])
  }

  function WithProcess(p: Pool, r: Ref, pid: Pid): Pool
    requires r in p.records
  {
    p.(records := p.records[r := p.records[r].(process := Some(pid))])
  }

  /** The section that opens with sharing, then reaps, checks the cap and reserves the id. */
  function Reserve(p: Pool, preferred: Option<SessionId>, minted: SessionId, ref: Ref): (r: (Pool, Reservation))
    requires Known(p)
    ensures r.0.alive == p.alive && r.0.launched == p.launched && r.0.maxWorkers == p.maxWorkers
  {
    var known := preferred.Some? && preferred.value.text != "" && preferred.value in p.sessions;
    if known && p.records[p.sessions[preferred.value]].port == 0 then (p, StillOpening)
    else if known && IsAlive(p, p.sessions[preferred.value]) then (p, Shared(p.sessions[preferred.value]))
    else
      var q := Reap(p);
      if p.maxWorkers != 0 && |q.sessions| >= p.maxWorkers then (q, LimitReached)
      else
        var id := ChosenId(preferred, minted);
        (WithReservation(q, id, ref), Reserved(ref))
  }

  predicate Registered(p: Pool, r: Ref) {
    r in p.records && p.records[r].id in p.sessions && p.sessions[p.records[r].id] == r
  }

  /** Publish the endpoint, but only while the caller's own reservation is still the registered one. */
  function Commit(p: Pool, r: Ref, port: nat, token: string): (c: (Pool, bool))
    ensures c.0.alive == p.alive && c.0.launched == p.launched && c.0.maxWorkers == p.maxWorkers
  {
    if Registered(p, r) then (p.(records := p.records[r := p.records[r].(port := port, token := Some(token))]), true)
    else (p, false)
  }

  function Pop(p: Pool, id: SessionId): (r: (Pool, Option<Ref>))
    ensures r.0.alive == p.alive && r.0.launched == p.launched && r.0.records == p.records
      && r.0.maxWorkers == p.maxWorkers
  {
    if id in p.sessions then (p.(sessions := p.sessions - {id}), Some(p.sessions[id])) else (p, None)
  }

  datatype Lookup = Unknown | Found(ref: Ref) | Died(ref: Ref)

  /** `get`: a ready live session, nothing, or a dead session that is dropped on the way. */
  function Get(p: Pool, id: SessionId): (r: (Pool, Lookup))
    requires Known(p)
    ensures r.0.alive == p.alive && r.0.launched == p.launched && r.0.records == p.records
      && r.0.maxWorkers == p.maxWorkers
  {
    if id !in p.sessions || p.records[p.sessions[id]].port == 0 then (p, Unknown)
    else if !IsAlive(p, p.sessions[id]) then (Pop(p, id).0, Died(p.sessions[id]))
    else (p, Found(p.sessions[id]))
  }

  function Ready(p: Pool): set<Ref>
    requires Known(p)
  {
    set id | id in p.sessions && p.records[p.sessions[id]].port != 0 :: p.sessions[id]
  }

  function Kill(p: Pool, pid: Pid): Pool {
    p.(alive := p.alive - {pid})
  }

  function Terminate(p: Pool, r: Ref): Pool {
    if r in p.records && p.records[r].process.Some? then Kill(p, p.records[r].process.value) else p
  }

  // ---------------------------------------------------------------- operations in flight

  datatype Op =
    | Preparing(ref: Ref)                                            // reserved: copying, then launching
    | Launched(ref: Ref, pid: Pid)                                   // process started, not yet on the record
    | Waiting(ref: Ref, pid: Pid)                                    // on the record, awaiting the handshake
    | Bound(ref: Ref, pid: Pid, port: nat, token: string)            // handshake read, about to commit
    | Cancelled(ref: Ref, pid: Pid)                                  // commit refused: must kill
    | Unready(ref: Ref, pid: Pid)                                    // handshake failed: must kill, then discard
    | Failing(ref: Ref)                                              // must discard by id
    | Terminating(pending: set<Ref>)                                 // popped records still to terminate

  datatype State = State(pool: Pool, ops: map<OpId, Op>)

  datatype Action =
    | Open(op: OpId, preferred: Option<SessionId>, minted: SessionId, ref: Ref)
    | PrepareFails(op: OpId)
    | Launch(op: OpId, pid: Pid)
    | Attach(op: OpId)
    | Handshake(op: OpId, port: nat, token: string)
    | HandshakeFails(op: OpId)
    | Fault(op: OpId)             // any exception other than the spawn error, once the process is attached
    | TryCommit(op: OpId)
    | KillWorker(op: OpId)
    | Discard(op: OpId)
    | Close(op: OpId, id: SessionId)
    | CloseAll(op: OpId)
    | Find(op: OpId, id: SessionId)
    | ReapDead
    | TerminateOne(op: OpId, ref: Ref)
    | Die(pid: Pid)               // a process exits by itself

  predicate Enabled(s: State, a: Action) {
    match a
    case Open(op, _, minted, ref) => op !in s.ops && ref !in s.pool.records && minted !in s.pool.sessions
      && Known(s.pool)
    case PrepareFails(op) => op in s.ops && s.ops[op].Preparing?
    case Launch(op, pid) => op in s.ops && s.ops[op].Preparing? && pid !in s.pool.launched
    case Attach(op) => op in s.ops && s.ops[op].Launched? && s.ops[op].ref in s.pool.records
    case Handshake(op, port, _) => op in s.ops && s.ops[op].Waiting? && port > 0
    case HandshakeFails(op) => op in s.ops && s.ops[op].Waiting?
    case Fault(op) => op in s.ops && s.ops[op].Waiting?
    case TryCommit(op) => op in s.ops && s.ops[op].Bound?
    case KillWorker(op) => op in s.ops && (s.ops[op].Cancelled? || s.ops[op].Unready?)
    case Discard(op) => op in s.ops && s.ops[op].Failing? && s.ops[op].ref in s.pool.records
    case Close(op, _) => op !in s.ops
    case CloseAll(op) => op !in s.ops
    case Find(op, _) => op !in s.ops && Known(s.pool)
    case ReapDead => true
    case TerminateOne(op, r) => op in s.ops && s.ops[op].Terminating? && r in s.ops[op].pending
    case Die(pid) => pid in s.pool.alive
  }

  function Done(s: State, p: Pool, op: OpId): State {
    State(p, s.ops - {op})
  }

  function Goto(s: State, p: Pool, op: OpId, stage: Op): State {
    State(p, s.ops[op := stage])
  }

  /** An operation that popped `refs` must terminate each of them before it returns. */
  function Owes(s: State, p: Pool, op: OpId, refs: set<Ref>): State {
    if refs == {} then Done(s, p, op) else Goto(s, p, op, Terminating(refs))
  }

  function Apply(s: State, a: Action): State
    requires Enabled(s, a)
  {
    match a
    case Open(op, preferred, minted, ref) =>
      var (p, r) := Reserve(s.pool, preferred, minted, ref);
      if r.Reserved? then Goto(s, p, op, Preparing(ref)) else State(p, s.ops)
    case PrepareFails(op) => Goto(s, s.pool, op, Failing(s.ops[op].ref))
    case Launch(op, pid) =>
      Goto(s, s.pool.(launched := s.pool.launched + {pid}, alive := s.pool.alive + {pid}), op,
           Launched(s.ops[op].ref, pid))
    case Attach(op) =>
      var r, pid := s.ops[op].ref, s.ops[op].pid;
      Goto(s, WithProcess(s.pool, r, pid), op, Waiting(r, pid))
    case Handshake(op, port, token) => Goto(s, s.pool, op, Bound(s.ops[op].ref, s.ops[op].pid, port, token))
    case HandshakeFails(op) => Goto(s, s.pool, op, Unready(s.ops[op].ref, s.ops[op].pid))
    case Fault(op) => Goto(s, s.pool, op, Failing(s.ops[op].ref))
    case TryCommit(op) =>
      var Bound(r, pid, port, token) := s.ops[op];
      var (p, ok) := Commit(s.pool, r, port, token);
      if ok then Done(s, p, op) else Goto(s, p, op, Cancelled(r, pid))
    case KillWorker(op) =>
      var p := Kill(s.pool, s.ops[op].pid);
      if s.ops[op].Cancelled? then Done(s, p, op) else Goto(s, p, op, Failing(s.ops[op].ref))
    case Discard(op) =>
      var (p, r) := Pop(s.pool, s.pool.records[s.ops[op].ref].id);
      Owes(s, p, op, if r.Some? then {r.value} else {})
    case Close(op, id) =>
      var (p, r) := Pop(s.pool, id);
      Owes(s, p, op, if r.Some? then {r.value} else {})
    case CloseAll(op) => Owes(s, s.pool.(sessions := map[]), op, s.pool.sessions.Values)
    case Find(op, id) =>
      var (p, r) := Get(s.pool, id);
      Owes(s, p, op, if r.Died? then {r.ref} else {})
    case ReapDead => State(Reap(s.pool), s.ops)
    case TerminateOne(op, r) => Owes(s, Terminate(s.pool, r), op, s.ops[op].pending - {r})
    case Die(pid) => State(Kill(s.pool, pid), s.ops)
  }

  /** What the caller of an open sees when its step returns: a session, or nothing. */
  function Opened(s: State, a: Action): Option<Ref>
    requires Enabled(s, a)
  {
    match a
    case Open(_, preferred, minted, ref) =>
      var r := Reserve(s.pool, preferred, minted, ref).1;
      if r.Shared? then Some(r.ref) else None
    case TryCommit(op) => if Registered(s.pool, s.ops[op].ref) then Some(s.ops[op].ref) else None
    case _ => None
  }

  /** The states passed through when `acts` are taken one after the other. */
  ghost predicate IsTrace(states: seq<State>, acts: seq<Action>) {
    && |states| == |acts| + 1
    && forall i :: 0 <= i < |acts| ==> Enabled(states[i], acts[i]) && states[i + 1] == Apply(states[i], acts[i])
  }

  /** `acts` leads from `s` to `t`. */
  ghost predicate Run(s: State, acts: seq<Action>, t: State) {
    exists states :: IsTrace(states, acts) && states[0] == s && states[|acts|] == t
  }

  lemma RunUnfolds(s: State, acts: seq<Action>, t: State)
    ensures Run(s, acts, t) <==> if acts == [] then s == t
      else Enabled(s, acts[0]) && Run(Apply(s, acts[0]), acts[1..], t)
  {
    hide Enabled, Apply;
    if acts == [] {
      assert IsTrace([s], acts);
    } else {
      if Run(s, acts, t) {
        var states :| IsTrace(states, acts) && states[0] == s && states[|acts|] == t;
        TraceDrops(states, acts);
        assert states[1..][|acts[1..]|] == t;
      }
      if Enabled(s, acts[0]) && Run(Apply(s, acts[0]), acts[1..], t) {
        var later :| IsTrace(later, acts[1..]) && later[0] == Apply(s, acts[0]) && later[|acts[1..]|] == t;
        TraceGrows(s, later, acts);
        assert ([s] + later)[|acts|] == t;
      }
    }
  }

  lemma TraceDrops(states: seq<State>, acts: seq<Action>)
    requires IsTrace(states, acts) && acts != []
    ensures Enabled(states[0], acts[0]) && states[1] == Apply(states[0], acts[0]) && IsTrace(states[1..], acts[1..])
  {
    hide Enabled, Apply;
    forall i | 0 <= i < |acts[1..]|
      ensures Enabled(states[1..][i], acts[1..][i]) && states[1..][i + 1] == Apply(states[1..][i], acts[1..][i]) {
      assert Enabled(states[i + 1], acts[i + 1]) && states[i + 1 + 1] == Apply(states[i + 1], acts[i + 1]);
    }
  }

  lemma TraceGrows(s: State, later: seq<State>, acts: seq<Action>)
    requires acts != [] && Enabled(s, acts[0]) && IsTrace(later, acts[1..]) && later[0] == Apply(s, acts[0])
    ensures IsTrace([s] + later, acts)
  {
    hide Enabled, Apply;
    var states := [s] + later;
    forall i | 0 <= i < |acts| ensures Enabled(states[i], acts[i]) && states[i + 1] == Apply(states[i], acts[i]) {
      if i > 0 {
        assert states[i] == later[i - 1] && acts[i] == acts[1..][i - 1] && states[i + 1] == later[i - 1 + 1];
      }
    }
  }

  function Start(maxWorkers: nat): State {
    State(Pool(maxWorkers, map[], map[], {}, {}), map[])
  }

  // ---------------------------------------------------------------- invariants

  predicate IsOpen(op: Op) { !op.Terminating? }

  /** The open has a process of its own: it has launched one and not yet let go of it. */
  predicate Holds(op: Op) {
    op.Launched? || op.Waiting? || op.Bound? || op.Cancelled? || op.Unready?
  }

  predicate Attached(op: Op) {
    op.Waiting? || op.Bound? || op.Cancelled? || op.Unready?
  }

  ghost predicate RecordsOk(s: State) {
    && (forall id :: id in s.pool.sessions ==>
          s.pool.sessions[id] in s.pool.records && s.pool.records[s.pool.sessions[id]].id == id)
    && (forall r :: r in s.pool.records && s.pool.records[r].process.Some? ==>
          s.pool.records[r].process.value in s.pool.launched)
    && (forall r, q :: r in s.pool.records && q in s.pool.records && r != q && s.pool.records[r].process.Some? ==>
          s.pool.records[r].process != s.pool.records[q].process)
    && s.pool.alive <= s.pool.launched
  }

  /** What each program counter knows about the record and the process it works on. */
  ghost predicate OpOk(p: Pool, x: Op) {
    if x.Terminating? then x.pending != {} && x.pending <= p.records.Keys
    else
      && x.ref in p.records
      && p.records[x.ref].port == 0 && p.records[x.ref].token == None
      && (x.Preparing? || x.Launched? ==> p.records[x.ref].process == None)
      && (Holds(x) ==> x.pid in p.launched)
      && (Attached(x) ==> p.records[x.ref].process == Some(x.pid))
      && (x.Launched? ==> forall r :: r in p.records ==> p.records[r].process != Some(x.pid))
      && (x.Cancelled? ==> !Registered(p, x.ref))
      && (x.Bound? ==> x.port > 0)
  }

  /** Two opens never share a record or a process. */
  ghost predicate Apart(x: Op, y: Op) {
    && (IsOpen(x) && IsOpen(y) ==> x.ref != y.ref)
    && (Holds(x) && Holds(y) ==> x.pid != y.pid)
  }

  ghost predicate OpsOk(s: State) {
    && (forall o :: o in s.ops ==> OpOk(s.pool, s.ops[o]))
    && (forall o, n :: o in s.ops && n in s.ops && o != n ==> Apart(s.ops[o], s.ops[n]))
  }

  ghost predicate Owned(ops: map<OpId, Op>, r: Ref) {
    exists o :: o in ops && IsOpen(ops[o]) && ops[o].ref == r
  }

  /** A published endpoint comes with a process and a token. */
  predicate Complete(x: Session) {
    x.port != 0 ==> x.process.Some? && x.token.Some?
  }

  predicate IsReady(p: Pool, r: Ref) {
    r in p.records && p.records[r].port != 0
  }

  /** A registered session is either ready, with a process and a token, or still owned by its open. */
  ghost predicate SessionsOk(s: State) {
    && (forall r :: r in s.pool.records ==> Complete(s.pool.records[r]))
    && (forall id :: id in s.pool.sessions ==>
          IsReady(s.pool, s.pool.sessions[id]) || Owned(s.ops, s.pool.sessions[id]))
    && (s.pool.maxWorkers != 0 ==> |s.pool.sessions| <= s.pool.maxWorkers)
  }

  ghost predicate Inv(s: State) {
    RecordsOk(s) && OpsOk(s) && SessionsOk(s)
  }

  // ---------------------------------------------------------------- every step keeps the invariant

  /** Sessions are only dropped, processes only exit, records stay as they are. */
  ghost predicate Shrinks(p: Pool, q: Pool) {
    && q.maxWorkers == p.maxWorkers && q.records == p.records && q.launched == p.launched
    && q.alive <= p.alive
    && q.sessions.Keys <= p.sessions.Keys
    && forall id :: id in q.sessions ==> q.sessions[id] == p.sessions[id]
  }

  lemma SmallerMap<K, V>(m: map<K, V>, n: map<K, V>)
    requires m.Keys <= n.Keys
    ensures |m| <= |n|
  {
    SmallerSet(m.Keys, n.Keys);
  }

  /** The program counters after one of them is set. */
  lemma PutKeeps(s: State, p: Pool, op: OpId, stage: Op)
    requires forall o, n :: o in s.ops && n in s.ops && o != n ==> Apart(s.ops[o], s.ops[n])
    requires forall o :: o in s.ops && o != op ==> OpOk(p, s.ops[o]) && Apart(s.ops[o], stage)
    requires OpOk(p, stage)
    ensures OpsOk(Goto(s, p, op, stage))
  {
    var t := Goto(s, p, op, stage);
    assert forall x, y :: Apart(x, y) ==> Apart(y, x);
    hide OpOk, Apart;
    forall o, n | o in t.ops && n in t.ops && o != n ensures Apart(t.ops[o], t.ops[n]) {
      if o == op {
        assert Apart(s.ops[n], stage);
      }
    }
  }

  lemma DropKeeps(s: State, op: OpId)
    requires OpsOk(s)
    ensures OpsOk(Done(s, s.pool, op))
  {
    hide OpOk, Apart;
  }

  lemma ShrinkKeeps(s: State, q: Pool)
    requires Inv(s) && Shrinks(s.pool, q)
    ensures Inv(State(q, s.ops))
  {
    SmallerMap(q.sessions, s.pool.sessions);
    assert OpsOk(State(q, s.ops)) by {
      forall o | o in s.ops ensures OpOk(q, s.ops[o]) {
        assert OpOk(s.pool, s.ops[o]);
      }
      hide OpOk, Apart;
    }
    hide OpsOk, Owned;
  }

  /** A session that is still opening keeps its owner when another operation changes. */
  lemma StillOwned(s: State, op: OpId, ops: map<OpId, Op>, r: Ref)
    requires Owned(s.ops, r)
    requires forall o :: o in s.ops && o != op ==> o in ops && ops[o] == s.ops[o]
    requires op in s.ops && IsOpen(s.ops[op]) && s.ops[op].ref == r ==>
      (op in ops && IsOpen(ops[op]) && ops[op].ref == r)
    ensures Owned(ops, r)
  {
    var o :| o in s.ops && IsOpen(s.ops[o]) && s.ops[o].ref == r;
    assert o in ops && IsOpen(ops[o]) && ops[o].ref == r;
  }

  lemma SessionsKept(s: State, op: OpId, ops: map<OpId, Op>)
    requires Inv(s)
    requires forall o :: o in s.ops && o != op ==> o in ops && ops[o] == s.ops[o]
    requires op in s.ops && IsOpen(s.ops[op]) && Registered(s.pool, s.ops[op].ref) ==>
      op in ops && IsOpen(ops[op]) && ops[op].ref == s.ops[op].ref
    ensures SessionsOk(State(s.pool, ops))
  {
    hide Owned, OpOk, Apart;
    forall id | id in s.pool.sessions && !IsReady(s.pool, s.pool.sessions[id])
      ensures Owned(ops, s.pool.sessions[id])
    {
      StillOwned(s, op, ops, s.pool.sessions[id]);
    }
  }

  /** An open may leave once its reservation is not the registered one; what it owes is then terminated. */
  lemma OweKeeps(s: State, op: OpId, refs: set<Ref>)
    requires Inv(s) && refs <= s.pool.records.Keys
    requires op in s.ops && IsOpen(s.ops[op]) ==> !Registered(s.pool, s.ops[op].ref)
    ensures Inv(Owes(s, s.pool, op, refs))
  {
    if refs == {} {
      OweNone(s, op);
    } else {
      OweSome(s, op, refs);
    }
    hide Inv;
  }

  lemma OweNone(s: State, op: OpId)
    requires Inv(s)
    requires op in s.ops && IsOpen(s.ops[op]) ==> !Registered(s.pool, s.ops[op].ref)
    ensures Inv(Done(s, s.pool, op))
  {
    SessionsKept(s, op, s.ops - {op});
    hide SessionsOk;
    DropKeeps(s, op);
    hide OpsOk;
  }

  lemma OweSome(s: State, op: OpId, refs: set<Ref>)
    requires Inv(s) && refs != {} && refs <= s.pool.records.Keys
    requires op in s.ops && IsOpen(s.ops[op]) ==> !Registered(s.pool, s.ops[op].ref)
    ensures Inv(Goto(s, s.pool, op, Terminating(refs)))
  {
    var stage := Terminating(refs);
    SessionsKept(s, op, s.ops[op := stage]);
    hide SessionsOk;
    assert OpOk(s.pool, stage);
    assert forall o :: o in s.ops ==> Apart(s.ops[o], stage);
    PutKeeps(s, s.pool, op, stage);
    hide OpsOk;
  }

  lemma MoveKeeps(s: State, op: OpId, stage: Op)
    requires Inv(s) && op in s.ops && IsOpen(s.ops[op]) && IsOpen(stage) && stage.ref == s.ops[op].ref
    requires !stage.Preparing? && !stage.Launched?
    requires Holds(stage) ==> Attached(s.ops[op]) && stage.pid == s.ops[op].pid
    requires stage.Cancelled? ==> !Registered(s.pool, stage.ref)
    requires stage.Bound? ==> stage.port > 0
    ensures Inv(Goto(s, s.pool, op, stage))
  {
    var t := Goto(s, s.pool, op, stage);
    SessionsKept(s, op, t.ops);
    assert OpOk(s.pool, stage) by { assert OpOk(s.pool, s.ops[op]); }
    forall o | o in s.ops && o != op ensures Apart(s.ops[o], stage) {
      assert Apart(s.ops[o], s.ops[op]);
    }
    PutKeeps(s, s.pool, op, stage);
    hide OpOk, Apart, SessionsOk;
  }

  lemma ReserveKeeps(s: State, op: OpId, preferred: Option<SessionId>, minted: SessionId, ref: Ref)
    requires Inv(s) && Enabled(s, Open(op, preferred, minted, ref))
    ensures Inv(Apply(s, Open(op, preferred, minted, ref)))
    ensures Reserve(s.pool, preferred, minted, ref).1.Reserved? ==>
      ChosenId(preferred, minted) !in Reap(s.pool).sessions
  {
    var (p, r) := Reserve(s.pool, preferred, minted, ref);
    var q := Reap(s.pool);
    ShrinkKeeps(s, q);
    if r.Reserved? {
      var id := ChosenId(preferred, minted);
      assert id !in q.sessions by {
        if id == minted {
        } else if id in s.pool.sessions {
          assert HasExited(s.pool, s.pool.sessions[id]);
        }
      }
      NewReservation(State(q, s.ops), op, id, ref);
    }
  }

  lemma NewReservation(s: State, op: OpId, id: SessionId, ref: Ref)
    requires Inv(s) && op !in s.ops && ref !in s.pool.records && id !in s.pool.sessions
    requires s.pool.maxWorkers != 0 ==> |s.pool.sessions| < s.pool.maxWorkers
    ensures Inv(Goto(s, WithReservation(s.pool, id, ref), op, Preparing(ref)))
  {
    var p := WithReservation(s.pool, id, ref);
    NewReservationSessions(s, op, id, ref);
    NewReservationRecords(s, s.ops[op := Preparing(ref)], id, ref);
    forall o | o in s.ops ensures OpOk(p, s.ops[o]) && Apart(s.ops[o], Preparing(ref)) {
      assert OpOk(s.pool, s.ops[o]);
      NewReservationOther(s.pool, s.ops[o], id, ref);
    }
    hide OpOk, Apart, RecordsOk, SessionsOk, WithReservation;
    PutKeeps(s, p, op, Preparing(ref));
  }

  lemma NewReservationOther(p: Pool, x: Op, id: SessionId, ref: Ref)
    requires OpOk(p, x) && ref !in p.records
    ensures OpOk(WithReservation(p, id, ref), x) && Apart(x, Preparing(ref))
  {
  }

  lemma NewReservationRecords(s: State, ops: map<OpId, Op>, id: SessionId, ref: Ref)
    requires RecordsOk(s) && ref !in s.pool.records
    ensures RecordsOk(State(WithReservation(s.pool, id, ref), ops))
      && OpOk(WithReservation(s.pool, id, ref), Preparing(ref))
  {
  }

  lemma NewReservationSessions(s: State, op: OpId, id: SessionId, ref: Ref)
    requires RecordsOk(s) && SessionsOk(s) && op !in s.ops && ref !in s.pool.records && id !in s.pool.sessions
    requires s.pool.maxWorkers != 0 ==> |s.pool.sessions| < s.pool.maxWorkers
    ensures SessionsOk(Goto(s, WithReservation(s.pool, id, ref), op, Preparing(ref)))
  {
    var p := WithReservation(s.pool, id, ref);
    var t := Goto(s, p, op, Preparing(ref));
    OneMore(s.pool.sessions, id, ref);
    assert Complete(p.records[ref]);
    forall i | i in p.sessions ensures IsReady(p, p.sessions[i]) || Owned(t.ops, p.sessions[i]) {
      hide RecordsOk, Complete;
      if i == id {
        assert t.ops[op].ref == ref;
      } else {
        assert IsReady(s.pool, s.pool.sessions[i]) || Owned(s.ops, s.pool.sessions[i]);
        hide IsReady;
        if Owned(s.ops, s.pool.sessions[i]) {
          StillOwned(s, op, t.ops, s.pool.sessions[i]);
        } else {
          StillReady(s.pool, id, ref, s.pool.sessions[i]);
        }
      }
    }
    hide Owned, RecordsOk, IsReady, Complete;
  }

  lemma OneMore<K, V>(m: map<K, V>, k: K, v: V)
    requires k !in m
    ensures |m[k := v]| == |m| + 1
  {
    assert m[k := v].Keys == m.Keys + {k};
  }

  lemma StillReady(p: Pool, id: SessionId, ref: Ref, r: Ref)
    requires ref !in p.records && IsReady(p, r)
    ensures IsReady(WithReservation(p, id, ref), r)
  {
  }

  lemma LaunchKeeps(s: State, op: OpId, pid: Pid)
    requires Inv(s) && Enabled(s, Launch(op, pid))
    ensures Inv(Apply(s, Launch(op, pid)))
  {
    var t := Apply(s, Launch(op, pid));
    var r := s.ops[op].ref;
    SessionsKept(s, op, t.ops);
    assert OpOk(s.pool, s.ops[op]);
    forall o | o in s.ops && o != op ensures OpOk(t.pool, s.ops[o]) && Apart(s.ops[o], Launched(r, pid)) {
      assert OpOk(s.pool, s.ops[o]) && Apart(s.ops[o], s.ops[op]);
      hide OpOk, Apart, Owned, RecordsOk, SessionsOk;
      LaunchKeepsOther(s.pool, t.pool, s.ops[o], r, pid);
    }
    assert OpOk(t.pool, Launched(r, pid)) && RecordsOk(t) by { hide Owned, SessionsOk, Apart; }
    hide OpOk, Apart, Owned, RecordsOk;
    PutKeeps(s, t.pool, op, Launched(r, pid));
  }

  lemma LaunchKeepsOther(p: Pool, q: Pool, x: Op, r: Ref, pid: Pid)
    requires OpOk(p, x) && Apart(x, Preparing(r)) && pid !in p.launched
    requires q == p.(launched := p.launched + {pid}, alive := p.alive + {pid})
    ensures OpOk(q, x) && Apart(x, Launched(r, pid))
  {
  }

  lemma AttachKeeps(s: State, op: OpId)
    requires Inv(s) && Enabled(s, Attach(op))
    ensures Inv(Apply(s, Attach(op)))
  {
    var r, pid := s.ops[op].ref, s.ops[op].pid;
    var p := WithProcess(s.pool, r, pid);
    var t := Goto(s, p, op, Waiting(r, pid));
    assert t == Apply(s, Attach(op));
    SessionsKept(s, op, t.ops);
    AttachKeepsSessions(s.pool, t.ops, r, pid);
    assert OpOk(s.pool, s.ops[op]) && RecordsOk(s);
    forall o | o in s.ops && o != op ensures OpOk(p, s.ops[o]) && Apart(s.ops[o], Waiting(r, pid)) {
      assert OpOk(s.pool, s.ops[o]) && Apart(s.ops[o], s.ops[op]);
      AttachKeepsOther(s.pool, s.ops[o], r, pid);
    }
    AttachKeepsRecords(s, t.ops, r, pid);
    hide OpOk, Apart, RecordsOk, SessionsOk, Apply, WithProcess, Enabled;
    PutKeeps(s, p, op, Waiting(r, pid));
  }

  lemma AttachKeepsOther(p: Pool, x: Op, r: Ref, pid: Pid)
    requires OpOk(p, Launched(r, pid)) && OpOk(p, x) && Apart(x, Launched(r, pid))
    ensures OpOk(WithProcess(p, r, pid), x) && OpOk(WithProcess(p, r, pid), Waiting(r, pid))
    ensures Apart(x, Waiting(r, pid))
  {
  }

  lemma AttachKeepsRecords(s: State, ops: map<OpId, Op>, r: Ref, pid: Pid)
    requires RecordsOk(s) && OpOk(s.pool, Launched(r, pid))
    ensures RecordsOk(State(WithProcess(s.pool, r, pid), ops)) && OpOk(WithProcess(s.pool, r, pid), Waiting(r, pid))
  {
  }

  lemma AttachKeepsSessions(p: Pool, ops: map<OpId, Op>, r: Ref, pid: Pid)
    requires SessionsOk(State(p, ops)) && r in p.records
    ensures SessionsOk(State(WithProcess(p, r, pid), ops))
  {
    hide Owned;
  }

  lemma CommitKeeps(s: State, op: OpId)
    requires Inv(s) && Enabled(s, TryCommit(op)) && Registered(s.pool, s.ops[op].ref)
    ensures Inv(Apply(s, TryCommit(op)))
  {
    var t := Apply(s, TryCommit(op));
    var Bound(r, pid, port, token) := s.ops[op];
    assert OpOk(s.pool, s.ops[op]);
    forall o | o in t.ops ensures OpOk(t.pool, t.ops[o]) {
      assert OpOk(s.pool, s.ops[o]) && Apart(s.ops[o], s.ops[op]);
      hide OpOk, Apart, Owned, RecordsOk, SessionsOk, OpsOk;
      CommitKeepsOther(s.pool, s.ops[o], r, pid, port, token);
    }
    hide OpOk, Apart;
    forall id | id in t.pool.sessions && !IsReady(t.pool, t.pool.sessions[id])
      ensures Owned(t.ops, t.pool.sessions[id])
    {
      hide RecordsOk, OpsOk;
      StillOwned(s, op, t.ops, t.pool.sessions[id]);
    }
    assert RecordsOk(t) by { hide SessionsOk, OpsOk, Owned, IsReady; }
    hide Owned, RecordsOk;
  }

  lemma CommitKeepsOther(p: Pool, x: Op, r: Ref, pid: Pid, port: nat, token: string)
    requires OpOk(p, x) && Apart(x, Bound(r, pid, port, token)) && r in p.records
    ensures OpOk(Commit(p, r, port, token).0, x)
  {
  }

  /** Every step of every operation keeps the invariant. */
  lemma StepKeeps(s: State, a: Action)
    requires Inv(s) && Enabled(s, a)
    ensures Inv(Apply(s, a))
  {
    hide Inv;
    match a
    case Open(op, preferred, minted, ref) => ReserveKeeps(s, op, preferred, minted, ref);
    case PrepareFails(op) => MoveKeeps(s, op, Failing(s.ops[op].ref));
    case Launch(op, pid) => LaunchKeeps(s, op, pid);
    case Attach(op) => AttachKeeps(s, op);
    case Handshake(op, port, token) => MoveKeeps(s, op, Bound(s.ops[op].ref, s.ops[op].pid, port, token));
    case HandshakeFails(op) => MoveKeeps(s, op, Unready(s.ops[op].ref, s.ops[op].pid));
    case Fault(op) => MoveKeeps(s, op, Failing(s.ops[op].ref));
    case TryCommit(op) =>
      if Registered(s.pool, s.ops[op].ref) { CommitKeeps(s, op); }
      else { MoveKeeps(s, op, Cancelled(s.ops[op].ref, s.ops[op].pid)); }
    case KillWorker(op) =>
      var p := Kill(s.pool, s.ops[op].pid);
      ShrinkKeeps(s, p);
      if s.ops[op].Cancelled? {
        CancelledIsUnregistered(s, op);
        OweKeeps(State(p, s.ops), op, {});
      } else {
        MoveKeeps(State(p, s.ops), op, Failing(s.ops[op].ref));
      }
    case Discard(op) => PopKeeps(s, op, s.pool.records[s.ops[op].ref].id);
    case Close(op, id) => PopKeeps(s, op, id);
    case CloseAll(op) =>
      ShrinkKeeps(s, s.pool.(sessions := map[]));
      SessionsAreRecords(s);
      OweKeeps(State(s.pool.(sessions := map[]), s.ops), op, s.pool.sessions.Values);
    case Find(op, id) =>
      var (p, r) := Get(s.pool, id);
      ShrinkKeeps(s, p);
      SessionsAreRecords(s);
      OweKeeps(State(p, s.ops), op, if r.Died? then {r.ref} else {});
    case ReapDead => ShrinkKeeps(s, Reap(s.pool));
    case TerminateOne(op, r) =>
      ShrinkKeeps(s, Terminate(s.pool, r));
      PendingAreRecords(s, op);
      OweKeeps(State(Terminate(s.pool, r), s.ops), op, s.ops[op].pending - {r});
    case Die(pid) => ShrinkKeeps(s, Kill(s.pool, pid));
  }

  lemma PopKeeps(s: State, op: OpId, id: SessionId)
    requires Inv(s)
    requires op in s.ops ==> s.ops[op].Failing? && s.ops[op].ref in s.pool.records
                             && id == s.pool.records[s.ops[op].ref].id
    ensures var (p, r) := Pop(s.pool, id); Inv(Owes(s, p, op, if r.Some? then {r.value} else {}))
  {
    var (p, r) := Pop(s.pool, id);
    ShrinkKeeps(s, p);
    OweKeeps(State(p, s.ops), op, if r.Some? then {r.value} else {});
  }

  lemma SessionsAreRecords(s: State)
    requires Inv(s)
    ensures s.pool.sessions.Values <= s.pool.records.Keys
  {
  }

  lemma PendingAreRecords(s: State, op: OpId)
    requires Inv(s) && op in s.ops && s.ops[op].Terminating?
    ensures s.ops[op].pending <= s.pool.records.Keys
  {
  }

  lemma CancelledIsUnregistered(s: State, op: OpId)
    requires Inv(s) && op in s.ops && s.ops[op].Cancelled?
    ensures !Registered(s.pool, s.ops[op].ref)
  {
  }

  lemma {:induction false} RunKeeps(s: State, acts: seq<Action>, t: State)
    requires Inv(s) && Run(s, acts, t)
    ensures Inv(t)
    decreases |acts|
  {
    RunUnfolds(s, acts, t);
    hide Run, Inv;
    if acts != [] {
      StepKeeps(s, acts[0]);
      RunKeeps(Apply(s, acts[0]), acts[1..], t);
    }
  }
}
