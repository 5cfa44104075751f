/**
  The pool object itself: the bodies its lock protects, updating the session map in place
  (src/idamesh/infrastructure/process/worker_pool.py).  Each method is proved to take the state from
  `View()` to what the critical section of the same name in WorkerPool.dfy says.
*/
module WorkerPoolObject {
  import opened Common
  import opened WorkerPool

  class WorkerPoolState {
    const maxWorkers: nat
    var sessions: map<SessionId, Ref>
    var records: map<Ref, Session>
    var launched: set<Pid>
    var alive: set<Pid>

    function View(): Pool
      reads this
    {
      Pool(maxWorkers, sessions, records, launched, alive)
    }

    constructor (maxWorkers: nat)
      ensures View() == Start(maxWorkers).pool
    {
      this.maxWorkers := maxWorkers;
      sessions, records, launched, alive := map[], map[], {}, {};
    }

    /** Collect the ids whose process has exited, then pop each of them. */
    method ReapLocked() returns (dead: set<SessionId>)
      modifies this`sessions
      ensures View() == Reap(old(View()))
      ensures dead == DeadIds(old(View()))
    {
      dead := {};
      var todo := sessions.Keys;
      while todo != {}
        invariant todo <= sessions.Keys && sessions == old(sessions)
        invariant dead == set id | id in sessions.Keys - todo && HasExited(View(), sessions[id])
        decreases todo
      {
        var id :| id in todo;
        if HasExited(View(), sessions[id]) {
          dead := dead + {id};
        }
        todo := todo - {id};
      }
      assert dead == DeadIds(View());
      todo := dead;
      while todo != {}
        invariant todo <= dead
        invariant sessions == old(sessions) - (dead - todo)
        decreases todo
      {
        var id :| id in todo;
        sessions := sessions - {id};
        todo := todo - {id};
      }
    }

    /** The first locked section of an open: share, refuse, or reserve. */
    method ReserveLocked(preferred: Option<SessionId>, minted: SessionId, ref: Ref) returns (r: Reservation)
      requires Known(View()) && ref !in records && minted !in sessions
      modifies this`sessions, this`records
      ensures (View(), r) == Reserve(old(View()), preferred, minted, ref)
    {
      if preferred.Some? && preferred.value.text != "" && preferred.value in sessions {
        var existing := sessions[preferred.value];
        if records[existing].port == 0 {
          return StillOpening;
        }
        if IsAlive(View(), existing) {
          return Shared(existing);
        }
      }
      var dead := ReapLocked();
      if maxWorkers != 0 && |sessions| >= maxWorkers {
        return LimitReached;
      }
      var id := ChosenId(preferred, minted);
      records := records[ref := Session(id, 0, None, None)];
      sessions := sessions[id := ref];
      r := Reserved(ref);
    }

    /** The second locked section of an open: publish only if the reservation is still its own. */
    method CommitLocked(ref: Ref, port: nat, token: string) returns (stillRegistered: bool)
      modifies this`records
      ensures (View(), stillRegistered) == Commit(old(View()), ref, port, token)
      ensures stillRegistered <==>
        ref in old(records) && old(records)[ref].id in sessions && sessions[old(records)[ref].id] == ref
      ensures records.Keys == old(records).Keys && forall r :: r in records && r != ref ==>
        records[r] == old(records)[r]
      ensures stillRegistered ==> records[ref].port == port && records[ref].token == Some(token)
      ensures stillRegistered ==>
        records[ref].id == old(records)[ref].id && records[ref].process == old(records)[ref].process
      ensures !stillRegistered ==> records == old(records)
    {
      stillRegistered := Registered(View(), ref);
      if stillRegistered {
        records := records[ref := records[ref].(port := port)];
        records := records[ref := records[ref].(token := Some(token))];
        assert records == old(records)[ref := old(records)[ref].(port := port, token := Some(token))];
      }
    }

    /** `close_session` and `_discard` both start by popping the id, whoever holds it. */
    method PopLocked(id: SessionId) returns (r: Option<Ref>)
      modifies this`sessions
      ensures (View(), r) == Pop(old(View()), id)
      ensures sessions == old(sessions) - {id}
      ensures r == if id in old(sessions) then Some(old(sessions)[id]) else None
    {
      r := None;
      if id in sessions {
        r := Some(sessions[id]);
        sessions := sessions - {id};
      }
    }

    /** Best-effort kill of the process a popped record carries at that moment. */
    method TerminateRecord(ref: Ref)
      modifies this`alive
      ensures View() == Terminate(old(View()), ref)
      ensures forall pid :: pid in alive <==>
        pid in old(alive) && !(ref in records && records[ref].process == Some(pid))
    {
      if ref !in records || records[ref].process == None || records[ref].process.value !in alive {
        return;
      }
      alive := alive - {records[ref].process.value};
    }

    method GetLocked(id: SessionId) returns (r: Lookup)
      requires Known(View())
      modifies this`sessions
      ensures (View(), r) == Get(old(View()), id)
    {
      if id !in sessions || records[sessions[id]].port == 0 {
        return Unknown;
      }
      var session := sessions[id];
      if !IsAlive(View(), session) {
        var popped := PopLocked(id);
        return Died(session);
      }
      r := Found(session);
    }

    /** The ready sessions, each once, in the order they were created. */
    method ListLocked(createdAt: Ref -> int) returns (ready: seq<Ref>)
      requires Known(View())
      modifies this`sessions
      ensures View() == Reap(old(View()))
      ensures forall r :: r in ready <==> r in Ready(View())
      ensures forall i, j :: 0 <= i < j < |ready| ==> ready[i] != ready[j] && createdAt(ready[i]) <= createdAt(ready[j])
    {
      var dead := ReapLocked();
      var found := set id | id in sessions && records[sessions[id]].port != 0 :: sessions[id];
      ready := ByCreation(createdAt, found);
    }

    /** Some record of `refs` carries the process. */
    predicate CarriedBy(refs: set<Ref>, pid: Pid)
      reads this`records
    {
      exists r :: r in refs && r in records && records[r].process == Some(pid)
    }

    /** Empty the map, then terminate every session it held. */
    method CloseAllSessions()
      modifies this
      ensures sessions == map[] && records == old(records) && launched == old(launched)
      ensures forall pid :: pid in alive <==> pid in old(alive) && !CarriedBy(old(sessions).Values, pid)
    {
      var held := sessions.Values;
      sessions := map[];
      var todo := held;
      while todo != {}
        invariant todo <= held && sessions == map[] && records == old(records) && launched == old(launched)
        invariant forall pid :: pid in alive <==> pid in old(alive) && !CarriedBy(held - todo, pid)
        decreases todo
      {
        var r :| r in todo;
        TerminateRecord(r);
        assert held - (todo - {r}) == (held - todo) + {r};
        todo := todo - {r};
      }
      assert held - todo == held;
    }
  }

  /** `ready` is sorted by creation without repeats, and nothing in `todo` belongs before or in it. */
  ghost predicate IsSortedBefore(createdAt: Ref -> int, ready: seq<Ref>, todo: set<Ref>) {
    && (forall i, j :: 0 <= i < j < |ready| ==> ready[i] != ready[j] && createdAt(ready[i]) <= createdAt(ready[j]))
    && (forall i, r :: 0 <= i < |ready| && r in todo ==> ready[i] != r && createdAt(ready[i]) <= createdAt(r))
  }

  lemma Appended(createdAt: Ref -> int, ready: seq<Ref>, todo: set<Ref>, r: Ref)
    requires IsSortedBefore(createdAt, ready, todo)
    requires r in todo && forall q :: q in todo ==> createdAt(r) <= createdAt(q)
    ensures IsSortedBefore(createdAt, ready + [r], todo - {r})
  {
  }

  lemma SortedAlone(createdAt: Ref -> int, ready: seq<Ref>)
    requires IsSortedBefore(createdAt, ready, {})
    ensures forall i, j :: 0 <= i < j < |ready| ==> ready[i] != ready[j] && createdAt(ready[i]) <= createdAt(ready[j])
  {
  }

  method ByCreation(createdAt: Ref -> int, refs: set<Ref>) returns (ready: seq<Ref>)
    ensures forall r :: r in ready <==> r in refs
    ensures forall i, j :: 0 <= i < j < |ready| ==> ready[i] != ready[j] && createdAt(ready[i]) <= createdAt(ready[j])
  {
    hide *;
    ready := [];
    var todo := refs;
    assert IsSortedBefore(createdAt, ready, todo) by { NothingSorted(createdAt, todo); }
    while todo != {}
      invariant forall r :: r in refs <==> r in ready || r in todo
      invariant IsSortedBefore(createdAt, ready, todo)
      decreases todo
    {
      var r := Oldest(createdAt, todo);
      Appended(createdAt, ready, todo, r);
      ready, todo := ready + [r], todo - {r};
    }
    SortedAlone(createdAt, ready);
  }

  lemma NothingSorted(createdAt: Ref -> int, todo: set<Ref>)
    ensures IsSortedBefore(createdAt, [], todo)
  {
  }

  method Oldest(createdAt: Ref -> int, refs: set<Ref>) returns (oldest: Ref)
    requires refs != {}
    ensures oldest in refs && forall q :: q in refs ==> createdAt(oldest) <= createdAt(q)
  {
    oldest := AnyOf(refs);
    var todo := refs;
    while todo != {}
      invariant todo <= refs && oldest in refs
      invariant forall q :: q in refs ==> q in todo || createdAt(oldest) <= createdAt(q)
      decreases todo
    {
      var r := AnyOf(todo);
      if createdAt(r) < createdAt(oldest) { oldest := r; }
      todo := todo - {r};
    }
  }
}
