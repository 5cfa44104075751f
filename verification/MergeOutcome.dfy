/**
  What a merge (src/idamesh/domain/services/reconciliation.py) makes of every key, said about the records,
  their baselines and the policy alone.
*/
module MergeOutcome {
  import opened Common
  import opened Reconciliation
  import opened MergeLaws
  import Strings

  // ---------------------------------------------------------------- edits

  /** The signature says something: a text that is not empty, or a comment with at least one half that is not. */
  predicate SaysSomething(s: Signature) {
    match s
    case Text(t) => t != ""
    case CommentPair(regular, repeatable) => regular != "" || repeatable != ""
  }

  predicate HasAt(r: Record, f: Field, k: Key, s: Signature) {
    match f
    case Names => k in r.names && r.names[k] == s
    case Comments => k in r.comments && r.comments[k] == s
    case Prototypes => k in r.prototypes && r.prototypes[k] == s
  }

  /** The session's own baseline has the signature at `k` or, when it has no baseline of its own, the shared one has. */
  predicate BaselineHas(b: Baselines, session: Session, f: Field, k: Key, s: Signature) {
    if session in b.perSource then HasAt(b.perSource[session], f, k, s)
    else b.shared.Some? && HasAt(b.shared.value, f, k, s)
  }

  /** Record `i` edits `k` to `s`. */
  predicate EditsTo(f: Field, b: Baselines, pairs: seq<Pair>, k: Key, i: int, s: Signature) {
    && 0 <= i < |pairs| && HasAt(pairs[i].record, f, k, s) && SaysSomething(s)
    && !BaselineHas(b, pairs[i].session, f, k, s)
  }

  lemma EditMeans(f: Field, b: Baselines, pairs: seq<Pair>, k: Key, i: nat, s: Signature)
    requires i < |pairs|
    ensures EditsTo(f, b, pairs, k, i, s)
      <==> IsEdit(f, b, pairs[i], k) && TableOf(pairs[i].record, f)[k] == s
  {
  }

  /** `at` lists the records that edit `k`, in order; entry `m` is what record `at[m]` makes of it. */
  ghost predicate AreEdits(f: Field, b: Baselines, pairs: seq<Pair>, k: Key, at: seq<nat>, es: seq<Entry>) {
    && |at| == |es|
    && (forall m, n :: 0 <= m < n < |at| ==> at[m] < at[n])
    && (forall m :: 0 <= m < |at| ==>
          EditsTo(f, b, pairs, k, at[m], es[m].signature) && es[m].session == pairs[at[m]].session)
    && forall i: nat, s :: EditsTo(f, b, pairs, k, i, s) ==> i in at
  }

  lemma {:induction false} EntriesAreEdits(f: Field, b: Baselines, pairs: seq<Pair>, k: Key) returns (at: seq<nat>)
    ensures AreEdits(f, b, pairs, k, at, Entries(f, b, pairs, k))
    decreases |pairs|
  {
    if pairs == [] {
      at := [];
    } else {
      var init, n := pairs[..|pairs| - 1], |pairs| - 1;
      at := EntriesAreEdits(f, b, init, k);
      EditIsEntry(f, b, pairs, k);
      EditsInPrefix(f, b, pairs, k);
      var es, e := Entries(f, b, init, k), EntryOf(f, b, pairs[n], k);
      assert Entries(f, b, pairs, k) == es + e;
      hide Entries, EntryOf, EditsTo;
      if e == [] {
        assert es + e == es;
        NoMoreEdits(f, b, pairs, k, at, es);
      } else {
        OneMoreEdit(f, b, pairs, k, at, es, e[0]);
        at := at + [n];
      }
    }
  }

  lemma EditIsEntry(f: Field, b: Baselines, pairs: seq<Pair>, k: Key)
    requires pairs != []
    ensures var n := |pairs| - 1;
      var e := EntryOf(f, b, pairs[n], k);
      && |e| <= 1
      && (e == [] ==> forall s :: !EditsTo(f, b, pairs, k, n, s))
      && (e != [] ==> e[0].session == pairs[n].session && EditsTo(f, b, pairs, k, n, e[0].signature))
  {
    var n := |pairs| - 1;
    forall s ensures EditsTo(f, b, pairs, k, n, s) <==>
      IsEdit(f, b, pairs[n], k) && TableOf(pairs[n].record, f)[k] == s
    {
      EditMeans(f, b, pairs, k, n, s);
    }
    hide IsEdit, EditsTo, TableOf;
  }

  lemma EditsInPrefix(f: Field, b: Baselines, pairs: seq<Pair>, k: Key)
    requires pairs != []
    ensures forall i, s :: i < |pairs| - 1 ==>
      EditsTo(f, b, pairs, k, i, s) == EditsTo(f, b, pairs[..|pairs| - 1], k, i, s)
    ensures forall i, s :: EditsTo(f, b, pairs, k, i, s) ==> i < |pairs|
  {
    hide HasAt, BaselineHas, SaysSomething;
  }

  lemma NoMoreEdits(f: Field, b: Baselines, pairs: seq<Pair>, k: Key, at: seq<nat>, es: seq<Entry>)
    requires pairs != [] && AreEdits(f, b, pairs[..|pairs| - 1], k, at, es)
    requires var n := |pairs| - 1; forall s :: !EditsTo(f, b, pairs, k, n, s)
    ensures AreEdits(f, b, pairs, k, at, es)
  {
    EditsInPrefix(f, b, pairs, k);
    EditsHere(f, b, pairs[..|pairs| - 1], k, at, es);
    hide EditsTo;
    forall i: nat, s | EditsTo(f, b, pairs, k, i, s) ensures i in at {
      assert i != |pairs| - 1;
    }
  }

  lemma EditsHere(f: Field, b: Baselines, pairs: seq<Pair>, k: Key, at: seq<nat>, es: seq<Entry>)
    requires AreEdits(f, b, pairs, k, at, es)
    ensures forall m :: 0 <= m < |at| ==> at[m] < |pairs|
  {
    hide HasAt, BaselineHas, SaysSomething;
  }

  lemma OneMoreEdit(f: Field, b: Baselines, pairs: seq<Pair>, k: Key, at: seq<nat>, es: seq<Entry>, e: Entry)
    requires pairs != [] && AreEdits(f, b, pairs[..|pairs| - 1], k, at, es)
    requires EditsTo(f, b, pairs, k, |pairs| - 1, e.signature) && e.session == pairs[|pairs| - 1].session
    ensures AreEdits(f, b, pairs, k, at + [|pairs| - 1], es + [e])
  {
    EditsInPrefix(f, b, pairs, k);
    EditsHere(f, b, pairs[..|pairs| - 1], k, at, es);
    hide EditsTo;
    var n := |pairs| - 1;
    var more := at + [n];
    forall i: nat, s | EditsTo(f, b, pairs, k, i, s) ensures i in more {
      if i != n { assert i in at; } else { assert more[|at|] == i; }
    }
  }

  // ---------------------------------------------------------------- settlement

  ghost predicate IsEdited(f: Field, b: Baselines, pairs: seq<Pair>, k: Key) {
    exists i, s :: EditsTo(f, b, pairs, k, i, s)
  }

  ghost predicate AreAgreed(f: Field, b: Baselines, pairs: seq<Pair>, k: Key) {
    forall i, s, j, t :: EditsTo(f, b, pairs, k, i, s) && EditsTo(f, b, pairs, k, j, t) ==> s == t
  }

  /** No other record before `i` edits `k`. */
  ghost predicate IsFirstEdit(f: Field, b: Baselines, pairs: seq<Pair>, k: Key, i: int, s: Signature) {
    EditsTo(f, b, pairs, k, i, s) && forall j, t :: EditsTo(f, b, pairs, k, j, t) ==> i <= j
  }

  ghost predicate IsLastEdit(f: Field, b: Baselines, pairs: seq<Pair>, k: Key, i: int, s: Signature) {
    EditsTo(f, b, pairs, k, i, s) && forall j, t :: EditsTo(f, b, pairs, k, j, t) ==> j <= i
  }

  /** Record `i` is the session's and edits `k` to `s`. */
  predicate EditsFor(f: Field, b: Baselines, pairs: seq<Pair>, k: Key, session: Session, i: int, s: Signature) {
    EditsTo(f, b, pairs, k, i, s) && pairs[i].session == session
  }

  /** What the policy makes of a divergence: the first edit, the last, the preferred session's first, or nothing. */
  ghost predicate Settles(f: Field, b: Baselines, pairs: seq<Pair>, policy: Policy, prefer: Option<Session>, k: Key,
                          resolved: Option<Signature>) {
    match policy
    case First => resolved.Some? && exists i :: IsFirstEdit(f, b, pairs, k, i, resolved.value)
    case Last => resolved.Some? && exists i :: IsLastEdit(f, b, pairs, k, i, resolved.value)
    case Manual => resolved == None
    case Prefer =>
      if prefer == None then resolved == None
      else IsPreferredEdit(f, b, pairs, k, prefer.value, resolved)
  }

  ghost predicate IsPreferredEdit(f: Field, b: Baselines, pairs: seq<Pair>, k: Key, session: Session,
                                  resolved: Option<Signature>) {
    match resolved
    case None => forall i, s :: !EditsFor(f, b, pairs, k, session, i, s)
    case Some(s) => exists i :: IsFirstFor(f, b, pairs, k, session, i, s)
  }

  ghost predicate IsFirstFor(f: Field, b: Baselines, pairs: seq<Pair>, k: Key, session: Session, i: int, s: Signature) {
    EditsFor(f, b, pairs, k, session, i, s) && forall j, t :: EditsFor(f, b, pairs, k, session, j, t) ==> i <= j
  }

  ghost predicate IsLastFor(f: Field, b: Baselines, pairs: seq<Pair>, k: Key, session: Session, i: int, s: Signature) {
    EditsFor(f, b, pairs, k, session, i, s) && forall j, t :: EditsFor(f, b, pairs, k, session, j, t) ==> j <= i
  }

  ghost predicate IsLastSaid(f: Field, b: Baselines, pairs: seq<Pair>, k: Key, session: Session,
                             said: Option<Signature>) {
    match said
    case None => forall i, s :: !EditsFor(f, b, pairs, k, session, i, s)
    case Some(s) => exists i :: IsLastFor(f, b, pairs, k, session, i, s)
  }

  function CandidateOf(candidates: map<Session, Signature>, session: Session): Option<Signature> {
    if session in candidates then Some(candidates[session]) else None
  }

  /** Each session that edits `k`, and no other, is a candidate, with what its last record says. */
  ghost predicate AreCandidates(f: Field, b: Baselines, pairs: seq<Pair>, k: Key, candidates: map<Session, Signature>) {
    forall session :: IsLastSaid(f, b, pairs, k, session, CandidateOf(candidates, session))
  }

  // ---------------------------------------------------------------- entries say the same

  lemma EditOfIndex(f: Field, b: Baselines, pairs: seq<Pair>, k: Key, at: seq<nat>, es: seq<Entry>, i: int,
                    s: Signature)
    returns (m: nat)
    requires AreEdits(f, b, pairs, k, at, es) && EditsTo(f, b, pairs, k, i, s)
    ensures m < |at| && at[m] == i && es[m] == Entry(pairs[i].session, s)
  {
    m :| 0 <= m < |at| && at[m] == i;
    OneSignature(f, b, pairs, k, i, s, es[m].signature);
  }

  lemma OneSignature(f: Field, b: Baselines, pairs: seq<Pair>, k: Key, i: int, s: Signature, t: Signature)
    requires EditsTo(f, b, pairs, k, i, s) && EditsTo(f, b, pairs, k, i, t)
    ensures s == t
  {
  }

  lemma EntriesAgree(f: Field, b: Baselines, pairs: seq<Pair>, k: Key, at: seq<nat>, es: seq<Entry>)
    requires AreEdits(f, b, pairs, k, at, es)
    ensures es == [] <==> !IsEdited(f, b, pairs, k)
    ensures es != [] ==> (Unanimous(es) <==> AreAgreed(f, b, pairs, k))
    ensures |at| == |es| && forall m :: 0 <= m < |es| ==> EditsTo(f, b, pairs, k, at[m], es[m].signature)
  {
    hide EditsTo;
    if es != [] {
      assert EditsTo(f, b, pairs, k, at[0], es[0].signature);
    }
    if i, s :| EditsTo(f, b, pairs, k, i, s) {
      var m := EditOfIndex(f, b, pairs, k, at, es, i, s);
    }
    if Unanimous(es) {
      forall i, s, j, t | EditsTo(f, b, pairs, k, i, s) && EditsTo(f, b, pairs, k, j, t) ensures s == t {
        var m := EditOfIndex(f, b, pairs, k, at, es, i, s);
        var n := EditOfIndex(f, b, pairs, k, at, es, j, t);
        assert es[m].signature == es[0].signature == es[n].signature;
      }
    }
  }

  lemma {:induction false} PreferredAt(es: seq<Entry>, s: Session) returns (m: int)
    ensures match Preferred(es, Some(s))
      case None => forall n :: 0 <= n < |es| ==> es[n].session != s
      case Some(signature) => 0 <= m < |es| && es[m] == Entry(s, signature) && forall n :: 0 <= n < m ==>
        es[n].session != s
    decreases |es|
  {
    if es == [] || es[0].session == s {
      m := 0;
    } else {
      m := PreferredAt(es[1..], s);
      m := m + 1;
      assert forall n :: 0 < n < |es| ==> es[n] == es[1..][n - 1];
    }
  }

  lemma {:induction false} CandidateAt(es: seq<Entry>, s: Session) returns (m: int)
    ensures if s in CandidateMap(es)
      then 0 <= m < |es| && es[m] == Entry(s, CandidateMap(es)[s]) && forall n :: m < n < |es| ==> es[n].session != s
      else forall n :: 0 <= n < |es| ==> es[n].session != s
    decreases |es|
  {
    if es == [] || es[|es| - 1].session == s {
      m := |es| - 1;
    } else {
      var init, last := es[..|es| - 1], |es| - 1;
      m := CandidateAt(init, s);
      assert forall n :: 0 <= n < last ==> init[n] == es[n];
    }
  }

  lemma FirstAndLast(f: Field, b: Baselines, pairs: seq<Pair>, k: Key, at: seq<nat>, es: seq<Entry>)
    requires AreEdits(f, b, pairs, k, at, es) && es != []
    ensures IsFirstEdit(f, b, pairs, k, at[0], es[0].signature)
    ensures IsLastEdit(f, b, pairs, k, at[|at| - 1], es[|es| - 1].signature)
  {
    hide EditsTo;
    assert EditsTo(f, b, pairs, k, at[0], es[0].signature);
    assert EditsTo(f, b, pairs, k, at[|at| - 1], es[|es| - 1].signature);
    var first, last := at[0], at[|at| - 1];
    forall j: int, t | EditsTo(f, b, pairs, k, j, t) ensures first <= j <= last {
      var n := EditOfIndex(f, b, pairs, k, at, es, j, t);
    }
  }

  lemma EditsForEntry(f: Field, b: Baselines, pairs: seq<Pair>, k: Key, at: seq<nat>, es: seq<Entry>, session: Session,
                      m: nat)
    requires AreEdits(f, b, pairs, k, at, es) && m < |es|
    ensures es[m].session == session ==> EditsFor(f, b, pairs, k, session, at[m], es[m].signature)
  {
    assert EditsTo(f, b, pairs, k, at[m], es[m].signature);
    hide HasAt, BaselineHas, SaysSomething;
  }

  lemma EntryEditsFor(f: Field, b: Baselines, pairs: seq<Pair>, k: Key, at: seq<nat>, es: seq<Entry>, session: Session,
                      i: int, s: Signature) returns (m: nat)
    requires AreEdits(f, b, pairs, k, at, es) && EditsFor(f, b, pairs, k, session, i, s)
    ensures m < |es| && at[m] == i && es[m] == Entry(session, s)
  {
    m := EditOfIndex(f, b, pairs, k, at, es, i, s);
    hide HasAt, BaselineHas, SaysSomething;
  }

  lemma PreferredSettles(f: Field, b: Baselines, pairs: seq<Pair>, k: Key, at: seq<nat>, es: seq<Entry>,
                         session: Session)
    requires AreEdits(f, b, pairs, k, at, es)
    ensures IsPreferredEdit(f, b, pairs, k, session, Preferred(es, Some(session)))
  {
    var m := PreferredAt(es, session);
    IndicesAscend(f, b, pairs, k, at, es);
    hide Preferred, EditsFor, AreEdits;
    forall j, t | EditsFor(f, b, pairs, k, session, j, t)
      ensures Preferred(es, Some(session)).Some? && at[m] <= j
    {
      var n := EntryEditsFor(f, b, pairs, k, at, es, session, j, t);
    }
    if Preferred(es, Some(session)).Some? {
      EditsForEntry(f, b, pairs, k, at, es, session, m);
      assert IsFirstFor(f, b, pairs, k, session, at[m], es[m].signature);
    }
  }

  lemma IndicesAscend(f: Field, b: Baselines, pairs: seq<Pair>, k: Key, at: seq<nat>, es: seq<Entry>)
    requires AreEdits(f, b, pairs, k, at, es)
    ensures |at| == |es| && forall m, n :: 0 <= m < n < |at| ==> at[m] < at[n]
  {
  }

  lemma MapHasCandidates(f: Field, b: Baselines, pairs: seq<Pair>, k: Key, at: seq<nat>, es: seq<Entry>)
    requires AreEdits(f, b, pairs, k, at, es)
    ensures AreCandidates(f, b, pairs, k, CandidateMap(es))
  {
    hide *;
    forall session ensures IsLastSaid(f, b, pairs, k, session, CandidateOf(CandidateMap(es), session)) {
      CandidateIsLast(f, b, pairs, k, at, es, session);
    }
    CandidatesAre(f, b, pairs, k, CandidateMap(es));
  }

  lemma CandidatesAre(f: Field, b: Baselines, pairs: seq<Pair>, k: Key, candidates: map<Session, Signature>)
    requires forall session :: IsLastSaid(f, b, pairs, k, session, CandidateOf(candidates, session))
    ensures AreCandidates(f, b, pairs, k, candidates)
  {
  }

  lemma CandidateIsLast(f: Field, b: Baselines, pairs: seq<Pair>, k: Key, at: seq<nat>, es: seq<Entry>,
                        session: Session)
    requires AreEdits(f, b, pairs, k, at, es)
    ensures IsLastSaid(f, b, pairs, k, session, CandidateOf(CandidateMap(es), session))
  {
    var m := CandidateAt(es, session);
    IndicesAscend(f, b, pairs, k, at, es);
    hide CandidateMap, EditsFor, AreEdits;
    forall j, t | EditsFor(f, b, pairs, k, session, j, t) ensures session in CandidateMap(es) && j <= at[m] {
      var n := EntryEditsFor(f, b, pairs, k, at, es, session, j, t);
    }
    if session in CandidateMap(es) {
      EditsForEntry(f, b, pairs, k, at, es, session, m);
      assert IsLastFor(f, b, pairs, k, session, at[m], es[m].signature);
    }
  }

  lemma ResolutionSettles(f: Field, b: Baselines, pairs: seq<Pair>, policy: Policy, prefer: Option<Session>, k: Key,
                          at: seq<nat>, es: seq<Entry>)
    requires AreEdits(f, b, pairs, k, at, es) && es != []
    ensures Settles(f, b, pairs, policy, prefer, k, Resolve(es, policy, prefer))
  {
    FirstAndLast(f, b, pairs, k, at, es);
    if prefer.Some? {
      PreferredSettles(f, b, pairs, k, at, es, prefer.value);
    } else {
      NobodyIsPreferred(es);
    }
    hide AreEdits, IsFirstEdit, IsLastEdit, IsPreferredEdit, Preferred;
  }

  lemma {:induction false} NobodyIsPreferred(es: seq<Entry>)
    ensures Preferred(es, None) == None
  {
    if es != [] { NobodyIsPreferred(es[1..]); }
  }

  // ---------------------------------------------------------------- one key of the merge

  /** What a plan says of one key of one selected field. */
  ghost predicate IsOutcome(f: Field, b: Baselines, pairs: seq<Pair>, policy: Policy, prefer: Option<Session>, k: Key,
                            table: Table, conflicts: seq<Conflict>) {
    if !IsEdited(f, b, pairs, k) then k !in table && NoConflictAt(conflicts, f, k)
    else if AreAgreed(f, b, pairs, k) then
      k in table && (exists i :: EditsTo(f, b, pairs, k, i, table[k])) && NoConflictAt(conflicts, f, k)
    else exists n :: IsConflictAt(f, b, pairs, policy, prefer, k, table, conflicts, n)
  }

  predicate NoConflictAt(conflicts: seq<Conflict>, f: Field, k: Key) {
    forall n :: 0 <= n < |conflicts| ==> !(conflicts[n].field == f && conflicts[n].key == k)
  }

  /** Conflict `n` is the only one about the key; it names every candidate, and the plan has what it is resolved to. */
  ghost predicate IsConflictAt(f: Field, b: Baselines, pairs: seq<Pair>, policy: Policy, prefer: Option<Session>,
                               k: Key, table: Table, conflicts: seq<Conflict>, n: int) {
    && 0 <= n < |conflicts| && conflicts[n].field == f && conflicts[n].key == k
    && (forall m :: 0 <= m < |conflicts| && conflicts[m].field == f && conflicts[m].key == k ==> m == n)
    && AreCandidates(f, b, pairs, k, conflicts[n].candidates)
    && Settles(f, b, pairs, policy, prefer, k, conflicts[n].resolved)
    && conflicts[n].resolved == if k in table then Some(table[k]) else None
  }

  lemma FieldOutcome(f: Field, b: Baselines, pairs: seq<Pair>, policy: Policy, prefer: Option<Session>, k: Key)
    ensures IsOutcome(f, b, pairs, policy, prefer, k, PlanTable(f, b, pairs, policy, prefer),
                      FieldConflicts(f, b, pairs, policy, prefer))
  {
    hide *;
    var es := Entries(f, b, pairs, k);
    var table, cs := PlanTable(f, b, pairs, policy, prefer), FieldConflicts(f, b, pairs, policy, prefer);
    var at := EntriesAreEdits(f, b, pairs, k);
    EntriesAgree(f, b, pairs, k, at, es);
    PlanTableAt(f, b, pairs, policy, prefer, k);
    FieldConflictsAt(f, b, pairs, policy, prefer, k);
    if es == [] || Unanimous(es) {
      SettledOutcome(f, b, pairs, policy, prefer, k, at, es, table, cs);
    } else {
      ResolutionSettles(f, b, pairs, policy, prefer, k, at, es);
      MapHasCandidates(f, b, pairs, k, at, es);
      var n :| IsOnlyConflict(cs, n, Conflict(f, k, CandidateMap(es), Resolve(es, policy, prefer)));
      OpenOutcome(f, b, pairs, policy, prefer, k, es, table, cs, n);
    }
  }

  lemma SettledOutcome(f: Field, b: Baselines, pairs: seq<Pair>, policy: Policy, prefer: Option<Session>, k: Key,
                       at: seq<nat>, es: seq<Entry>, table: Table, cs: seq<Conflict>)
    requires (es == [] <==> !IsEdited(f, b, pairs, k)) && (es != [] ==> Unanimous(es) && AreAgreed(f, b, pairs, k))
    requires |at| == |es| && forall m :: 0 <= m < |es| ==> EditsTo(f, b, pairs, k, at[m], es[m].signature)
    requires (if k in table then Some(table[k]) else None) == Planned(es, policy, prefer)
    requires NoConflictAt(cs, f, k)
    ensures IsOutcome(f, b, pairs, policy, prefer, k, table, cs)
  {
    hide IsEdited, AreAgreed, EditsTo, Unanimous, NoConflictAt;
    if es != [] { assert EditsTo(f, b, pairs, k, at[0], es[0].signature); }
  }

  lemma OpenOutcome(f: Field, b: Baselines, pairs: seq<Pair>, policy: Policy, prefer: Option<Session>, k: Key,
                    es: seq<Entry>, table: Table, cs: seq<Conflict>, n: int)
    requires es != [] && !Unanimous(es) && IsEdited(f, b, pairs, k) && !AreAgreed(f, b, pairs, k)
    requires (if k in table then Some(table[k]) else None) == Planned(es, policy, prefer)
    requires IsOnlyConflict(cs, n, Conflict(f, k, CandidateMap(es), Resolve(es, policy, prefer)))
    requires Settles(f, b, pairs, policy, prefer, k, Resolve(es, policy, prefer))
    requires AreCandidates(f, b, pairs, k, CandidateMap(es))
    ensures IsOutcome(f, b, pairs, policy, prefer, k, table, cs)
  {
    hide IsEdited, AreAgreed, Unanimous, Settles, AreCandidates, CandidateMap, Resolve;
    assert IsConflictAt(f, b, pairs, policy, prefer, k, table, cs, n);
  }

  /** Conflict `n` is `c`, and no other is about its key. */
  predicate IsOnlyConflict(conflicts: seq<Conflict>, n: int, c: Conflict) {
    && 0 <= n < |conflicts| && conflicts[n] == c
    && forall m :: 0 <= m < |conflicts| && conflicts[m].field == c.field && conflicts[m].key == c.key ==> m == n
  }

  lemma FieldConflictsAt(f: Field, b: Baselines, pairs: seq<Pair>, policy: Policy, prefer: Option<Session>, k: Key)
    ensures var es, cs := Entries(f, b, pairs, k), FieldConflicts(f, b, pairs, policy, prefer);
      if es != [] && !Unanimous(es)
      then exists n :: IsOnlyConflict(cs, n, Conflict(f, k, CandidateMap(es), Resolve(es, policy, prefer)))
      else NoConflictAt(cs, f, k)
  {
    var es, cs := Entries(f, b, pairs, k), FieldConflicts(f, b, pairs, policy, prefer);
    CandidatesHaveEntries(f, b, pairs, k);
    ConflictListIsExact(f, b, pairs, policy, prefer, SortedKeys(CandidateKeys(f, b, pairs)));
    hide SortedKeys, CandidateKeys, Entries, Unanimous, Resolve, CandidateMap, FieldConflicts, KeyLess;
    KeysDiffer(cs);
    if es != [] && !Unanimous(es) {
      assert ConflictAt(f, b, pairs, policy, prefer, k) in cs;
      var n :| 0 <= n < |cs| && cs[n] == ConflictAt(f, b, pairs, policy, prefer, k);
      assert IsOnlyConflict(cs, n, cs[n]);
    } else {
      forall n | 0 <= n < |cs| ensures !(cs[n].field == f && cs[n].key == k) {
        assert cs[n] in cs;
      }
    }
  }

  lemma KeysDiffer(cs: seq<Conflict>)
    requires forall i, j :: 0 <= i < j < |cs| ==> KeyLess(cs[i].key, cs[j].key)
    ensures forall i, j :: 0 <= i < |cs| && 0 <= j < |cs| && cs[i].key == cs[j].key ==> i == j
  {
    forall i, j | 0 <= i < |cs| && 0 <= j < |cs| && cs[i].key == cs[j].key ensures i == j {
      KeyTrichotomy(cs[i].key, cs[i].key);
    }
    hide KeyLess;
  }

  // ---------------------------------------------------------------- the whole merge

  function NameOf(f: Field): string {
    match f
    case Names => "names"
    case Comments => "comments"
    case Prototypes => "prototypes"
  }

  /** The caller asked for the field, by name or by naming none. */
  predicate IsChosen(fields: Option<seq<string>>, f: Field) {
    fields == None || NameOf(f) in fields.value
  }

  ghost predicate AreFields(names: seq<string>) {
    forall i :: 0 <= i < |names| ==> IsField(names[i])
  }

  lemma {:induction false} SelectedAreNamed(names: seq<string>)
    ensures SelectedFields(names).Success? <==> AreFields(names)
    ensures SelectedFields(names).Success? ==> forall f :: f in SelectedFields(names).value <==> NameOf(f) in names
    decreases |names|
  {
    if names != [] {
      var init, name := names[..|names| - 1], names[|names| - 1];
      SelectedAreNamed(init);
      FieldIsNamed(name);
      assert names == init + [name];
      assert AreFields(names) <==> AreFields(init) && IsField(name);
      hide NameOf, FieldNamed, IsField, AreFields;
    }
  }

  lemma FieldIsNamed(name: string)
    ensures forall f :: FieldNamed(name) == Some(f) <==> NameOf(f) == name
    ensures FieldNamed(name).Some? <==> IsField(name)
  {
    assert NameOf(Names) == "names" && NameOf(Comments) == "comments" && NameOf(Prototypes) == "prototypes";
    assert |NameOf(Names)| == 5 && |NameOf(Comments)| == 8 && |NameOf(Prototypes)| == 10;
  }

  lemma ChosenAreSelected(fields: Option<seq<string>>, f: Field)
    requires Selected(fields).Success?
    ensures f in Selected(fields).value <==> IsChosen(fields, f)
  {
    if fields.Some? { SelectedAreNamed(fields.value); }
  }

  ghost predicate AreOf(conflicts: seq<Conflict>, f: Field) {
    forall n :: 0 <= n < |conflicts| ==> conflicts[n].field == f
  }

  /** The conflicts of other fields around them leave a field's own alone. */
  lemma OutcomeMoves(f: Field, b: Baselines, pairs: seq<Pair>, policy: Policy, prefer: Option<Session>, k: Key,
                     table: Table, before: seq<Conflict>, own: seq<Conflict>, after: seq<Conflict>)
    requires IsOutcome(f, b, pairs, policy, prefer, k, table, own)
    requires forall n :: 0 <= n < |before| ==> before[n].field != f
    requires forall n :: 0 <= n < |after| ==> after[n].field != f
    ensures IsOutcome(f, b, pairs, policy, prefer, k, table, before + own + after)
  {
    hide IsEdited, AreAgreed, EditsTo, Settles, AreCandidates;
    var all := before + own + after;
    if IsEdited(f, b, pairs, k) && !AreAgreed(f, b, pairs, k) {
      var n :| IsConflictAt(f, b, pairs, policy, prefer, k, table, own, n);
      var i := |before| + n;
      assert all[i] == own[n];
      forall m | 0 <= m < |all| && all[m].field == f && all[m].key == k ensures m == i {
        var j := m - |before|;
        assert 0 <= j < |own| && own[j] == all[m];
      }
      assert IsConflictAt(f, b, pairs, policy, prefer, k, table, all, i);
    } else {
      forall m | 0 <= m < |all| ensures !(all[m].field == f && all[m].key == k) {
        if |before| <= m < |before| + |own| { assert all[m] == own[m - |before|]; }
      }
    }
  }

  lemma ConflictsAreOf(f: Field, b: Baselines, pairs: seq<Pair>, policy: Policy, prefer: Option<Session>)
    ensures AreOf(FieldConflicts(f, b, pairs, policy, prefer), f)
    ensures var cs := FieldConflicts(f, b, pairs, policy, prefer);
      forall i, j :: 0 <= i < j < |cs| ==> KeyLess(cs[i].key, cs[j].key)
  {
    ConflictListIsExact(f, b, pairs, policy, prefer, SortedKeys(CandidateKeys(f, b, pairs)));
    var cs := FieldConflicts(f, b, pairs, policy, prefer);
    hide SortedKeys, CandidateKeys, Diverges, FieldConflicts, KeyLess, Entries, CandidateMap, Resolve;
    forall n | 0 <= n < |cs| ensures cs[n].field == f { assert cs[n] in cs; }
  }

  lemma SelectedAreOf(fs: set<Field>, f: Field, b: Baselines, pairs: seq<Pair>, policy: Policy, prefer: Option<Session>)
    ensures var cs := SelectedConflicts(fs, f, b, pairs, policy, prefer);
      AreOf(cs, f) && forall i, j :: 0 <= i < j < |cs| ==> KeyLess(cs[i].key, cs[j].key)
  {
    ConflictsAreOf(f, b, pairs, policy, prefer);
    hide FieldConflicts, KeyLess;
  }

  lemma SelectedOutcome(fs: set<Field>, f: Field, b: Baselines, pairs: seq<Pair>, policy: Policy,
                        prefer: Option<Session>, k: Key)
    requires f in fs
    ensures var plan := MergePlan(fs, b, pairs, policy, prefer);
      IsOutcome(f, b, pairs, policy, prefer, k, PlanOf(plan, f), plan.conflicts)
  {
    FieldOutcome(f, b, pairs, policy, prefer, k);
    MergePlanFields(fs, b, pairs, policy, prefer);
    var names := SelectedConflicts(fs, Names, b, pairs, policy, prefer);
    var comments := SelectedConflicts(fs, Comments, b, pairs, policy, prefer);
    var prototypes := SelectedConflicts(fs, Prototypes, b, pairs, policy, prefer);
    SelectedAreOf(fs, Names, b, pairs, policy, prefer);
    SelectedAreOf(fs, Comments, b, pairs, policy, prefer);
    SelectedAreOf(fs, Prototypes, b, pairs, policy, prefer);
    hide MergePlan, PlanTable, FieldConflicts, IsOutcome, KeyLess;
    var table := PlanTable(f, b, pairs, policy, prefer);
    match f
    case Names =>
      OutcomeMoves(f, b, pairs, policy, prefer, k, table, [], names, comments + prototypes);
      assert [] + names + (comments + prototypes) == names + comments + prototypes;
    case Comments => OutcomeMoves(f, b, pairs, policy, prefer, k, table, names, comments, prototypes);
    case Prototypes =>
      OutcomeMoves(f, b, pairs, policy, prefer, k, table, names + comments, prototypes, []);
      assert names + comments + prototypes + [] == names + comments + prototypes;
  }

  /**
    What a merge that goes through says of every key of every field: nothing of a field not asked for or a
    key nobody edited; the edit all agree on; or the one conflict, settled as the policy says.
  */
  lemma MergedKey(pairs: seq<Pair>, b: Baselines, policy: Policy, prefer: Option<Session>, fields: Option<seq<string>>,
                  f: Field, k: Key)
    requires Merge(pairs, b, policy, prefer, fields).Success?
    ensures var plan := Merge(pairs, b, policy, prefer, fields).value;
      if IsChosen(fields, f) then IsOutcome(f, b, pairs, policy, prefer, k, PlanOf(plan, f), plan.conflicts)
      else PlanOf(plan, f) == map[] && NoConflictAt(plan.conflicts, f, k)
  {
    MergeCases(pairs, b, policy, prefer, fields);
    hide *;
    ChosenAreSelected(fields, f);
    var fs := Selected(fields).value;
    if f in fs {
      SelectedOutcome(fs, f, b, pairs, policy, prefer, k);
    } else {
      UnselectedIsEmpty(fs, f, b, pairs, policy, prefer, k);
    }
  }

  lemma UnselectedIsEmpty(fs: set<Field>, f: Field, b: Baselines, pairs: seq<Pair>, policy: Policy,
                          prefer: Option<Session>, k: Key)
    requires f !in fs
    ensures var plan := MergePlan(fs, b, pairs, policy, prefer);
      PlanOf(plan, f) == map[] && NoConflictAt(plan.conflicts, f, k)
  {
    MergePlanFields(fs, b, pairs, policy, prefer);
    SelectedAreOf(fs, Names, b, pairs, policy, prefer);
    SelectedAreOf(fs, Comments, b, pairs, policy, prefer);
    SelectedAreOf(fs, Prototypes, b, pairs, policy, prefer);
    hide MergePlan, PlanTable, FieldConflicts, KeyLess;
  }

  function RankOf(f: Field): int {
    match f
    case Names => 0
    case Comments => 1
    case Prototypes => 2
  }

  predicate IsListedBefore(c: Conflict, d: Conflict) {
    RankOf(c.field) < RankOf(d.field) || (c.field == d.field && KeyLess(c.key, d.key))
  }

  /** The conflicts come field by field and, within a field, in ascending order of their keys. */
  lemma ConflictsInOrder(pairs: seq<Pair>, b: Baselines, policy: Policy, prefer: Option<Session>,
                         fields: Option<seq<string>>)
    requires Merge(pairs, b, policy, prefer, fields).Success?
    ensures var cs := Merge(pairs, b, policy, prefer, fields).value.conflicts;
      forall i, j :: 0 <= i < j < |cs| ==> IsListedBefore(cs[i], cs[j])
  {
    MergeCases(pairs, b, policy, prefer, fields);
    var fs := Selected(fields).value;
    MergePlanFields(fs, b, pairs, policy, prefer);
    SelectedAreOf(fs, Names, b, pairs, policy, prefer);
    SelectedAreOf(fs, Comments, b, pairs, policy, prefer);
    SelectedAreOf(fs, Prototypes, b, pairs, policy, prefer);
    hide *;
    InOrder(SelectedConflicts(fs, Names, b, pairs, policy, prefer),
            SelectedConflicts(fs, Comments, b, pairs, policy, prefer),
            SelectedConflicts(fs, Prototypes, b, pairs, policy, prefer));
  }

  lemma InOrder(names: seq<Conflict>, comments: seq<Conflict>, prototypes: seq<Conflict>)
    requires AreOf(names, Names) && AreOf(comments, Comments) && AreOf(prototypes, Prototypes)
    requires forall i, j :: 0 <= i < j < |names| ==> KeyLess(names[i].key, names[j].key)
    requires forall i, j :: 0 <= i < j < |comments| ==> KeyLess(comments[i].key, comments[j].key)
    requires forall i, j :: 0 <= i < j < |prototypes| ==> KeyLess(prototypes[i].key, prototypes[j].key)
    ensures var cs := names + comments + prototypes;
      forall i, j :: 0 <= i < j < |cs| ==> IsListedBefore(cs[i], cs[j])
  {
    hide KeyLess;
  }

  /** Keys are ordered by address and, at one address, by the text of the scope. */
  lemma KeyOrder(a: Key, b: Key)
    requires a.Ea? == b.Ea?
    ensures KeyLess(a, b) <==>
      a.ea < b.ea || (a.ea == b.ea && a.Scoped? && Strings.ComesBefore(a.scope, b.scope))
  {
    if a.Scoped? { Strings.LessMeans(a.scope, b.scope); }
    hide Strings.Less;
  }

  // ---------------------------------------------------------------- refusal

  /** The provenance is that of a record, of the shared baseline or of a session's own baseline. */
  ghost predicate IsGiven(pairs: seq<Pair>, b: Baselines, p: Provenance) {
    || (exists i :: 0 <= i < |pairs| && pairs[i].record.provenance == p)
    || (b.shared.Some? && b.shared.value.provenance == p)
    || (exists s :: s in b.perSource && b.perSource[s].provenance == p)
  }

  ghost predicate HashesClash(pairs: seq<Pair>, b: Baselines) {
    exists p, q :: IsGiven(pairs, b, p) && IsGiven(pairs, b, q) && p.sha256.Some? && q.sha256.Some?
      && p.sha256 != q.sha256
  }

  ghost predicate BasesClash(pairs: seq<Pair>, b: Baselines) {
    exists p, q :: IsGiven(pairs, b, p) && IsGiven(pairs, b, q)
      && p.imagebase.Some? && q.imagebase.Some? && p.imagebase != q.imagebase
  }

  ghost predicate IsField(name: string) { exists f :: NameOf(f) == name }

  /**
    A merge goes through unless a name is no field, two hashes differ or two load addresses differ; the
    error is the first of these that applies and, of the names, the first that is no field.
  */
  lemma MergeGoesThrough(pairs: seq<Pair>, b: Baselines, policy: Policy, prefer: Option<Session>,
                         fields: Option<seq<string>>)
    ensures var r := Merge(pairs, b, policy, prefer, fields);
      var known := fields.Some? ==> AreFields(fields.value);
      && (r.Success? <==> known && !HashesClash(pairs, b) && !BasesClash(pairs, b))
      && (r == Failure(ShaMismatch) <==> known && HashesClash(pairs, b))
      && (r == Failure(ImagebaseMismatch) <==> known && !HashesClash(pairs, b) && BasesClash(pairs, b))
    ensures fields.Some? ==> forall i: nat :: i < |fields.value| && !IsField(fields.value[i]) ==>
      (forall j :: 0 <= j < i ==> IsField(fields.value[j])) ==>
        Merge(pairs, b, policy, prefer, fields) == Failure(UnknownField(fields.value[i]))
  {
    RefusedIff(pairs, b, policy, prefer, fields);
    forall p ensures p in AllProvenances(pairs, b) <==> IsGiven(pairs, b, p) { GivenAreAll(pairs, b, p); }
    ClashesDiffer(pairs, b);
    forall name ensures FieldNamed(name).Some? <==> IsField(name) { FieldIsNamed(name); }
    hide Merge, AllProvenances, IsGiven, HashesClash, BasesClash, HashesDiffer, BasesDiffer, FieldNamed, IsField;
    if fields.Some? {
      forall i: nat | i < |fields.value| && !IsField(fields.value[i]) && forall j :: 0 <= j < i ==>
        IsField(fields.value[j])
        ensures Merge(pairs, b, policy, prefer, fields) == Failure(UnknownField(fields.value[i]))
      {
        assert IsFirstUnknown(fields.value, i);
      }
    }
  }

  lemma GivenAreAll(pairs: seq<Pair>, b: Baselines, p: Provenance)
    ensures p in AllProvenances(pairs, b) <==> IsGiven(pairs, b, p)
  {
    if i :| 0 <= i < |pairs| && pairs[i].record.provenance == p { assert pairs[i] in pairs; }
  }

  lemma ClashesDiffer(pairs: seq<Pair>, b: Baselines)
    ensures HashesClash(pairs, b) <==> HashesDiffer(AllProvenances(pairs, b))
    ensures BasesClash(pairs, b) <==> BasesDiffer(AllProvenances(pairs, b))
  {
    forall p ensures p in AllProvenances(pairs, b) <==> IsGiven(pairs, b, p) { GivenAreAll(pairs, b, p); }
    hide AllProvenances, IsGiven;
  }
}
