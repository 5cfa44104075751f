/**
  Dispatches and cancels interleaved on one registry (src/idamesh/infrastructure/rpc/router.py and
  context.py).  A call opens its token, runs, and closes; a cancel first looks the token up under the
  lock and trips it afterwards, so anything may happen in between.  Nothing keeps two calls in flight
  from using one id: the registry is keyed by the id alone.
*/
module CancellationRuns {
  import opened Common
  import opened RequestContext
  import opened Router

  datatype Call = Call(entry: Entry, request: Request)

  // `found` is the token a cancel got hold of, `fired` whether it has been tripped
  datatype Lookup = Lookup(target: RpcId, found: Option<nat>, fired: bool)

  /** Tokens are numbered as they are made; a call is known by its token. */
  datatype State = State(tokens: map<RpcId, nat>, made: seq<Call>, live: set<nat>, lookups: seq<Lookup>,
                         tripped: set<nat>)

  const START := State(map[], [], {}, [], {})

  datatype Action = Begin(call: Call) | End(token: nat) | Find(target: RpcId) | Fire(lookup: nat)

  predicate HasEntry(c: Call) { IsRegistered(c.entry, c.request) }

  /** `token` is that of an in-flight call the registry knows under `id`. */
  predicate IsInFlight(st: State, id: RpcId, token: nat) {
    token in st.live && token < |st.made| && HasEntry(st.made[token]) && st.made[token].request.id == id
  }

  /** No registered call in flight uses the id. */
  ghost predicate IsFreeId(st: State, id: RpcId) {
    forall t :: !IsInFlight(st, id, t)
  }

  predicate Enabled(st: State, a: Action) {
    match a
    case Begin(_) => true
    case End(token) => token in st.live && token < |st.made|
    case Find(target) => target != NullId
    case Fire(k) => k < |st.lookups| && st.lookups[k].found.Some?
  }

  function Apply(st: State, a: Action): State {
    match a
    case Begin(call) =>
      var token := |st.made|;
      st.(made := st.made + [call], live := st.live + {token},
          tokens := if HasEntry(call) then st.tokens[call.request.id := token] else st.tokens)
    case End(token) =>
      if token < |st.made| then
        st.(live := st.live - {token},
            tokens := if HasEntry(st.made[token]) then st.tokens - {st.made[token].request.id} else st.tokens)
      else st
    case Find(target) =>
      var found := if target in st.tokens then Some(st.tokens[target]) else None;
      st.(lookups := st.lookups + [Lookup(target, found, false)])
    case Fire(k) =>
      if k < |st.lookups| && st.lookups[k].found.Some? then
        st.(lookups := st.lookups[k := st.lookups[k].(fired := true)],
            tripped := st.tripped + {st.lookups[k].found.value})
      else st
  }

  function After(st: State, run: seq<Action>): State {
    if run == [] then st else Apply(After(st, run[..|run| - 1]), run[|run| - 1])
  }

  ghost predicate IsRun(st: State, run: seq<Action>) {
    forall i :: 0 <= i < |run| ==> Enabled(After(st, run[..i]), run[i])
  }

  // ---------------------------------------------------------------- what every step keeps

  /** Whatever the registry lists is a registered call in flight, under its own id and with its own token. */
  ghost predicate IsListing(st: State) {
    forall id :: id in st.tokens ==> IsInFlight(st, id, st.tokens[id])
  }

  /** A lookup found a token only of a registered call with the id it asked for. */
  predicate IsAimed(st: State, l: Lookup) {
    && l.target != NullId
    && (l.found.Some? ==> l.found.value < |st.made| && HasEntry(st.made[l.found.value])
                          && st.made[l.found.value].request.id == l.target)
  }

  predicate IsFired(st: State, k: nat, t: nat) {
    k < |st.lookups| && st.lookups[k].fired && st.lookups[k].found == Some(t)
  }

  ghost predicate Inv(st: State) {
    && IsListing(st)
    && (forall t :: t in st.live ==> t < |st.made|)
    && (forall l :: l in st.lookups ==> IsAimed(st, l))
    && (forall t :: t in st.tripped <==> exists k: nat :: IsFired(st, k, t))
  }

  lemma BeginKeeps(st: State, call: Call)
    requires IsListing(st)
    ensures IsListing(Apply(st, Begin(call)))
  {
    var st' := Apply(st, Begin(call));
    forall id | id in st'.tokens ensures IsInFlight(st', id, st'.tokens[id]) {
      assert id in st.tokens ==> IsInFlight(st, id, st.tokens[id]);
    }
  }

  lemma EndKeeps(st: State, token: nat)
    requires IsListing(st) && Enabled(st, End(token))
    ensures IsListing(Apply(st, End(token)))
  {
    var st' := Apply(st, End(token));
    forall id | id in st'.tokens ensures IsInFlight(st', id, st'.tokens[id]) {
      assert IsInFlight(st, id, st.tokens[id]);
    }
  }

  lemma FireKeeps(st: State, k: nat)
    requires Inv(st) && Enabled(st, Fire(k))
    ensures var st' := Apply(st, Fire(k));
      && (forall l :: l in st'.lookups ==> IsAimed(st', l))
      && (forall t :: t in st'.tripped <==> exists j: nat :: IsFired(st', j, t))
  {
    var st' := Apply(st, Fire(k));
    hide IsListing, HasEntry;
    assert st.lookups[k] in st.lookups;
    forall l | l in st'.lookups ensures IsAimed(st', l) {
      var j :| 0 <= j < |st'.lookups| && st'.lookups[j] == l;
      assert st.lookups[j] in st.lookups;
    }
    forall t
      ensures t in st'.tripped <==> exists j: nat :: IsFired(st', j, t)
    {
      if t in st.tripped {
        var j: nat :| IsFired(st, j, t);
        assert IsFired(st', j, t);
      }
      if t == st.lookups[k].found.value {
        assert IsFired(st', k, t);
      }
      if j: nat :| IsFired(st', j, t) && j != k {
        assert IsFired(st, j, t);
      }
    }
  }

  lemma FindKeeps(st: State, target: RpcId)
    requires Inv(st) && Enabled(st, Find(target))
    ensures var st' := Apply(st, Find(target));
      && (forall l :: l in st'.lookups ==> IsAimed(st', l))
      && (forall t :: t in st'.tripped <==> exists j: nat :: IsFired(st', j, t))
  {
    var st' := Apply(st, Find(target));
    assert target in st.tokens ==> IsInFlight(st, target, st.tokens[target]);
    hide IsListing, HasEntry;
    forall j: nat, t
      ensures IsFired(st', j, t) <==> IsFired(st, j, t)
    {
    }
  }

  lemma OtherStepsKeepLookups(st: State, st': State)
    requires Inv(st) && st'.lookups == st.lookups && st'.tripped == st.tripped && st.made <= st'.made
    ensures forall l :: l in st'.lookups ==> IsAimed(st', l)
    ensures forall t :: t in st'.tripped <==> exists j: nat :: IsFired(st', j, t)
  {
    hide IsListing, HasEntry;
    forall j: nat, t
      ensures IsFired(st', j, t) <==> IsFired(st, j, t)
    {
    }
  }

  lemma StepKeeps(st: State, a: Action)
    requires Inv(st) && Enabled(st, a)
    ensures Inv(Apply(st, a))
  {
    var st' := Apply(st, a);
    match a
    case Begin(call) =>
      BeginKeeps(st, call);
      OtherStepsKeepLookups(st, st');
      hide IsListing, IsAimed, IsFired;
    case End(token) =>
      EndKeeps(st, token);
      OtherStepsKeepLookups(st, st');
      hide IsListing, IsAimed, IsFired;
    case Find(target) =>
      FindKeeps(st, target);
      SameRegistry(st, st');
      hide IsListing, IsAimed, IsFired;
    case Fire(k) =>
      FireKeeps(st, k);
      SameRegistry(st, st');
      hide IsListing, IsAimed, IsFired;
  }

  lemma SameRegistry(st: State, st': State)
    requires IsListing(st) && st'.tokens == st.tokens && st'.live == st.live && st'.made == st.made
    ensures IsListing(st')
  {
    hide HasEntry;
    forall id | id in st'.tokens ensures IsInFlight(st', id, st'.tokens[id]) {
      assert IsInFlight(st, id, st.tokens[id]);
    }
  }

  lemma {:induction false} RunKeeps(run: seq<Action>)
    requires IsRun(START, run)
    ensures Inv(After(START, run))
  {
    if run != [] {
      var init := run[..|run| - 1];
      PrefixIsRun(START, run, |run| - 1);
      RunKeeps(init);
      assert run[..|run| - 1] == init;
      StepKeeps(After(START, init), run[|run| - 1]);
    }
  }

  lemma PrefixIsRun(st: State, run: seq<Action>, n: nat)
    requires IsRun(st, run) && n <= |run|
    ensures IsRun(st, run[..n])
  {
    forall i | 0 <= i < n ensures Enabled(After(st, run[..n][..i]), run[..n][i]) {
      assert run[..n][..i] == run[..i];
    }
  }

  // ---------------------------------------------------------------- what holds after any run

  /**
    In every run, whatever the registry lists is a registered call in flight, under its own id and with
    its own token.
  */
  lemma RegistryIsInFlight(run: seq<Action>, id: RpcId)
    requires IsRun(START, run) && id in After(START, run).tokens
    ensures IsInFlight(After(START, run), id, After(START, run).tokens[id])
  {
    RunKeeps(run);
    hide After, IsInFlight, IsAimed, IsFired;
  }

  /** The step registers a call under the id, or ends one registered under it: either rewrites the id's entry. */
  predicate Touches(st: State, a: Action, id: RpcId) {
    match a
    case Begin(call) => HasEntry(call) && call.request.id == id
    case End(token) => token < |st.made| && HasEntry(st.made[token]) && st.made[token].request.id == id
    case _ => false
  }

  /** Step `i` began the registered call of `token` under `id`, and no later step touched the id. */
  ghost predicate IsUndisturbed(run: seq<Action>, i: nat, id: RpcId, token: nat) {
    && i < |run| && run[i].Begin? && Touches(After(START, run[..i]), run[i], id)
      && |After(START, run[..i]).made| == token
    && forall j :: i < j < |run| ==> !Touches(After(START, run[..j]), run[j], id)
  }

  predicate Lists(st: State, id: RpcId, token: nat) { id in st.tokens && st.tokens[id] == token }

  /**
    A cancel can reach a call exactly while nothing has touched the call's id since it began: no other
    call has been registered under it, and none registered under it has ended.
  */
  lemma {:induction false} ListedIffUndisturbed(run: seq<Action>, id: RpcId, token: nat)
    ensures Lists(After(START, run), id, token) <==> exists i: nat :: IsUndisturbed(run, i, id, token)
  {
    if run == [] {
      assert !Lists(After(START, run), id, token);
    } else {
      var init, last := run[..|run| - 1], run[|run| - 1];
      ListedIffUndisturbed(init, id, token);
      var before := After(START, init);
      assert After(START, run) == Apply(before, last);
      hide After;
      if Touches(before, last, id) {
        TouchSettles(run, id, token);
      } else {
        UntouchedStays(before, last, id, token);
        forall i: nat
          ensures IsUndisturbed(run, i, id, token) <==> IsUndisturbed(init, i, id, token)
        {
          UndisturbedStays(run, i, id, token);
        }
      }
    }
  }

  /** A step that touches the id leaves it listed only for the call it began. */
  lemma TouchSettles(run: seq<Action>, id: RpcId, token: nat)
    requires run != [] && var last := |run| - 1; Touches(After(START, run[..last]), run[last], id)
    ensures var last := |run| - 1;
      Lists(Apply(After(START, run[..last]), run[last]), id, token)
      <==> exists i: nat :: IsUndisturbed(run, i, id, token)
  {
    hide After, HasEntry;
    var last := |run| - 1;
    if Lists(Apply(After(START, run[..last]), run[last]), id, token) {
      assert IsUndisturbed(run, last, id, token);
    }
    if i: nat :| IsUndisturbed(run, i, id, token) {
      assert i == last;
    }
  }

  lemma UntouchedStays(st: State, a: Action, id: RpcId, token: nat)
    requires !Touches(st, a, id)
    ensures Lists(Apply(st, a), id, token) <==> Lists(st, id, token)
  {
    hide HasEntry;
  }

  lemma UndisturbedStays(run: seq<Action>, i: nat, id: RpcId, token: nat)
    requires run != [] && var last := |run| - 1; !Touches(After(START, run[..last]), run[last], id)
    ensures IsUndisturbed(run, i, id, token) <==> IsUndisturbed(run[..|run| - 1], i, id, token)
  {
    hide After, Touches;
    var init := run[..|run| - 1];
    forall j | 0 <= j < |init| ensures init[..j] == run[..j] && init[j] == run[j] {
    }
  }

  /**
    Step `i` of the run is a cancel naming the id of the call of `token`, made while that call is
    registered and in flight.
  */
  ghost predicate IsItsCancel(run: seq<Action>, i: nat, token: nat) {
    && i < |run| && run[i].Find? && IsInFlight(After(START, run[..i]), run[i].target, token)
  }

  /** A cancel got hold of the token, whether or not it has tripped it yet. */
  ghost predicate IsHeld(st: State, token: nat) {
    token in st.tripped || exists l :: l in st.lookups && l.found == Some(token)
  }

  /** A token is tripped only by a cancel that named its own call while the call was in flight. */
  lemma {:induction false} TrippedByItsCancel(run: seq<Action>, token: nat)
    requires IsRun(START, run) && IsHeld(After(START, run), token)
    ensures exists i: nat :: IsItsCancel(run, i, token)
  {
    hide *;
    HeldAfterSomething(run, token);
    var init, last := run[..|run| - 1], run[|run| - 1];
    PrefixIsRun(START, run, |run| - 1);
    RunKeeps(init);
    LastStep(run);
    var before := After(START, init);
    HeldSince(before, last, token);
    if IsHeld(before, token) {
      TrippedByItsCancel(init, token);
      var i: nat :| IsItsCancel(init, i, token);
      EarlierCancel(run, i, token);
    } else {
      LastCancel(run, token);
    }
  }

  lemma HeldAfterSomething(run: seq<Action>, token: nat)
    requires IsHeld(After(START, run), token)
    ensures run != []
  {
  }

  lemma LastStep(run: seq<Action>)
    requires IsRun(START, run) && run != []
    ensures var before, last := After(START, run[..|run| - 1]), run[|run| - 1];
      Enabled(before, last) && After(START, run) == Apply(before, last)
  {
    hide Apply, Enabled;
  }

  lemma EarlierCancel(run: seq<Action>, i: nat, token: nat)
    requires run != [] && IsItsCancel(run[..|run| - 1], i, token)
    ensures IsItsCancel(run, i, token)
  {
    hide After, IsInFlight;
    assert run[..|run| - 1][..i] == run[..i];
  }

  lemma LastCancel(run: seq<Action>, token: nat)
    requires run != [] && var last := run[|run| - 1]; last.Find?
                                                      && IsInFlight(After(START, run[..|run| - 1]), last.target, token)
    ensures IsItsCancel(run, |run| - 1, token)
  {
  }

  lemma HeldSince(st: State, a: Action, token: nat)
    requires Inv(st) && Enabled(st, a) && IsHeld(Apply(st, a), token)
    ensures IsHeld(st, token) || (a.Find? && IsInFlight(st, a.target, token))
  {
    hide HasEntry, IsAimed, IsFired;
    var st' := Apply(st, a);
    if a.Fire? {
      var was := st.lookups[a.lookup];
      assert was in st.lookups;
      forall l | l in st'.lookups ensures l.found == was.found || l in st.lookups {
        var j :| 0 <= j < |st'.lookups| && st'.lookups[j] == l;
        assert j != a.lookup ==> st.lookups[j] in st.lookups;
      }
    }
  }

  lemma TrippedIsAimed(st: State, token: nat)
    requires Inv(st) && token in st.tripped
    ensures token < |st.made| && HasEntry(st.made[token]) && st.made[token].request.id != NullId
  {
    hide IsListing, HasEntry;
    var k: nat :| IsFired(st, k, token);
    assert st.lookups[k] in st.lookups;
  }

  /** Calls the registry never knew (`initialize`, notifications) and calls with a null id are never cancelled. */
  lemma NeverCancelled(run: seq<Action>, token: nat)
    requires IsRun(START, run) && token < |After(START, run).made|
    requires var c := After(START, run).made[token]; !c.request.hasId || c.entry.isNotification
                                                     || c.request.name == INITIALIZE || c.request.id == NullId
    ensures token !in After(START, run).tripped
  {
    RunKeeps(run);
    if token in After(START, run).tripped {
      TrippedIsAimed(After(START, run), token);
    }
  }

  /** A cancel that names no registered call in flight finds nothing, and firing it is never possible. */
  lemma CancelAfterCompletionIsNoOp(run: seq<Action>, target: RpcId, later: seq<Action>)
    requires IsRun(START, run + [Find(target)] + later)
    requires IsFreeId(After(START, run), target)
    ensures var st := After(START, run);
      && Apply(st, Find(target)) == st.(lookups := st.lookups + [Lookup(target, None, false)])
      && Fire(|st.lookups|) !in later
  {
    var whole := run + [Find(target)] + later;
    assert whole[..|run|] == run;
    PrefixIsRun(START, whole, |run|);
    RunKeeps(run);
    var st := After(START, run);
    assert (run + [Find(target)])[..|run|] == run;
    assert target !in st.tokens;
    hide IsListing;
    var n := |st.lookups|;
    assert After(START, run + [Find(target)]).lookups[n].found == None;
    hide *;
    forall i | 0 <= i < |later| ensures later[i] != Fire(n) {
      NeverFires(run + [Find(target)], later, i, n);
    }
  }

  lemma NeverFires(run: seq<Action>, later: seq<Action>, i: nat, n: nat)
    requires IsRun(START, run + later) && i < |later|
    requires n < |After(START, run).lookups| && After(START, run).lookups[n].found == None
    ensures later[i] != Fire(n)
  {
    var whole := run + later;
    LookupStays(START, run, later[..i], n);
    assert whole[..|run| + i] == run + later[..i] && whole[|run| + i] == later[i];
    assert Enabled(After(START, whole[..|run| + i]), whole[|run| + i]);
    hide After;
  }

  /** What a lookup found is settled when it is made. */
  lemma {:induction false} LookupStays(st: State, run: seq<Action>, later: seq<Action>, n: nat)
    requires n < |After(st, run).lookups|
    ensures n < |After(st, run + later).lookups|
      && After(st, run + later).lookups[n].found == After(st, run).lookups[n].found
  {
    if later == [] {
      assert run + later == run;
    } else {
      var init := later[..|later| - 1];
      LookupStays(st, run, init, n);
      assert (run + later)[..|run + later| - 1] == run + init;
    }
  }

  /**
    A cancel gets hold of a call's token exactly if the call's id is undisturbed, and can then trip it
    at any later time.
  */
  lemma CancelReachesUndisturbed(run: seq<Action>, target: RpcId, later: seq<Action>, token: nat)
    ensures var n := |After(START, run).lookups|;
      var st := After(START, run + [Find(target)] + later);
      && n < |st.lookups|
      && (st.lookups[n].found == Some(token) <==> exists i: nat :: IsUndisturbed(run, i, target, token))
      && (st.lookups[n].found == Some(token) ==> Enabled(st, Fire(n)) && token in Apply(st, Fire(n)).tripped)
  {
    var st := After(START, run);
    assert (run + [Find(target)])[..|run|] == run;
    assert After(START, run + [Find(target)]) == Apply(st, Find(target));
    ListedIffUndisturbed(run, target, token);
    LookupStays(START, run + [Find(target)], later, |st.lookups|);
    hide After, IsUndisturbed;
  }

  /** Some step of the run fires a lookup that holds the token. */
  ghost predicate IsFiredIn(st: State, run: seq<Action>, i: nat, token: nat) {
    && i < |run| && run[i].Fire?
    && var before := After(st, run[..i]);
       run[i].lookup < |before.lookups| && before.lookups[run[i].lookup].found == Some(token)
  }

  /**
    Over a whole run the tripped tokens are those tripped before and those fired in it: firing touches
    no other token and nothing resets one.
  */
  lemma {:induction false} TrippedIffFired(st: State, run: seq<Action>, token: nat)
    ensures token in After(st, run).tripped <==> token in st.tripped || exists i: nat :: IsFiredIn(st, run, i, token)
  {
    if run != [] {
      var init, last := run[..|run| - 1], |run| - 1;
      TrippedIffFired(st, init, token);
      assert After(st, run) == Apply(After(st, init), run[last]);
      hide After, HasEntry;
      assert token in Apply(After(st, init), run[last]).tripped
        <==> token in After(st, init).tripped || IsFiredIn(st, run, last, token);
      forall i: nat
        ensures IsFiredIn(st, run, i, token)
          <==> IsFiredIn(st, init, i, token) || (i == last && IsFiredIn(st, run, last, token))
      {
        if i < last { assert init[..i] == run[..i] && init[i] == run[i]; }
      }
      hide Apply, IsFiredIn;
    }
  }

  // ---------------------------------------------------------------- reused ids

  /** The registry lists every registered call in flight, and nothing else. */
  ghost predicate IsExact(st: State) {
    IsListing(st) && forall id, t :: IsInFlight(st, id, t) ==> Lists(st, id, t)
  }

  /** Every registered call of the run begins under an id no registered call in flight uses. */
  ghost predicate HasDistinctIds(run: seq<Action>) {
    forall i :: 0 <= i < |run| && run[i].Begin? && HasEntry(run[i].call) ==>
      IsFreeId(After(START, run[..i]), run[i].call.request.id)
  }

  ghost predicate IsExactUpTo(run: seq<Action>, n: nat) {
    n <= |run| && IsExact(After(START, run[..n]))
  }

  /** The registry is exact all along a run if and only if the run's calls in flight have distinct ids. */
  lemma ExactIffDistinctIds(run: seq<Action>)
    requires IsRun(START, run)
    ensures (forall n: nat :: n <= |run| ==> IsExactUpTo(run, n)) <==> HasDistinctIds(run)
  {
    hide After, HasEntry, IsExact, IsFreeId;
    if HasDistinctIds(run) {
      forall n: nat | n <= |run| ensures IsExactUpTo(run, n) {
        DistinctIdsKeepExact(run, n);
      }
    }
    if forall n: nat :: n <= |run| ==> IsExactUpTo(run, n) {
      forall i | 0 <= i < |run| && run[i].Begin? && HasEntry(run[i].call)
        ensures IsFreeId(After(START, run[..i]), run[i].call.request.id) {
        assert IsExactUpTo(run, i) && IsExactUpTo(run, i + 1);
        StepAt(run, i);
        ExactIffIdIsFree(After(START, run[..i]), run[i].call);
      }
    }
  }

  lemma StepAt(run: seq<Action>, i: nat)
    requires IsRun(START, run) && i < |run|
    ensures Enabled(After(START, run[..i]), run[i])
      && After(START, run[..i + 1]) == Apply(After(START, run[..i]), run[i])
  {
    assert run[..i + 1][..i] == run[..i];
    hide Apply, Enabled;
  }

  lemma {:induction false} DistinctIdsKeepExact(run: seq<Action>, n: nat)
    requires IsRun(START, run) && HasDistinctIds(run) && n <= |run|
    ensures IsExactUpTo(run, n)
  {
    if n == 0 {
      assert run[..0] == [];
    } else {
      DistinctIdsKeepExact(run, n - 1);
      StepAt(run, n - 1);
      hide After;
      StepKeepsExact(After(START, run[..n - 1]), run[n - 1]);
    }
  }

  lemma StepKeepsExact(st: State, a: Action)
    requires IsExact(st) && Enabled(st, a)
    requires a.Begin? && HasEntry(a.call) ==> IsFreeId(st, a.call.request.id)
    ensures IsExact(Apply(st, a))
  {
    var st' := Apply(st, a);
    match a
    case Begin(call) =>
      BeginKeeps(st, call);
      forall id, t | IsInFlight(st', id, t) ensures Lists(st', id, t) {
        assert IsInFlight(st, id, t) || t == |st.made|;
      }
    case End(token) =>
      EndKeeps(st, token);
      forall id, t | IsInFlight(st', id, t) ensures Lists(st', id, t) {
        assert IsInFlight(st, id, t);
        assert HasEntry(st.made[token]) ==> IsInFlight(st, st.made[token].request.id, token);
      }
    case _ =>
      SameRegistry(st, st');
      forall id, t | IsInFlight(st', id, t) ensures Lists(st', id, t) {
        assert IsInFlight(st, id, t);
      }
  }

  /** Registering a call leaves an exact registry exact if and only if its id is free. */
  lemma ExactIffIdIsFree(st: State, call: Call)
    requires IsExact(st) && HasEntry(call)
    ensures IsExact(Apply(st, Begin(call))) <==> IsFreeId(st, call.request.id)
  {
    var st' := Apply(st, Begin(call));
    var id := call.request.id;
    if IsFreeId(st, id) {
      StepKeepsExact(st, Begin(call));
    } else {
      var t :| IsInFlight(st, id, t);
      hide HasEntry;
      assert IsInFlight(st', id, t) && Lists(st', id, |st.made|);
    }
  }

  /** Two calls in flight under one id: when the first ends, the second can no longer be cancelled. */
  lemma ReusedIdLosesTheCall(call: Call)
    requires HasEntry(call)
    ensures var run := [Begin(call), Begin(call), End(0)];
      var st := After(START, run);
      IsRun(START, run) && IsInFlight(st, call.request.id, 1) && call.request.id !in st.tokens
  {
    var run := [Begin(call), Begin(call), End(0)];
    assert run[..0] == [] && run[..1] == [Begin(call)] && run[..2] == [Begin(call), Begin(call)] && run[..3] == run;
    assert run[..1][..0] == [] && run[..2][..1] == run[..1];
    var one := Apply(START, Begin(call));
    var two := Apply(one, Begin(call));
    assert After(START, run[..1]) == one && After(START, run[..2]) == two && After(START, run) == Apply(two, End(0));
    hide HasEntry, After;
  }
}
