/**
  The steps of CancellationRuns.dfy taken by the token and registry objects of RequestContext.dfy:
  what dispatching a call does to the registry, and the two halves of a cancel.
*/
module CancellationObject {
  import opened Common
  import opened RequestContext
  import opened Router
  import opened CancellationRuns

  class Calls {
    const registry: CancellationRegistry
    // the token objects by number, and the state of the transition system they stand for
    ghost var objects: seq<CancellationToken>
    ghost var state: State

    ghost predicate Valid()
      reads this, registry, objects
    {
      && |objects| == |state.made|
      && (forall i, j :: 0 <= i < j < |objects| ==> objects[i] != objects[j])
      && registry.tokens.Keys == state.tokens.Keys
      && (forall id :: id in state.tokens ==>
            state.tokens[id] < |objects| && registry.tokens[id] == objects[state.tokens[id]])
      && (forall i :: 0 <= i < |objects| ==> (objects[i].isSet <==> i in state.tripped))
      && (forall t :: t in state.tripped ==> t < |objects|)
    }

    constructor ()
      ensures Valid() && state == START && fresh(registry)
    {
      registry := new CancellationRegistry();
      objects, state := [], START;
    }

    /** A dispatch gets its token: from the registry if the call is registered, else one nobody else knows. */
    method Begin(call: Call) returns (token: CancellationToken)
      requires Valid()
      modifies this, registry
      ensures Valid() && state == Apply(old(state), CancellationRuns.Begin(call))
      ensures fresh(token) && objects == old(objects) + [token]
    {
      if IsRegistered(call.entry, call.request) {
        token := registry.Open(call.request.id);
      } else {
        token := new CancellationToken();
      }
      objects, state := objects + [token], Apply(state, CancellationRuns.Begin(call));
    }

    /** A dispatch is over: a registered call gives up its id, whoever is listed under it. */
    method End(call: Call, ghost number: nat)
      requires Valid() && Enabled(state, CancellationRuns.End(number)) && state.made[number] == call
      modifies this, registry
      ensures Valid() && state == Apply(old(state), CancellationRuns.End(number)) && objects == old(objects)
    {
      if IsRegistered(call.entry, call.request) {
        registry.Close(call.request.id);
      }
      state := Apply(state, CancellationRuns.End(number));
    }

    method Find(target: RpcId) returns (token: Option<CancellationToken>)
      requires Valid()
      modifies this
      ensures Valid() && state == Apply(old(state), CancellationRuns.Find(target)) && objects == old(objects)
      ensures var found := state.lookups[|old(state).lookups|].found;
        && (token == None <==> found == None)
        && (found.Some? ==> found.value < |objects| && token == Some(objects[found.value]))
    {
      token := registry.Find(target);
      state := Apply(state, CancellationRuns.Find(target));
    }

    method Fire(token: CancellationToken, ghost lookup: nat)
      requires Valid() && Enabled(state, CancellationRuns.Fire(lookup))
      requires var number := state.lookups[lookup].found.value; number < |objects| && objects[number] == token
      modifies this, token
      ensures Valid() && state == Apply(old(state), CancellationRuns.Fire(lookup)) && objects == old(objects)
    {
      token.Cancel();
      state := Apply(state, CancellationRuns.Fire(lookup));
    }
  }
}
