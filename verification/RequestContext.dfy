/** Cooperative cancellation (src/idamesh/infrastructure/rpc/context.py). */
module RequestContext {
  import opened Common

  datatype RpcId = NullId | TextId(text: string) | NumberId(number: int)

  /** A one-shot flag. */
  class CancellationToken {
    var isSet: bool

    constructor ()
      ensures !isSet
    {
      isSet := false;
    }

    method Cancel()
      modifies this
      ensures isSet
    {
      isSet := true;
    }
  }

  /** The in-flight ids and their tokens. */
  class CancellationRegistry {
    var tokens: map<RpcId, CancellationToken>

    constructor ()
      ensures tokens == map[]
    {
      tokens := map[];
    }

    method Open(id: RpcId) returns (token: CancellationToken)
      modifies this
      ensures fresh(token) && !token.isSet && tokens == old(tokens)[id := token]
    {
      token := new CancellationToken();
      tokens := tokens[id := token];
    }

    method Close(id: RpcId)
      modifies this
      ensures tokens == old(tokens) - {id}
    {
      tokens := tokens - {id};
    }

    /** The locked half of `Trip`. */
    method Find(id: RpcId) returns (token: Option<CancellationToken>)
      ensures token == if id in tokens then Some(tokens[id]) else None
    {
      token := if id in tokens then Some(tokens[id]) else None;
    }

    method Trip(id: RpcId) returns (hit: bool)
      modifies tokens.Values
      ensures hit <==> id in tokens
      ensures forall t :: t in tokens.Values ==> t.isSet == (old(t.isSet) || (hit && t == tokens[id]))
    {
      var token := Find(id);
      if token == None {
        return false;
      }
      token.value.Cancel();
      hit := true;
    }
  }
}
