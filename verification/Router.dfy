/**
  The JSON-RPC 2.0 router (src/idamesh/infrastructure/rpc/router.py).

  `Answer` is what one element is answered with and `Respond` what a whole payload is.  What a handler
  returns or throws is the environment's choice, one outcome per invocation.
*/
module Router {
  import opened Common
  import opened RequestContext

  const PARSE := -32700
  const INVALID_REQUEST := -32600
  const METHOD_MISSING := -32601
  const INTERNAL := -32603
  const CANCELLED := -32800

  // the value under "id", if the key is there at all
  datatype IdField = Absent | Given(id: RpcId) | Boolean | Malformed

  datatype Params = OtherParams | Mapping(requestId: Option<RpcId>)

  /** A decoded payload element; `name` is the method when it is a string. */
  datatype Element = NotAnObject | Object(isVersion2: bool, name: Option<string>, id: IdField, params: Params)

  datatype Payload = Unparsable | Single(element: Element) | Batch(elements: seq<Element>)

  datatype Request = Request(name: string, params: Params, id: RpcId, hasId: bool)

  datatype Content = ResultOf(value: int) | ErrorOf(code: int)
  datatype Response = Response(id: RpcId, content: Content)
  datatype Reply = Nothing | One(response: Response) | Many(responses: seq<Response>)

  // how an injected handler ends
  datatype Outcome = Returns(value: int) | Fails(code: int) | StopsCancelled | Crashes(mapped: Option<int>)

  datatype Handler = OnCancelled | Injected
  datatype Entry = Entry(handler: Handler, isNotification: bool)

  type Table = map<string, Entry>

  const INITIALIZE := "initialize"
  const CANCELLED_METHOD := "notifications/cancelled"

  // ---------------------------------------------------------------- one element

  /** Not a request object as section 4 of JSON-RPC 2.0 describes one. */
  predicate IsMalformed(e: Element) {
    e.NotAnObject? || !e.isVersion2 || e.name == None || e.id.Boolean? || e.id.Malformed?
  }

  function FromWire(e: Element): Option<Request> {
    if IsMalformed(e) then None
    else Some(Request(e.name.value, e.params, if e.id.Given? then e.id.id else NullId, e.id.Given?))
  }

  function SafeId(e: Element): RpcId {
    if e.Object? && e.id.Given? then e.id.id else NullId
  }

  function Contents(o: Outcome): Content {
    match o
    case Returns(value) => ResultOf(value)
    case Fails(code) => ErrorOf(code)
    case StopsCancelled => ErrorOf(CANCELLED)
    case Crashes(None) => ErrorOf(INTERNAL)
    case Crashes(Some(code)) => ErrorOf(code)
  }

  /** Whether a request gets a token the registry knows. */
  predicate IsRegistered(entry: Entry, req: Request) {
    req.hasId && !entry.isNotification && req.name != INITIALIZE
  }

  /** The number of injected handlers an element runs. */
  function Invocations(table: Table, e: Element): nat {
    var req := FromWire(e);
    if req.Some? && req.value.name in table && table[req.value.name].handler == Injected then 1 else 0
  }

  /** The id a cancel asks to have cancelled. */
  function CancelTarget(table: Table, e: Element): Option<RpcId> {
    var req := FromWire(e);
    if req.Some? && req.value.name in table && table[req.value.name].handler == OnCancelled && req.value.params.Mapping?
       && req.value.params.requestId != Some(NullId)
    then req.value.params.requestId
    else None
  }

  function Answer(table: Table, e: Element, outcome: Outcome): Option<Response> {
    var parsed := FromWire(e);
    if parsed == None then Some(Response(SafeId(e), ErrorOf(INVALID_REQUEST)))
    else
      var req := parsed.value;
      if req.name !in table then (if req.hasId then Some(Response(req.id, ErrorOf(METHOD_MISSING))) else None)
      else if !req.hasId || table[req.name].isNotification then None
      else Some(Response(req.id, Contents(outcome)))
  }

  // ---------------------------------------------------------------- a payload

  /** How many handlers the first elements run, so which outcome the next one gets. */
  function Run(table: Table, elements: seq<Element>): nat {
    if elements == [] then 0
    else Run(table, elements[..|elements| - 1]) + Invocations(table, elements[|elements| - 1])
  }

  function Answers(table: Table, elements: seq<Element>, outcomes: nat -> Outcome, n: nat): seq<Response> {
    if elements == [] then []
    else
      var init, e := elements[..|elements| - 1], elements[|elements| - 1];
      var a := Answer(table, e, outcomes(n + Run(table, init)));
      Answers(table, init, outcomes, n) + (if a.Some? then [a.value] else [])
  }

  function Respond(table: Table, payload: Payload, outcomes: nat -> Outcome, n: nat): Reply {
    match payload
    case Unparsable => One(Response(NullId, ErrorOf(PARSE)))
    case Single(e) =>
      var a := Answer(table, e, outcomes(n));
      if a.Some? then One(a.value) else Nothing
    case Batch(elements) =>
      if elements == [] then One(Response(NullId, ErrorOf(INVALID_REQUEST)))
      else
        var responses := Answers(table, elements, outcomes, n);
        if responses == [] then Nothing else Many(responses)
  }

  // ---------------------------------------------------------------- what JSON-RPC 2.0 asks for

  /** Section 4.1: a request object without an id. */
  predicate IsNotification(e: Element) { !IsMalformed(e) && e.id == Absent }

  /** The method was registered as one that never answers. */
  predicate IsSilent(table: Table, e: Element) {
    !IsMalformed(e) && e.name.value in table && table[e.name.value].isNotification
  }

  predicate IsOwed(table: Table, e: Element) {
    !IsNotification(e) && !IsSilent(table, e)
  }

  /**
    An element is answered exactly when an answer is owed, under its own id, or under null when no id
    can be made out (section 5); what is wrong with it decides the error.
  */
  lemma AnsweredIfOwed(table: Table, e: Element, o: Outcome)
    ensures Answer(table, e, o).Some? <==> IsOwed(table, e)
    ensures IsOwed(table, e) ==>
      var a := Answer(table, e, o).value;
      && a.id == (if e.Object? && e.id.Given? then e.id.id else NullId)
      && (IsMalformed(e) ==> a.content == ErrorOf(INVALID_REQUEST))
      && (!IsMalformed(e) && e.name.value !in table ==> a.content == ErrorOf(METHOD_MISSING))
      && (!IsMalformed(e) && e.name.value in table ==> a.content == Contents(o))
  {
  }

  /** The positions owed an answer, in order. */
  function OwedAt(table: Table, elements: seq<Element>): (r: seq<nat>)
    ensures forall k :: 0 <= k < |r| ==> r[k] < |elements| && IsOwed(table, elements[r[k]])
    ensures forall i :: 0 <= i < |elements| && IsOwed(table, elements[i]) ==> i in r
    ensures forall j, k :: 0 <= j < k < |r| ==> r[j] < r[k]
  {
    if elements == [] then []
    else
      var before := OwedAt(table, elements[..|elements| - 1]);
      if IsOwed(table, elements[|elements| - 1]) then before + [|elements| - 1] else before
  }

  /** Response `a` answers element `i`, from the outcome of that element's own handler. */
  predicate IsAnswerTo(table: Table, elements: seq<Element>, outcomes: nat -> Outcome, n: nat, i: nat, a: Response) {
    i < |elements| && Answer(table, elements[i], outcomes(n + Run(table, elements[..i]))) == Some(a)
  }

  /** Section 6: the k-th response answers the k-th element owed one. */
  lemma {:induction false} BatchIsInOrder(table: Table, elements: seq<Element>, outcomes: nat -> Outcome, n: nat,
                                          k: nat)
    ensures |Answers(table, elements, outcomes, n)| == |OwedAt(table, elements)|
    ensures k < |OwedAt(table, elements)| ==>
      IsAnswerTo(table, elements, outcomes, n, OwedAt(table, elements)[k], Answers(table, elements, outcomes, n)[k])
  {
    hide *;
    if elements == [] {
      NothingOwed(table, outcomes, n);
    } else {
      var init, e := elements[..|elements| - 1], elements[|elements| - 1];
      BatchIsInOrder(table, init, outcomes, n, k);
      assert elements == init + [e];
      OneMoreInOrder(table, init, e, outcomes, n, k);
    }
  }

  lemma OneMoreInOrder(table: Table, init: seq<Element>, e: Element, outcomes: nat -> Outcome, n: nat, k: nat)
    requires |Answers(table, init, outcomes, n)| == |OwedAt(table, init)|
    requires k < |OwedAt(table, init)| ==>
      IsAnswerTo(table, init, outcomes, n, OwedAt(table, init)[k], Answers(table, init, outcomes, n)[k])
    ensures var answers, owed := Answers(table, init + [e], outcomes, n), OwedAt(table, init + [e]);
      && |answers| == |owed|
      && (k < |owed| ==> IsAnswerTo(table, init + [e], outcomes, n, owed[k], answers[k]))
  {
    hide *;
    BatchGrows(table, init, e, outcomes, n);
    var answers, owed := Answers(table, init, outcomes, n), OwedAt(table, init);
    if k < |owed| {
      AnswerStays(table, init, e, outcomes, n, owed[k], answers[k]);
    }
    if IsOwed(table, e) {
      var a :| Answers(table, init + [e], outcomes, n) == answers + [a] && OwedAt(table, init + [e]) == owed + [|init|]
               && IsAnswerTo(table, init + [e], outcomes, n, |init|, a);
    }
  }

  lemma NothingOwed(table: Table, outcomes: nat -> Outcome, n: nat)
    ensures Answers(table, [], outcomes, n) == [] && OwedAt(table, []) == []
  {
  }

  lemma BatchGrows(table: Table, init: seq<Element>, e: Element, outcomes: nat -> Outcome, n: nat)
    ensures var answers, owed := Answers(table, init + [e], outcomes, n), OwedAt(table, init + [e]);
      && (!IsOwed(table, e) ==> answers == Answers(table, init, outcomes, n) && owed == OwedAt(table, init))
      && (IsOwed(table, e) ==> exists a :: answers == Answers(table, init, outcomes, n) + [a]
                                           && owed == OwedAt(table, init) + [|init|]
                                           && IsAnswerTo(table, init + [e], outcomes, n, |init|, a))
  {
    AnswersGrow(table, init, e, outcomes, n);
    OwedGrows(table, init, e);
    hide *;
  }

  lemma OwedGrows(table: Table, init: seq<Element>, e: Element)
    ensures OwedAt(table, init + [e]) == OwedAt(table, init) + (if IsOwed(table, e) then [|init|] else [])
  {
    assert (init + [e])[..|init|] == init;
    hide IsOwed;
  }

  lemma AnswersGrow(table: Table, init: seq<Element>, e: Element, outcomes: nat -> Outcome, n: nat)
    ensures var answers := Answers(table, init + [e], outcomes, n);
      && (!IsOwed(table, e) ==> answers == Answers(table, init, outcomes, n))
      && (IsOwed(table, e) ==> exists a :: answers == Answers(table, init, outcomes, n) + [a]
                                           && IsAnswerTo(table, init + [e], outcomes, n, |init|, a))
  {
    assert (init + [e])[..|init|] == init;
    var a := Answer(table, e, outcomes(n + Run(table, init)));
    AnsweredIfOwed(table, e, outcomes(n + Run(table, init)));
    hide Run, Answer, IsOwed;
    if a.Some? {
      assert IsAnswerTo(table, init + [e], outcomes, n, |init|, a.value);
    }
  }

  lemma AnswerStays(table: Table, init: seq<Element>, e: Element, outcomes: nat -> Outcome, n: nat, i: nat, a: Response)
    requires IsAnswerTo(table, init, outcomes, n, i, a)
    ensures IsAnswerTo(table, init + [e], outcomes, n, i, a)
  {
    hide Answer, Run;
    assert (init + [e])[..i] == init[..i];
  }

  /**
    Nothing is sent when nothing is owed, never an empty list, and a lone object only for a lone
    element, an empty batch or a parse error.
  */
  lemma ReplyShape(table: Table, payload: Payload, outcomes: nat -> Outcome, n: nat)
    ensures var r := Respond(table, payload, outcomes, n);
      && (r.Many? ==> payload.Batch? && r.responses != [] && |r.responses| == |OwedAt(table, payload.elements)|)
      && (r.Nothing? <==> (payload.Single? && !IsOwed(table, payload.element))
                          || (payload.Batch? && payload.elements != []
                              && forall e :: e in payload.elements ==> !IsOwed(table, e)))
      && (r.One? <==> payload.Unparsable? || payload == Batch([])
                      || (payload.Single? && IsOwed(table, payload.element)))
  {
    match payload
    case Unparsable =>
    case Single(e) => AnsweredIfOwed(table, e, outcomes(n));
    case Batch(elements) =>
      BatchIsInOrder(table, elements, outcomes, n, 0);
      OwedSomewhere(table, elements);
      hide Answers, OwedAt, IsOwed;
  }

  lemma OwedSomewhere(table: Table, elements: seq<Element>)
    ensures OwedAt(table, elements) == [] <==> forall e :: e in elements ==> !IsOwed(table, e)
  {
    var at := OwedAt(table, elements);
    hide OwedAt, IsOwed;
    if at != [] {
      assert elements[at[0]] in elements;
    }
    forall e | e in elements && at == [] ensures !IsOwed(table, e) {
      var i :| 0 <= i < |elements| && elements[i] == e;
      assert IsOwed(table, elements[i]) ==> i in at;
    }
  }

  // ---------------------------------------------------------------- the router

  class Dispatcher {
    const outcomes: nat -> Outcome
    const registry: CancellationRegistry
    var handlers: Table
    var invoked: nat

    constructor (outcomes: nat -> Outcome)
      ensures this.outcomes == outcomes && fresh(registry) && registry.tokens == map[]
      ensures handlers == map["notifications/cancelled" := Entry(OnCancelled, true)] && invoked == 0
        && CancelsAreSilent()
    {
      this.outcomes := outcomes;
      registry := new CancellationRegistry();
      handlers := map[CANCELLED_METHOD := Entry(OnCancelled, true)];
      invoked := 0;
    }

    method Register(name: string, isNotification: bool)
      modifies this
      ensures handlers == old(handlers)[name := Entry(Injected, isNotification)] && invoked == old(invoked)
      ensures old(CancelsAreSilent()) ==> CancelsAreSilent()
    {
      handlers := handlers[name := Entry(Injected, isNotification)];
    }

    /** Trips the token of the request a cancel names; a null or missing name is ignored. */
    method HandleCancelled(params: Params)
      modifies registry.tokens.Values
      ensures forall t :: t in registry.tokens.Values ==>
        t.isSet == (old(t.isSet) || (params.Mapping? && params.requestId.Some? && params.requestId.value != NullId
                                     && params.requestId.value in registry.tokens
                                     && t == registry.tokens[params.requestId.value]))
    {
      if params.Mapping? && params.requestId.Some? && params.requestId.value != NullId {
        var hit := registry.Trip(params.requestId.value);
      }
    }

    method DispatchOne(e: Element) returns (a: Option<Response>)
      requires CancelsAreSilent()
      modifies this`invoked, registry, registry.tokens.Values
      ensures a == Answer(handlers, e, outcomes(old(invoked)))
      ensures invoked == old(invoked) + Invocations(handlers, e)
      ensures var req := FromWire(e);
        registry.tokens == if req.Some? && req.value.name in handlers
          && IsRegistered(handlers[req.value.name], req.value)
                           then old(registry.tokens) - {req.value.id} else old(registry.tokens)
      ensures var target := CancelTarget(handlers, e);
        forall t :: t in old(registry.tokens.Values) ==>
          t.isSet == (old(t.isSet) || (target.Some? && target.value in old(registry.tokens)
                                       && t == old(registry.tokens[target.value])))
    {
      var parsed := FromWire(e);
      if parsed == None {
        return Some(Response(SafeId(e), ErrorOf(INVALID_REQUEST)));
      }
      var req := parsed.value;
      if req.name !in handlers {
        if !req.hasId {
          return None;
        }
        return Some(Response(req.id, ErrorOf(METHOD_MISSING)));
      }
      var entry := handlers[req.name];
      var suppress := !req.hasId || entry.isNotification;
      var isRegistered := IsRegistered(entry, req);
      if isRegistered {
        var token := registry.Open(req.id);
      }
      var content := ResultOf(0);
      match entry.handler {
        case OnCancelled =>
          HandleCancelled(req.params);
        case Injected =>
          content := Contents(outcomes(invoked));
          invoked := invoked + 1;
      }
      if isRegistered {
        registry.Close(req.id);
      }
      if suppress {
        return None;
      }
      a := Some(Response(req.id, content));
    }

    ghost predicate CancelsAreSilent()
      reads this
    {
      forall name :: name in handlers && handlers[name].handler == OnCancelled ==> handlers[name].isNotification
    }

    method DispatchBatch(elements: seq<Element>) returns (responses: seq<Response>)
      requires CancelsAreSilent()
      modifies this`invoked, registry, registry.tokens.Values
      ensures responses == Answers(handlers, elements, outcomes, old(invoked))
      ensures registry.tokens.Keys <= old(registry.tokens.Keys)
    {
      hide Answer, CancelTarget, IsRegistered, FromWire, Invocations;
      responses := [];
      for i := 0 to |elements|
        invariant invoked == old(invoked) + Run(handlers, elements[..i])
        invariant responses == Answers(handlers, elements[..i], outcomes, old(invoked))
        invariant registry.tokens.Values <= old(registry.tokens.Values)
          && registry.tokens.Keys <= old(registry.tokens.Keys)
      {
        assert elements[..i + 1][..i] == elements[..i];
        var a := DispatchOne(elements[i]);
        if a.Some? {
          responses := responses + [a.value];
        }
      }
      assert elements[..|elements|] == elements;
    }

    method Dispatch(payload: Payload) returns (reply: Reply)
      requires CancelsAreSilent()
      modifies this`invoked, registry, registry.tokens.Values
      ensures reply == Respond(handlers, payload, outcomes, old(invoked))
      ensures registry.tokens.Keys <= old(registry.tokens.Keys)
    {
      if payload.Unparsable? {
        return One(Response(NullId, ErrorOf(PARSE)));
      }
      if payload.Single? {
        var a := DispatchOne(payload.element);
        return if a.Some? then One(a.value) else Nothing;
      }
      if payload.elements == [] {
        return One(Response(NullId, ErrorOf(INVALID_REQUEST)));
      }
      var responses := DispatchBatch(payload.elements);
      reply := if responses == [] then Nothing else Many(responses);
    }
  }
}
