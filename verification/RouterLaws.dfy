/**
  What the router (src/idamesh/infrastructure/rpc/router.py) answers, code by code and element by element.
*/
module RouterLaws {
  import opened Common
  import opened RequestContext
  import opened Router

  // ---------------------------------------------------------------- one element

  /** A request object of version 2.0: a method name, and an id that is a string, an integer, null or absent. */
  predicate IsRequestObject(e: Element) {
    e.Object? && e.isVersion2 && e.name.Some? && (e.id.Absent? || e.id.Given?)
  }

  /** Only a request without an id, and a call of a method that never answers, go unanswered. */
  predicate WantsAnswer(table: Table, e: Element) {
    IsRequestObject(e) ==> e.id.Given? && (e.name.value in table ==> !table[e.name.value].isNotification)
  }

  predicate IsContent(table: Table, e: Element, o: Outcome, content: Content) {
    if !IsRequestObject(e) then content == ErrorOf(-32600)
    else if e.name.value !in table then content == ErrorOf(-32601)
    else
      match o
      case Returns(value) => content == ResultOf(value)
      case Fails(code) => content == ErrorOf(code)
      case StopsCancelled => content == ErrorOf(-32800)
      case Crashes(Some(code)) => content == ErrorOf(code)
      case Crashes(None) => content == ErrorOf(-32603)
  }

  predicate IsAnswerOf(table: Table, e: Element, o: Outcome, a: Response) {
    && a.id == (if e.Object? && e.id.Given? then e.id.id else NullId)
    && IsContent(table, e, o, a.content)
  }

  /** Who is answered, under which id, and with which result or error code. */
  lemma AnswerIsSpelledOut(table: Table, e: Element, o: Outcome)
    ensures Answer(table, e, o).Some? <==> WantsAnswer(table, e)
    ensures Answer(table, e, o).Some? ==> IsAnswerOf(table, e, o, Answer(table, e, o).value)
    ensures IsOwed(table, e) <==> WantsAnswer(table, e)
  {
  }

  /** The id a cancel names, if the element is one and names any but null. */
  lemma CancelIsSpelledOut(table: Table, e: Element, id: RpcId)
    ensures CancelTarget(table, e) == Some(id) <==>
      && IsRequestObject(e) && e.name.value in table && table[e.name.value].handler == OnCancelled
      && e.params == Mapping(Some(id)) && id != NullId
  {
  }

  /** Only an answering call with an id, of anything but `initialize`, has a token that can be cancelled. */
  lemma RegisteredIsSpelledOut(table: Table, e: Element)
    requires IsRequestObject(e) && e.name.value in table
    ensures FromWire(e).Some? && FromWire(e).value.name == e.name.value && FromWire(e).value.params == e.params
    ensures IsRegistered(table[e.name.value], FromWire(e).value)
      <==> e.id.Given? && !table[e.name.value].isNotification && e.name.value != "initialize"
    ensures e.id.Given? ==> FromWire(e).value.id == e.id.id
  {
  }

  // ---------------------------------------------------------------- a batch

  predicate RunsHandler(table: Table, e: Element) {
    IsRequestObject(e) && e.name.value in table && table[e.name.value].handler == Injected
  }

  /** The injected handlers that ran before element `i` did. */
  function HandlersBefore(table: Table, elements: seq<Element>, i: nat): set<nat>
    requires i <= |elements|
  {
    set j: nat | j < i && RunsHandler(table, elements[j])
  }

  lemma {:induction false} RunCounts(table: Table, elements: seq<Element>, i: nat)
    requires i <= |elements|
    ensures Run(table, elements[..i]) == |HandlersBefore(table, elements, i)|
    decreases i
  {
    if i == 0 {
      assert HandlersBefore(table, elements, 0) == {};
      assert elements[..0] == [];
    } else {
      RunCounts(table, elements, i - 1);
      OneMoreHandler(table, elements, i);
      RunEnds(table, elements[..i - 1], elements[i - 1]);
      assert elements[..i] == elements[..i - 1] + [elements[i - 1]];
      hide *;
    }
  }

  lemma RunEnds(table: Table, init: seq<Element>, e: Element)
    ensures Run(table, init + [e]) == Run(table, init) + (if RunsHandler(table, e) then 1 else 0)
  {
  }

  lemma OneMoreHandler(table: Table, elements: seq<Element>, i: nat)
    requires 0 < i <= |elements|
    ensures |HandlersBefore(table, elements, i)|
         == |HandlersBefore(table, elements, i - 1)| + (if RunsHandler(table, elements[i - 1]) then 1 else 0)
  {
    hide RunsHandler;
    var last := i - 1;
    var more: set<nat> := if RunsHandler(table, elements[last]) then {last} else {};
    assert HandlersBefore(table, elements, i) == HandlersBefore(table, elements, last) + more;
  }

  /** Response `m` answers element `at[m]`, from that element's own handler; `at` lists those that want an answer. */
  ghost predicate AreAnswers(table: Table, elements: seq<Element>, outcomes: nat -> Outcome, n: nat, at: seq<nat>,
                             responses: seq<Response>) {
    && |at| == |responses|
    && (forall m, k :: 0 <= m < k < |at| ==> at[m] < at[k])
    && (forall i: nat :: i in at <==> i < |elements| && WantsAnswer(table, elements[i]))
    && forall m :: 0 <= m < |at| ==>
         && at[m] < |elements|
         && IsAnswerOf(table, elements[at[m]], outcomes(n + |HandlersBefore(table, elements, at[m])|), responses[m])
  }

  /** A batch is answered element by element, in order. */
  lemma BatchIsSpelledOut(table: Table, elements: seq<Element>, outcomes: nat -> Outcome, n: nat)
    ensures AreAnswers(table, elements, outcomes, n, OwedAt(table, elements), Answers(table, elements, outcomes, n))
  {
    hide *;
    var at, responses := OwedAt(table, elements), Answers(table, elements, outcomes, n);
    BatchIsInOrder(table, elements, outcomes, n, 0);
    OwedAreWanting(table, elements);
    forall m | 0 <= m < |at|
      ensures at[m] < |elements|
      ensures IsAnswerOf(table, elements[at[m]], outcomes(n + |HandlersBefore(table, elements, at[m])|), responses[m])
    {
      OwnAnswer(table, elements, outcomes, n, m);
    }
    AnswersAre(table, elements, outcomes, n, at, responses);
  }

  lemma OwedAreWanting(table: Table, elements: seq<Element>)
    ensures var at := OwedAt(table, elements);
      && (forall m, k :: 0 <= m < k < |at| ==> at[m] < at[k])
      && forall i: nat :: i in at <==> i < |elements| && WantsAnswer(table, elements[i])
  {
    var at := OwedAt(table, elements);
    forall i: nat ensures i in at <==> i < |elements| && WantsAnswer(table, elements[i]) {
      if i < |elements| { AnswerIsSpelledOut(table, elements[i], Returns(0)); }
      hide OwedAt, IsOwed, WantsAnswer, Answer;
    }
    hide OwedAt, IsOwed, WantsAnswer;
  }

  lemma AnswersAre(table: Table, elements: seq<Element>, outcomes: nat -> Outcome, n: nat, at: seq<nat>,
                   responses: seq<Response>)
    requires |at| == |responses| && forall m, k :: 0 <= m < k < |at| ==> at[m] < at[k]
    requires forall i: nat :: i in at <==> i < |elements| && WantsAnswer(table, elements[i])
    requires forall m :: 0 <= m < |at| ==>
      && at[m] < |elements|
      && IsAnswerOf(table, elements[at[m]], outcomes(n + |HandlersBefore(table, elements, at[m])|), responses[m])
    ensures AreAnswers(table, elements, outcomes, n, at, responses)
  {
    hide WantsAnswer, IsAnswerOf, HandlersBefore;
  }

  lemma OwnAnswer(table: Table, elements: seq<Element>, outcomes: nat -> Outcome, n: nat, m: nat)
    requires m < |OwedAt(table, elements)|
    ensures |Answers(table, elements, outcomes, n)| == |OwedAt(table, elements)|
    ensures var i := OwedAt(table, elements)[m];
      && i < |elements|
      && IsAnswerOf(table, elements[i], outcomes(n + |HandlersBefore(table, elements, i)|),
                    Answers(table, elements, outcomes, n)[m])
  {
    BatchIsInOrder(table, elements, outcomes, n, m);
    var i := OwedAt(table, elements)[m];
    RunCounts(table, elements, i);
    AnswerIsSpelledOut(table, elements[i], outcomes(n + Run(table, elements[..i])));
    hide OwedAt, Answers, Answer, Run, HandlersBefore, IsAnswerOf, IsOwed, WantsAnswer;
  }

  /** The reply to a payload. */
  lemma ReplyIsSpelledOut(table: Table, payload: Payload, outcomes: nat -> Outcome, n: nat) returns (at: seq<nat>)
    ensures var r := Respond(table, payload, outcomes, n);
      match payload
      case Unparsable => r == One(Response(NullId, ErrorOf(-32700)))
      case Single(e) =>
        if WantsAnswer(table, e) then r.One? && IsAnswerOf(table, e, outcomes(n), r.response) else r == Nothing
      case Batch(elements) =>
        if elements == [] then r == One(Response(NullId, ErrorOf(-32600)))
        else
          && (r.Nothing? || (r.Many? && r.responses != []))
          && AreAnswers(table, elements, outcomes, n, at, if r.Many? then r.responses else [])
  {
    at := [];
    match payload
    case Unparsable =>
    case Single(e) => AnswerIsSpelledOut(table, e, outcomes(n));
    case Batch(elements) =>
      if elements != [] {
        at := OwedAt(table, elements);
        BatchIsSpelledOut(table, elements, outcomes, n);
        hide Answers, OwedAt, AreAnswers;
      }
  }
}
