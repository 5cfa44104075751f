/** What a forward may have done to the worker, whatever the worker, the network and the other threads do. */
module WorkerClientLaws {
  import opened Common
  import opened WorkerClient

  /** What was sent between two states. */
  function Between(before: State, after: State): seq<Sent> {
    if |before.log| <= |after.log| then after.log[|before.log|..] else []
  }

  predicate Extends(before: State, after: State) { before.log <= after.log }

  /** The transport refused the session: a 404 on a frame that carried one, with a body that says why. */
  predicate IsStale404(s: Sent) {
    s.outcome.Answered? && s.session.Some? && s.outcome.reply.status == 404 && s.outcome.reply.body.Bytes?
      && s.outcome.reply.body.marksStale
  }

  /** The engine refused the session: an invalid-params error whose message names the session. */
  predicate IsStaleError(s: Sent) {
    && s.outcome.Answered? && s.outcome.reply.status == 200 && s.outcome.reply.body.Bytes?
      && s.outcome.reply.body.parsed.Object?
    && s.outcome.reply.body.parsed.response.error == Some(RpcError(-32602, true))
  }

  /** The worker answered that it does not know the session, so it did not act on the frame. */
  predicate IsStaleRejection(s: Sent) { IsStale404(s) || IsStaleError(s) }

  /** Reading a reply tells the four cases apart: acknowledged, answered, stale, and anything else. */
  lemma InterpretIsExact(s: Sent)
    requires s.outcome.Answered?
    ensures var reply, r := s.outcome.reply, Interpret(s.outcome.reply, s.session);
      && (r == Success(None) <==> reply.status == 202 || reply.body.Empty?)
      && (r == Failure(StaleSession) <==> IsStale404(s))
      && (r.Success? && r.value.Some? <==> reply.status == 200 && reply.body.Bytes? && reply.body.parsed.Object?)
      && (r.Success? && r.value.Some? ==> r.value.value == reply.body.parsed.response)
      && (r.Failure? && r.error != StaleSession ==> r.error == ClientError)
      && (r.Success? && IsStaleResponse(r.value) <==> IsStaleError(s))
  {
  }

  /** The worker certainly did not act on the frame. */
  predicate IsHarmless(s: Sent) { s.outcome == Refused || IsStaleRejection(s) }

  /** How many forwarded frames got past connecting. */
  function PastConnects(sent: seq<Sent>): nat {
    if sent == [] then 0
    else PastConnects(sent[..|sent| - 1]) + (if Last(sent).frame.Call? && Last(sent).outcome != Refused then 1 else 0)
  }

  function Last(sent: seq<Sent>): Sent
    requires sent != []
  {
    sent[|sent| - 1]
  }

  lemma {:induction false} PastConnectsConcat(a: seq<Sent>, b: seq<Sent>)
    ensures PastConnects(a + b) == PastConnects(a) + PastConnects(b)
  {
    if b == [] {
      assert a + b == a;
    } else {
      assert (a + b)[..|a + b| - 1] == a + b[..|b| - 1];
      PastConnectsConcat(a, b[..|b| - 1]);
    }
  }

  lemma BetweenConcat(a: State, b: State, c: State)
    requires Extends(a, b) && Extends(b, c)
    ensures Extends(a, c) && Between(a, c) == Between(a, b) + Between(b, c)
  {
  }

  // ---------------------------------------------------------------- one exchange

  /** `sent` is one frame, tried until a connect was not refused. */
  ghost predicate IsPosting(sent: seq<Sent>, frame: Frame, session: Option<SessionId>) {
    && sent != [] && (forall i :: 0 <= i < |sent| ==> sent[i].frame == frame && sent[i].session == session)
    && forall i :: 0 <= i < |sent| - 1 ==> sent[i].outcome == Refused
  }

  /** The exception an outcome raises, if any. */
  function Raised(s: Sent): Option<Exception> {
    match s.outcome
    case Refused => Some(Unavailable)
    case Broken => Some(ClientError)
    case Malformed => Some(HttpException)
    case Answered(reply) => if Interpret(reply, s.session).Failure? then Some(Interpret(reply, s.session).error)
      else None
  }

  lemma {:induction false} PostFacts(env: Env, st: State, frame: Frame, session: Option<SessionId>, left: nat)
    ensures var (s, r) := Post(env, st, frame, session, left);
      && Extends(st, s) && s.cache == st.cache && s.locks == st.locks
      && IsPosting(Between(st, s), frame, session) && |Between(st, s)| <= left + 1
      && (r == Failure(Unavailable) ==> |Between(st, s)| == left + 1)
      && match Last(Between(st, s)).outcome
         case Refused => r == Failure(Unavailable)
         case Broken => r == Failure(ClientError)
         case Malformed => r == Failure(HttpException)
         case Answered(reply) => r == Success(reply)
    decreases left
  {
    var s := Connect(env, st, frame, session);
    if env.outcome(|st.log|) == Refused && left > 0 {
      PostFacts(env, s, frame, session, left - 1);
      var (t, r) := Post(env, s, frame, session, left - 1);
      assert Between(st, s) == [Sent(frame, session, Refused)];
      hide IsPosting;
      BetweenConcat(st, s, t);
      PostingGrows(Between(s, t), frame, session);
      hide Between;
    } else {
      assert Between(st, s) == [Sent(frame, session, env.outcome(|st.log|))];
    }
  }

  lemma PostingGrows(sent: seq<Sent>, frame: Frame, session: Option<SessionId>)
    requires IsPosting(sent, frame, session)
    ensures var more := [Sent(frame, session, Refused)] + sent;
      IsPosting(more, frame, session) && Last(more) == Last(sent)
  {
  }

  lemma HttpFacts(env: Env, st: State, frame: Frame, session: Option<SessionId>)
    ensures var (s, r) := HttpCall(env, st, frame, session);
      && Extends(st, s) && s.cache == st.cache && s.locks == st.locks
      && IsPosting(Between(st, s), frame, session) && |Between(st, s)| <= env.retries + 1
      && var last := Last(Between(st, s));
         && (r.Failure? <==> Raised(last).Some?) && (r.Failure? ==> Raised(last) == Some(r.error))
         && (r.Success? ==> last.outcome.Answered? && r.value.1 == last.outcome.reply.granted
                            && Interpret(last.outcome.reply, session) == Success(r.value.0))
  {
    PostFacts(env, st, frame, session, env.retries);
    var (s, posted) := Post(env, st, frame, session, env.retries);
    var last := Last(Between(st, s));
    assert last.session == session && HttpCall(env, st, frame, session).0 == s;
    hide Post, IsPosting, Between, Extends;
    if last.outcome.Answered? {
      var answer := Interpret(last.outcome.reply, session);
      assert Raised(last) == if answer.Failure? then Some(answer.error) else None;
    }
  }

  lemma {:induction false} PostingCount(sent: seq<Sent>, frame: Frame, session: Option<SessionId>)
    requires IsPosting(sent, frame, session)
    ensures PastConnects(sent) == if frame.Call? && Last(sent).outcome != Refused then 1 else 0
  {
    RefusedCount(sent[..|sent| - 1]);
  }

  lemma {:induction false} RefusedCount(sent: seq<Sent>)
    requires forall i :: 0 <= i < |sent| ==> sent[i].outcome == Refused || !sent[i].frame.Call?
    ensures PastConnects(sent) == 0
  {
    if sent != [] { RefusedCount(sent[..|sent| - 1]); }
  }

  // ---------------------------------------------------------------- the handshake

  /** The initialize exchange granted `session`. */
  predicate Grants(s: Sent, session: SessionId) {
    && s.frame == Initialize && s.outcome.Answered? && s.outcome.reply.granted == Some(session)
    && var r := Interpret(s.outcome.reply, s.session); r.Success? && r.value.Some? && r.value.value.hasResult
  }

  /** The worker was told about `session` and did not object. */
  predicate Accepts(s: Sent, session: SessionId) {
    s.frame == Initialized && s.session == Some(session) && s.outcome.Answered? && Raised(s) == None
  }

  /** `session` was granted and then announced in `sent`. */
  ghost predicate Establishes(sent: seq<Sent>, session: SessionId) {
    exists i, j :: 0 <= i < j < |sent| && Grants(sent[i], session) && Accepts(sent[j], session)
  }

  ghost predicate NoCalls(sent: seq<Sent>) {
    forall i :: 0 <= i < |sent| ==> !sent[i].frame.Call?
  }

  /**
    A handshake sends no forwarded frame; if it succeeds it establishes the session it caches, and if
    not it ends in what it raises.
  */
  lemma HandshakeFacts(env: Env, st: State, at: Endpoint)
    ensures var (s, r) := Handshake(env, st, at);
      && Extends(st, s) && NoCalls(Between(st, s)) && Between(st, s) != []
      && (r.Success? ==> Establishes(Between(st, s), r.value) && at in s.cache && s.cache[at] == r.value)
      && (r.Success? ==> s.cache == env.others(st.locks, st.cache)[at := r.value])
      && (r.Failure? ==> s.cache == st.cache && FailedWith(Last(Between(st, s)), r.error))
  {
    var (s1, init) := HttpCall(env, st, Initialize, None);
    HttpFacts(env, st, Initialize, None);
    var one := Between(st, s1);
    if init.Success? && init.value.1.Some? && init.value.0.Some? && init.value.0.value.hasResult {
      var session := init.value.1.value;
      var (s2, told) := HttpCall(env, s1, Initialized, Some(session));
      HttpFacts(env, s1, Initialized, Some(session));
      var two := Between(s1, s2);
      BetweenConcat(st, s1, s2);
      hide HttpCall, Interpret, Extends;
      var both := one + two;
      assert both[|one| - 1] == Last(one) && both[|both| - 1] == Last(two);
      if told.Success? {
        assert Grants(both[|one| - 1], session) && Accepts(both[|both| - 1], session);
      }
    } else {
      hide HttpCall, Interpret;
    }
  }

  /** The exchange that ended a handshake without success. */
  predicate FailedWith(s: Sent, e: Exception) {
    && ((s.frame == Initialize && s.session == None) || s.frame == Initialized)
    && if Raised(s).Some? then Raised(s) == Some(e) else s.frame == Initialize && e == ClientError
  }

  lemma EnsureFacts(env: Env, st: State, at: Endpoint)
    ensures var (s, r) := EnsureSession(env, st, at);
      && Extends(st, s) && NoCalls(Between(st, s))
      && (r.Failure? ==> Between(st, s) != [] && FailedWith(Last(Between(st, s)), r.error))
      && (at in Lock(env, st).cache ==> r == Success(Lock(env, st).cache[at]) && s == Lock(env, st))
      && (at !in Lock(env, st).cache ==> (s, r) == Handshake(env, Lock(env, st), at))
      && (at !in Lock(env, st).cache && r.Success? ==> Establishes(Between(st, s), r.value))
  {
    HandshakeFacts(env, Lock(env, st), at);
    hide Handshake, FailedWith, Establishes;
  }

  // ---------------------------------------------------------------- one pass

  /** Every forwarded frame but the last in the log was refused a connection. */
  ghost predicate IsOneShot(sent: seq<Sent>) {
    forall i :: 0 <= i < |sent| - 1 ==> sent[i].frame.Call? ==> sent[i].outcome == Refused
  }

  ghost predicate IsPass(sent: seq<Sent>, pass: Pass) {
    && sent != [] && IsOneShot(sent) && PastConnects(sent) <= 1
    && (pass.Rejected? <==> Last(sent).frame.Call? && IsStaleRejection(Last(sent)))
    && EndsWith(Last(sent), pass)
  }

  /** How the last exchange of a pass decides its result. */
  predicate EndsWith(s: Sent, pass: Pass) {
    match pass
    case Done(Failure(e)) => FailedWith(s, e) || (s.frame.Call? && Raised(s) == Some(e) && e != StaleSession)
    case Done(Success(response)) => s.frame.Call? && s.outcome.Answered?
      && Interpret(s.outcome.reply, s.session) == Success(response)
    case Rejected(response) =>
      && s.frame.Call? && s.outcome.Answered? && (response == None ==> Raised(s) == Some(StaleSession))
      && (response.Some? ==> Interpret(s.outcome.reply, s.session) == Success(response))
  }

  /** What the reply to the frame makes of a pass. */
  function Judge(called: Result<(Option<Response>, Option<SessionId>), Exception>): Pass {
    match called
    case Failure(StaleSession) => Rejected(None)
    case Failure(e) => Done(Failure(e))
    case Success((response, _)) => if IsStaleResponse(response) then Rejected(response) else Done(Success(response))
  }

  /** A pass that got a session is the handshake's part of the log and then the frame's. */
  lemma PassUnfolds(env: Env, st: State, at: Endpoint, id: int)
    requires EnsureSession(env, st, at).1.Success?
    ensures var (s1, ensured) := EnsureSession(env, st, at);
      var (s2, called) := HttpCall(env, s1, Call(id), Some(ensured.value));
      var (s, pass) := TryOnce(env, st, at, id);
      && Extends(st, s) && Between(st, s) == Between(st, s1) + Between(s1, s2)
      && IsPosting(Between(s1, s2), Call(id), Some(ensured.value))
      && pass == Judge(called) && AnswersCall(Last(Between(s1, s2)), called)
      && s.cache == (if pass.Rejected? then Forget(env, s2, at).cache else s1.cache)
  {
    var (s1, ensured) := EnsureSession(env, st, at);
    var (s2, called) := HttpCall(env, s1, Call(id), Some(ensured.value));
    EnsureFacts(env, st, at);
    HttpFacts(env, s1, Call(id), Some(ensured.value));
    BetweenConcat(st, s1, s2);
    hide EnsureSession, HttpCall, IsPosting, Interpret, NoCalls, Establishes, FailedWith, Raised, IsStaleResponse;
  }

  predicate AnswersCall(last: Sent, called: Result<(Option<Response>, Option<SessionId>), Exception>) {
    && (called.Failure? <==> Raised(last).Some?) && (called.Failure? ==> Raised(last) == Some(called.error))
    && (called.Success? ==> last.outcome.Answered?
                            && Interpret(last.outcome.reply, last.session) == Success(called.value.0))
  }

  lemma PassFacts(env: Env, st: State, at: Endpoint, id: int)
    ensures var (s, pass) := TryOnce(env, st, at, id);
      Extends(st, s) && IsPass(Between(st, s), pass)
  {
    var (s1, ensured) := EnsureSession(env, st, at);
    EnsureFacts(env, st, at);
    if ensured.Success? {
      PassUnfolds(env, st, at, id);
      var (s2, called) := HttpCall(env, s1, Call(id), Some(ensured.value));
      hide *;
      PassCalls(Between(st, s1), Between(s1, s2), Call(id), Some(ensured.value));
      JudgedPass(Between(st, s1) + Between(s1, s2), called);
    } else {
      FailedPass(Between(st, s1), ensured.error);
    }
  }

  lemma JudgedPass(sent: seq<Sent>, called: Result<(Option<Response>, Option<SessionId>), Exception>)
    requires sent != [] && IsOneShot(sent) && PastConnects(sent) <= 1 && Last(sent).frame.Call?
      && AnswersCall(Last(sent), called)
    ensures IsPass(sent, Judge(called))
  {
    hide IsOneShot, PastConnects;
  }

  lemma FailedPass(sent: seq<Sent>, e: Exception)
    requires sent != [] && NoCalls(sent) && FailedWith(Last(sent), e)
    ensures IsPass(sent, Done(Failure(e)))
  {
    RefusedCount(sent);
  }

  lemma PassCalls(before: seq<Sent>, sent: seq<Sent>, frame: Frame, session: Option<SessionId>)
    requires NoCalls(before) && IsPosting(sent, frame, session) && frame.Call?
    ensures IsOneShot(before + sent) && PastConnects(before + sent) <= 1 && Last(before + sent) == Last(sent)
      && Last(sent).frame == frame
    ensures Last(sent).session == session
  {
    RefusedCount(before);
    PostingCount(sent, frame, session);
    PastConnectsConcat(before, sent);
    hide PastConnects;
  }

  // ---------------------------------------------------------------- a whole forward

  /** All forwarded frames but the last one sent are known not to have been acted on. */
  ghost predicate AtMostOneActs(sent: seq<Sent>) {
    forall i, j :: 0 <= i < j < |sent| && sent[i].frame.Call? && sent[j].frame.Call? ==> IsHarmless(sent[i])
  }

  /** The endpoint was cached when the first pass began, and that pass was rejected as stale. */
  predicate TakesSecondPass(env: Env, st: State, at: Endpoint, id: int) {
    at in Lock(env, st).cache && TryOnce(env, Lock(env, st), at, id).1.Rejected?
  }

  /** The forward as one or two passes. */
  lemma ForwardPasses(env: Env, st: State, at: Endpoint, id: int)
    ensures var (s, r) := Forward(env, st, at, id);
      var (s1, first) := TryOnce(env, Lock(env, st), at, id);
      var one := Between(st, s1);
      && Extends(st, s1) && IsPass(one, first)
      && (!TakesSecondPass(env, st, at, id) ==> s == s1 && r == Settle(first) && Between(st, s) == one)
      && (TakesSecondPass(env, st, at, id) ==>
          var (s2, second) := TryOnce(env, Lock(env, s1), at, id);
          var two := Between(s1, s2);
          s == s2 && r == Settle(second) && Extends(s1, s2) && IsPass(two, second) && first.Rejected?
            && Between(st, s) == one + two)
  {
    var (s1, first) := TryOnce(env, Lock(env, st), at, id);
    PassFacts(env, Lock(env, st), at, id);
    PassFacts(env, Lock(env, s1), at, id);
    var (s2, second) := TryOnce(env, Lock(env, s1), at, id);
    BetweenConcat(st, s1, s2);
    hide TryOnce, IsPass, Settle;
  }

  /**
    Against any environment the worker acts on the frame at most once: whatever was sent before the
    last sending was refused a connection or rejected as stale, and at most two sendings got past
    connecting, two only if a second pass was due.
  */
  lemma AtMostOnce(env: Env, st: State, at: Endpoint, id: int)
    ensures var sent := Between(st, Forward(env, st, at, id).0);
      && sent != [] && AtMostOneActs(sent) && PastConnects(sent) <= 2
      && (PastConnects(sent) == 2 ==> TakesSecondPass(env, st, at, id))
  {
    ForwardPasses(env, st, at, id);
    var (s1, first) := TryOnce(env, Lock(env, st), at, id);
    var (s2, second) := TryOnce(env, Lock(env, s1), at, id);
    var one, two := Between(st, s1), Between(s1, s2);
    if TakesSecondPass(env, st, at, id) {
      hide Forward, TryOnce, Between, Settle, PastConnects, EndsWith, TakesSecondPass;
      PastConnectsConcat(one, two);
      TwoPasses(one, two, first, second);
    } else {
      hide Forward, TryOnce, Between, Settle, PastConnects, EndsWith;
    }
  }

  lemma TwoPasses(one: seq<Sent>, two: seq<Sent>, first: Pass, second: Pass)
    requires IsPass(one, first) && first.Rejected? && IsPass(two, second)
    ensures AtMostOneActs(one + two)
  {
    hide PastConnects, EndsWith, IsStaleRejection;
    var sent := one + two;
    forall i | 0 <= i < |sent| - 1 && sent[i].frame.Call? ensures IsHarmless(sent[i]) {
      if i == |one| - 1 {
        assert sent[i] == Last(one);
      }
    }
  }

  /**
    `acted(i)` tells whether the worker acted on sending `i`; on one that was refused or rejected as
    stale it did not.
  */
  ghost predicate IsHonest(sent: seq<Sent>, acted: nat -> bool) {
    forall i :: 0 <= i < |sent| && IsHarmless(sent[i]) ==> !acted(i)
  }

  /**
    Against any environment, a worker that does not act on what it rejects acts on one sending of the
    frame at most.
  */
  lemma WorkerActsAtMostOnce(env: Env, st: State, at: Endpoint, id: int, acted: nat -> bool, i: nat, j: nat)
    requires var sent := Between(st, Forward(env, st, at, id).0);
      && i < |sent| && j < |sent| && IsHonest(sent, acted)
      && sent[i].frame.Call? && sent[j].frame.Call? && acted(i) && acted(j)
    ensures i == j
  {
    AtMostOnce(env, st, at, id);
    hide Forward, Between, PastConnects, IsHarmless, TakesSecondPass;
  }

  /** The worker answered the frame, or acknowledged it without a body. */
  predicate AnswersWith(s: Sent, response: Option<Response>) {
    && s.outcome.Answered?
    && match response
       case None => s.outcome.reply.status == 202 || s.outcome.reply.body.Empty?
       case Some(x) => s.outcome.reply.status == 200 && s.outcome.reply.body.Bytes?
                       && s.outcome.reply.body.parsed == Object(x)
  }

  /**
    A forward fails with what its last exchange raised, or with a client error for an unusable handshake
    or a second rejection.
  */
  lemma ResultIsLastExchange(env: Env, st: State, at: Endpoint, id: int)
    ensures var (s, r) := Forward(env, st, at, id);
      var sent := Between(st, s);
      && sent != []
      && var last := Last(sent);
      && (r == Failure(StaleSession) <==> last.frame == Initialized && IsStale404(last))
      && (r == Failure(HttpException) <==> last.outcome == Malformed)
      && (r == Failure(Unavailable) <==> last.outcome == Refused)
      && (r.Success? ==> last.frame.Call? && AnswersWith(last, r.value))
  {
    ForwardPasses(env, st, at, id);
    var (s1, first) := TryOnce(env, Lock(env, st), at, id);
    var (s2, second) := TryOnce(env, Lock(env, s1), at, id);
    var one, two := Between(st, s1), Between(s1, s2);
    hide *;
    if TakesSecondPass(env, st, at, id) {
      PassResult(two, second);
      LastOfTwo(one, two, second);
    } else {
      PassResult(one, first);
    }
  }

  lemma LastOfTwo(one: seq<Sent>, two: seq<Sent>, second: Pass)
    requires IsPass(two, second)
    ensures one + two != [] && Last(one + two) == Last(two)
  {
  }

  lemma PassResult(sent: seq<Sent>, pass: Pass)
    requires IsPass(sent, pass)
    ensures sent != []
    ensures var last, r := Last(sent), Settle(pass);
      && (r == Failure(StaleSession) <==> last.frame == Initialized && IsStale404(last))
      && (r == Failure(HttpException) <==> last.outcome == Malformed)
      && (r == Failure(Unavailable) <==> last.outcome == Refused)
      && (r.Success? ==> last.frame.Call? && AnswersWith(last, r.value))
  {
    if Last(sent).outcome.Answered? { InterpretIsExact(Last(sent)); }
    hide Interpret, IsStaleResponse, IsOneShot, PastConnects;
  }

  // ---------------------------------------------------------------- who gets replayed

  /** No other thread touches the cache. */
  ghost predicate IsSequential(env: Env) {
    forall n, c :: env.others(n, c) == c
  }

  /** The first pass shook hands itself, and its frame was sent again all the same. */
  predicate FreshIsReplayed(env: Env, st: State, at: Endpoint, id: int) {
    at !in Lock(env, Lock(env, st)).cache && TakesSecondPass(env, st, at, id)
  }

  /** Between noting that the endpoint is cached and fetching its session, another thread drops it. */
  predicate IsDroppedBetween(env: Env, st: State, at: Endpoint) {
    at in Lock(env, st).cache && at !in Lock(env, Lock(env, st)).cache
  }

  /**
    A freshly shaken session is replayed exactly when the endpoint was dropped in between and the fresh
    session is rejected.
  */
  lemma FreshReplayIsARace(env: Env, st: State, at: Endpoint, id: int)
    ensures FreshIsReplayed(env, st, at, id)
            <==> IsDroppedBetween(env, st, at)
                 && var one := Between(st, TryOnce(env, Lock(env, st), at, id).0);
                    one != [] && Last(one).frame.Call? && IsStaleRejection(Last(one))
  {
    PassFacts(env, Lock(env, st), at, id);
    hide TryOnce, IsOneShot, PastConnects, IsStaleRejection, EndsWith;
  }

  /** With no other thread at work, a forward that has to shake hands gets past connecting at most once. */
  lemma FreshIsNeverReplayed(env: Env, st: State, at: Endpoint, id: int)
    requires IsSequential(env) && at !in st.cache
    ensures PastConnects(Between(st, Forward(env, st, at, id).0)) <= 1
  {
    AtMostOnce(env, st, at, id);
    hide Forward, PastConnects, TryOnce;
  }

  /**
    The endpoint's entry is the session of the last exchange if that was the frame and not rejected as
    stale; other entries stay.
  */
  ghost predicate FollowsLast(before: Cache, after: Cache, sent: seq<Sent>, at: Endpoint) {
    && sent != []
    && (at in after <==> Last(sent).frame.Call? && !IsStaleRejection(Last(sent)))
    && (at in after ==> Last(sent).session == Some(after[at]))
    && after - {at} == before - {at}
  }

  /** With no other thread at work, what the endpoint's entry is afterwards follows from the last exchange. */
  lemma CacheFollowsLastExchange(env: Env, st: State, at: Endpoint, id: int)
    requires IsSequential(env)
    ensures var s := Forward(env, st, at, id).0; FollowsLast(st.cache, s.cache, Between(st, s), at)
  {
    ForwardPasses(env, st, at, id);
    var s0 := Lock(env, st);
    var s1 := TryOnce(env, s0, at, id).0;
    SequentialLock(env, st);
    SequentialLock(env, s1);
    hide *;
    var s2 := TryOnce(env, Lock(env, s1), at, id).0;
    PassCache(env, s0, at, id);
    SameBetween(st, s0, s1);
    if TakesSecondPass(env, st, at, id) {
      PassCache(env, Lock(env, s1), at, id);
      SameBetween(s1, Lock(env, s1), s2);
      FollowsThrough(st.cache, s1.cache, s2.cache, Between(st, s1), Between(s1, s2), at);
    }
  }

  lemma SequentialLock(env: Env, st: State)
    requires IsSequential(env)
    ensures Lock(env, st).cache == st.cache && Lock(env, st).log == st.log
  {
  }

  lemma SameBetween(st: State, st': State, s: State)
    requires st.log == st'.log
    ensures Between(st, s) == Between(st', s)
  {
  }

  lemma FollowsThrough(a: Cache, b: Cache, c: Cache, one: seq<Sent>, two: seq<Sent>, at: Endpoint)
    requires FollowsLast(a, b, one, at) && FollowsLast(b, c, two, at)
    ensures FollowsLast(a, c, one + two, at)
  {
    hide IsStaleRejection;
  }

  lemma PassCache(env: Env, st: State, at: Endpoint, id: int)
    requires IsSequential(env)
    ensures var (s, pass) := TryOnce(env, st, at, id); FollowsLast(st.cache, s.cache, Between(st, s), at)
  {
    PassFacts(env, st, at, id);
    var (s, pass) := TryOnce(env, st, at, id);
    var (s1, ensured) := EnsureSession(env, st, at);
    EnsureFacts(env, st, at);
    EnsureCache(env, st, at);
    if ensured.Success? {
      var (s2, called) := HttpCall(env, s1, Call(id), Some(ensured.value));
      PassUnfolds(env, st, at, id);
      HttpFacts(env, s1, Call(id), Some(ensured.value));
      SequentialForget(env, s2, at);
      hide Forget, TryOnce, EnsureSession, HttpCall, PastConnects, NoCalls, IsOneShot, Establishes, EndsWith,
           IsStaleRejection, Judge, FailedWith, Between, AnswersCall, IsPosting;
      PassCalls(Between(st, s1), Between(s1, s2), Call(id), Some(ensured.value));
    } else {
      hide EnsureSession, HttpCall, PastConnects, NoCalls, IsOneShot, Establishes, EndsWith, IsStaleRejection,
           Between, Raised;
    }
  }

  lemma SequentialForget(env: Env, st: State, at: Endpoint)
    requires IsSequential(env)
    ensures Forget(env, st, at).cache == st.cache - {at}
    ensures at !in Forget(env, st, at).cache && Forget(env, st, at).cache - {at} == st.cache - {at}
  {
  }

  lemma EnsureCache(env: Env, st: State, at: Endpoint)
    requires IsSequential(env)
    ensures var (s, r) := EnsureSession(env, st, at);
      && s.cache - {at} == st.cache - {at}
      && (r.Success? ==> at in s.cache && s.cache[at] == r.value)
      && (r.Failure? ==> at !in s.cache)
  {
    var s0 := Lock(env, st);
    HandshakeFacts(env, s0, at);
    var (s, r) := Handshake(env, s0, at);
    assert s0.cache == st.cache;
    if r.Success? {
      assert env.others(s0.locks, s0.cache) == s0.cache;
      assert s0.cache[at := r.value] - {at} == s0.cache - {at};
    }
    hide Handshake, NoCalls, Establishes, FailedWith, Between;
  }

  /** Sending `i` carries the session cached before, or one granted and announced earlier in the log. */
  ghost predicate IsEstablished(before: Cache, at: Endpoint, sent: seq<Sent>, i: nat) {
    && i < |sent| && sent[i].session.Some?
    && ((at in before && sent[i].session.value == before[at]) || Establishes(sent[..i], sent[i].session.value))
  }

  /**
    With no other thread at work, every forwarded frame carries the cached session or one granted and
    announced before it.
  */
  lemma SessionsAreEstablished(env: Env, st: State, at: Endpoint, id: int, i: nat)
    requires IsSequential(env)
    requires var sent := Between(st, Forward(env, st, at, id).0); i < |sent| && sent[i].frame.Call?
    ensures IsEstablished(st.cache, at, Between(st, Forward(env, st, at, id).0), i)
  {
    ForwardPasses(env, st, at, id);
    var s0 := Lock(env, st);
    var (s1, first) := TryOnce(env, s0, at, id);
    SequentialLock(env, st);
    SequentialLock(env, s1);
    hide *;
    var s2 := TryOnce(env, Lock(env, s1), at, id).0;
    var one, two := Between(st, s1), Between(s1, s2);
    SameBetween(st, s0, s1);
    if i < |one| {
      PassSession(env, s0, at, id, i);
      EstablishedInFirst(st.cache, at, one, Between(st, Forward(env, st, at, id).0), i);
    } else {
      SameBetween(s1, Lock(env, s1), s2);
      PassCache(env, s0, at, id);
      PassSession(env, Lock(env, s1), at, id, i - |one|);
      RejectedIsDropped(st.cache, s1.cache, one, first, at);
      EstablishedInSecond(st.cache, s1.cache, at, one, two, i);
    }
  }

  lemma RejectedIsDropped(before: Cache, after: Cache, sent: seq<Sent>, pass: Pass, at: Endpoint)
    requires FollowsLast(before, after, sent, at) && IsPass(sent, pass) && pass.Rejected?
    ensures at !in after
  {
    hide IsStaleRejection, IsOneShot, PastConnects, EndsWith;
  }

  lemma EstablishedInFirst(before: Cache, at: Endpoint, one: seq<Sent>, sent: seq<Sent>, i: nat)
    requires IsEstablished(before, at, one, i) && one <= sent
    ensures IsEstablished(before, at, sent, i)
  {
    hide Establishes;
    assert sent[i] == one[i] && sent[..i] == one[..i];
  }

  lemma EstablishedInSecond(before: Cache, between: Cache, at: Endpoint, one: seq<Sent>, two: seq<Sent>, i: nat)
    requires i >= |one| && at !in between && IsEstablished(between, at, two, i - |one|)
    ensures IsEstablished(before, at, one + two, i)
  {
    var sent := one + two;
    assert sent[i] == two[i - |one|] && sent[..i] == one + two[..i - |one|];
    EstablishedLater(one, two[..i - |one|], sent[i].session.value);
    hide Establishes;
  }

  lemma EstablishedLater(a: seq<Sent>, b: seq<Sent>, session: SessionId)
    requires Establishes(b, session)
    ensures Establishes(a + b, session)
  {
    var i, j :| 0 <= i < j < |b| && Grants(b[i], session) && Accepts(b[j], session);
    assert (a + b)[|a| + i] == b[i] && (a + b)[|a| + j] == b[j];
  }

  lemma EstablishedEarlier(a: seq<Sent>, b: seq<Sent>, session: SessionId)
    requires Establishes(a, session)
    ensures Establishes(a + b, session)
  {
    var i, j :| 0 <= i < j < |a| && Grants(a[i], session) && Accepts(a[j], session);
    assert (a + b)[i] == a[i] && (a + b)[j] == a[j];
  }

  lemma PassSession(env: Env, st: State, at: Endpoint, id: int, i: nat)
    requires IsSequential(env)
    requires var sent := Between(st, TryOnce(env, st, at, id).0); i < |sent| && sent[i].frame.Call?
    ensures IsEstablished(st.cache, at, Between(st, TryOnce(env, st, at, id).0), i)
  {
    hide *;
    var (s1, ensured) := EnsureSession(env, st, at);
    EnsureFacts(env, st, at);
    SequentialLock(env, st);
    var one := Between(st, s1);
    if ensured.Success? {
      PassUnfolds(env, st, at, id);
      var two := Between(s1, HttpCall(env, s1, Call(id), Some(ensured.value)).0);
      CallIsEstablished(st.cache, at, one, two, Call(id), ensured.value, i);
    } else {
      PassFails(env, st, at, id);
      CallsComeAfter(one, [], i);
    }
  }

  lemma PassFails(env: Env, st: State, at: Endpoint, id: int)
    requires EnsureSession(env, st, at).1.Failure?
    ensures TryOnce(env, st, at, id).0 == EnsureSession(env, st, at).0
    ensures var one := Between(st, EnsureSession(env, st, at).0); one + [] == one
  {
    hide EnsureSession;
  }

  lemma CallIsEstablished(before: Cache, at: Endpoint, one: seq<Sent>, two: seq<Sent>, frame: Frame,
                          session: SessionId, i: nat)
    requires NoCalls(one) && IsPosting(two, frame, Some(session)) && i < |one + two| && (one + two)[i].frame.Call?
    requires (at in before && session == before[at]) || Establishes(one, session)
    ensures IsEstablished(before, at, one + two, i)
  {
    CallsComeAfter(one, two, i);
    assert (one + two)[i] == two[i - |one|] && (one + two)[..i] == one + two[..i - |one|];
    if Establishes(one, session) {
      EstablishedEarlier(one, two[..i - |one|], session);
    }
    hide Establishes;
  }

  lemma CallsComeAfter(one: seq<Sent>, two: seq<Sent>, i: nat)
    requires NoCalls(one) && i < |one + two| && (one + two)[i].frame.Call?
    ensures |one| <= i && two != []
  {
  }

  // ---------------------------------------------------------------- what the documentation rules out

  function Ok200(granted: Option<SessionId>): Outcome {
    Answered(Reply(200, Bytes(false, Object(Response(true, None))), granted))
  }

  const STALE_404 := Answered(Reply(404, Bytes(true, NotJson), None))

  const AT := Endpoint("127.0.0.1", 8745)

  /** The worker grants a session and rejects everything that carries it; no other thread interferes. */
  const FORGETFUL :=
    Env((n: nat) => if n == 0 then Ok200(Some(SessionId("a"))) else STALE_404, (n: nat, c: Cache) => c, 0)

  /**
    The internal signal escapes: the worker forgets the session between granting it and being told the
    handshake is complete.  Nothing but `ClientError` and `Unavailable` is documented.
  */
  lemma InternalSignalEscapes()
    ensures Forward(FORGETFUL, State([], 0, map[]), AT, 1).1 == Failure(StaleSession)
  {
    var st := State([], 0, map[]);
    var s1 := Connect(FORGETFUL, Lock(FORGETFUL, Lock(FORGETFUL, st)), Initialize, None);
    assert |s1.log| == 1;
  }

  /** The third connect is rejected as stale, and another thread empties the cache before the second lock. */
  const RACING :=
    Env((n: nat) => if n == 2 then STALE_404 else Ok200(Some(SessionId("a"))),
        (n: nat, c: Cache) => if n == 1 then map[] else c, 0)

  const STARTED := State([], 0, map[AT := SessionId("old")])

  lemma CountOfThree(sent: seq<Sent>)
    requires |sent| == 3 && !sent[0].frame.Call? && !sent[1].frame.Call?
    ensures PastConnects(sent) == if sent[2].frame.Call? && sent[2].outcome != Refused then 1 else 0
  {
    RefusedCount(sent[..2]);
  }

  /**
    A freshly shaken session is rejected and its frame replayed, because another thread invalidated the
    endpoint in between.
  */
  lemma FreshCanBeReplayed()
    ensures FreshIsReplayed(RACING, STARTED, AT, 1)
      && PastConnects(Between(STARTED, Forward(RACING, STARTED, AT, 1).0)) == 2
  {
    RacingRun(RACING, STARTED);
  }

  lemma RacingRun(env: Env, st: State)
    requires st == STARTED && env.retries == 0
    requires forall n :: env.outcome(n) == if n == 2 then STALE_404 else Ok200(Some(SessionId("a")))
    requires forall n, c :: env.others(n, c) == if n == 1 then map[] else c
    ensures FreshIsReplayed(env, st, AT, 1) && PastConnects(Between(st, Forward(env, st, AT, 1).0)) == 2
  {
    var s1 := TryOnce(env, Lock(env, st), AT, 1).0;
    var s2 := TryOnce(env, Lock(env, s1), AT, 1).0;
    FirstRacingPass(env, st);
    SecondRacingPass(env, s1);
    assert Forward(env, st, AT, 1).0 == s2;
    hide TryOnce, Forward;
    var sent := Between(st, s2);
    assert sent == sent[..3] + sent[3..];
    PastConnectsConcat(sent[..3], sent[3..]);
    CountOfThree(sent[..3]);
    CountOfThree(sent[3..]);
  }

  lemma FirstRacingPass(env: Env, st: State)
    requires st == STARTED && env.retries == 0
    requires forall n :: env.outcome(n) == if n == 2 then STALE_404 else Ok200(Some(SessionId("a")))
    requires forall n, c :: env.others(n, c) == if n == 1 then map[] else c
    ensures var (s, pass) := TryOnce(env, Lock(env, st), AT, 1);
      && pass == Rejected(None) && s.cache == map[] && s.locks > 1
      && |s.log| == 3 && s.log[0].frame == Initialize && s.log[1].frame == Initialized && s.log[2].frame.Call?
        && s.log[2].outcome != Refused
  {
    var s1 := Connect(env, Lock(env, Lock(env, st)), Initialize, None);
    assert |s1.log| == 1 && s1.cache == map[];
  }

  lemma SecondRacingPass(env: Env, st: State)
    requires env.retries == 0 && |st.log| == 3 && st.cache == map[] && st.locks > 1
    requires forall n :: env.outcome(n) == if n == 2 then STALE_404 else Ok200(Some(SessionId("a")))
    requires forall n, c :: env.others(n, c) == if n == 1 then map[] else c
    ensures var s := TryOnce(env, Lock(env, st), AT, 1).0;
      && st.log <= s.log && |s.log| == 6
      && s.log[3].frame == Initialize && s.log[4].frame == Initialized && s.log[5].frame.Call?
        && s.log[5].outcome != Refused
  {
    var s1 := Connect(env, Lock(env, Lock(env, st)), Initialize, None);
    assert |s1.log| == 4;
  }
}
