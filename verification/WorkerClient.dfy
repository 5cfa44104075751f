/**
  Forwarding a frame to a worker (src/idamesh/infrastructure/rpc/worker_client.py).

  The environment decides what every TCP connect leads to and what other threads do to the session
  cache before each lock.  `Post`, `HttpCall`, `EnsureSession` and `Forward` are the client's steps on
  its state; the class runs them with its own fields.
*/
module WorkerClient {
  import opened Common

  datatype SessionId = SessionId(text: string)
  datatype Endpoint = Endpoint(host: string, port: int)

  type Cache = map<Endpoint, SessionId>

  const INVALID_PARAMS := -32602

  // `marksStale`: the error message or the body names an uninitialized or unknown session
  datatype RpcError = RpcError(code: int, marksStale: bool)
  datatype Response = Response(hasResult: bool, error: Option<RpcError>)
  datatype Parsed = NotJson | NotAnObject | Object(response: Response)
  datatype Body = Empty | Bytes(marksStale: bool, parsed: Parsed)
  datatype Reply = Reply(status: int, body: Body, granted: Option<SessionId>)

  /** What one connect comes to; only a refused one is known to have transmitted nothing. */
  datatype Outcome = Refused | Broken | Malformed | Answered(reply: Reply)

  datatype Frame = Initialize | Initialized | Call(id: int)

  datatype Sent = Sent(frame: Frame, session: Option<SessionId>, outcome: Outcome)

  datatype Exception = ClientError | Unavailable | StaleSession | HttpException

  datatype Env = Env(outcome: nat -> Outcome, others: (nat, Cache) -> Cache, retries: nat)

  datatype State = State(log: seq<Sent>, locks: nat, cache: Cache)

  // ---------------------------------------------------------------- the steps

  /** Taking the lock, after whatever the other threads did since it was last held. */
  function Lock(env: Env, st: State): State {
    st.(cache := env.others(st.locks, st.cache), locks := st.locks + 1)
  }

  function Forget(env: Env, st: State, at: Endpoint): State {
    var s := Lock(env, st);
    s.(cache := s.cache - {at})
  }

  function Connect(env: Env, st: State, frame: Frame, session: Option<SessionId>): State {
    st.(log := st.log + [Sent(frame, session, env.outcome(|st.log|))])
  }

  function Post(env: Env, st: State, frame: Frame, session: Option<SessionId>,
                left: nat): (State, Result<Reply, Exception>)
    decreases left
  {
    var s := Connect(env, st, frame, session);
    match env.outcome(|st.log|)
    case Refused => if left > 0 then Post(env, s, frame, session, left - 1) else (s, Failure(Unavailable))
    case Broken => (s, Failure(ClientError))
    case Malformed => (s, Failure(HttpException))
    case Answered(reply) => (s, Success(reply))
  }

  function Interpret(reply: Reply, session: Option<SessionId>): Result<Option<Response>, Exception> {
    if reply.status == 202 || reply.body.Empty? then Success(None)
    else if reply.status == 404 && session.Some? && reply.body.marksStale then Failure(StaleSession)
    else if reply.status != 200 then Failure(ClientError)
    else if reply.body.parsed.Object? then Success(Some(reply.body.parsed.response))
    else Failure(ClientError)
  }

  function HttpCall(env: Env, st: State, frame: Frame,
                    session: Option<SessionId>): (State, Result<(Option<Response>, Option<SessionId>), Exception>) {
    var (s, r) := Post(env, st, frame, session, env.retries);
    match r
    case Failure(e) => (s, Failure(e))
    case Success(reply) =>
      match Interpret(reply, session)
      case Failure(e) => (s, Failure(e))
      case Success(response) => (s, Success((response, reply.granted)))
  }

  /** Announces the assigned session, then caches it. */
  function Announce(env: Env, st: State, at: Endpoint, granted: SessionId): (State, Result<SessionId, Exception>) {
    var (s, r) := HttpCall(env, st, Initialized, Some(granted));
    match r
    case Failure(e) => (s, Failure(e))
    case Success(_) =>
      var s' := Lock(env, s);
      (s'.(cache := s'.cache[at := granted]), Success(granted))
  }

  function Handshake(env: Env, st: State, at: Endpoint): (State, Result<SessionId, Exception>) {
    var (s, r) := HttpCall(env, st, Initialize, None);
    match r
    case Failure(e) => (s, Failure(e))
    case Success((response, granted)) =>
      if granted == None || response == None || !response.value.hasResult then (s, Failure(ClientError))
      else Announce(env, s, at, granted.value)
  }

  function EnsureSession(env: Env, st: State, at: Endpoint): (State, Result<SessionId, Exception>) {
    var s := Lock(env, st);
    if at in s.cache then (s, Success(s.cache[at])) else Handshake(env, s, at)
  }

  predicate IsStaleResponse(response: Option<Response>) {
    && response.Some? && response.value.error.Some?
    && response.value.error.value.code == INVALID_PARAMS && response.value.error.value.marksStale
  }

  // one pass of the loop in `Forward`
  datatype Pass =
    | Done(result: Result<Option<Response>, Exception>)
    | Rejected(response: Option<Response>)

  function TryOnce(env: Env, st: State, at: Endpoint, id: int): (State, Pass) {
    var (s, ensured) := EnsureSession(env, st, at);
    match ensured
    case Failure(e) => (s, Done(Failure(e)))
    case Success(session) =>
      var (s', r) := HttpCall(env, s, Call(id), Some(session));
      match r
      case Failure(StaleSession) => (Forget(env, s', at), Rejected(None))
      case Failure(e) => (s', Done(Failure(e)))
      case Success((response, _)) =>
        if IsStaleResponse(response) then (Forget(env, s', at), Rejected(response)) else (s', Done(Success(response)))
  }

  function Settle(pass: Pass): Result<Option<Response>, Exception> {
    match pass
    case Done(result) => result
    case Rejected(None) => Failure(ClientError)
    case Rejected(response) => Success(response)
  }

  /** A second pass is made only when the endpoint was cached at the start of a first one that was rejected as stale. */
  function Forward(env: Env, st: State, at: Endpoint, id: int): (State, Result<Option<Response>, Exception>) {
    var s := Lock(env, st);
    var (s1, first) := TryOnce(env, s, at, id);
    if first.Rejected? && at in s.cache then
      var (s2, second) := TryOnce(env, Lock(env, s1), at, id);
      (s2, Settle(second))
    else (s1, Settle(first))
  }

  // ---------------------------------------------------------------- the client

  class Client {
    const env: Env
    var log: seq<Sent>
    var locks: nat
    var sessions: Cache

    constructor (env: Env)
      ensures this.env == env && Now() == State([], 0, map[])
    {
      this.env := env;
      log, locks, sessions := [], 0, map[];
    }

    function Now(): State
      reads this
    {
      State(log, locks, sessions)
    }

    method Acquire()
      modifies this
      ensures Now() == Lock(env, old(Now()))
    {
      sessions := env.others(locks, sessions);
      locks := locks + 1;
    }

    method Invalidate(at: Endpoint)
      modifies this
      ensures Now() == Forget(env, old(Now()), at)
    {
      Acquire();
      sessions := sessions - {at};
    }

    method Send(frame: Frame, session: Option<SessionId>) returns (outcome: Outcome)
      modifies this
      ensures Now() == Connect(env, old(Now()), frame, session) && outcome == env.outcome(|old(log)|)
    {
      outcome := env.outcome(|log|);
      log := log + [Sent(frame, session, outcome)];
    }

    method PostFrame(frame: Frame, session: Option<SessionId>) returns (r: Result<Reply, Exception>)
      modifies this
      ensures (Now(), r) == Post(env, old(Now()), frame, session, env.retries)
    {
      var attempt := 0;
      while true
        invariant 0 <= attempt <= env.retries
        invariant Post(env, Now(), frame, session, env.retries - attempt)
          == Post(env, old(Now()), frame, session, env.retries)
        decreases env.retries - attempt
      {
        var outcome := Send(frame, session);
        match outcome
        case Refused =>
          if attempt == env.retries {
            return Failure(Unavailable);
          }
          attempt := attempt + 1;
        case Broken => return Failure(ClientError);
        case Malformed => return Failure(HttpException);
        case Answered(reply) => return Success(reply);
      }
    }

    method CallHttp(frame: Frame, session: Option<SessionId>)
      returns (r: Result<(Option<Response>, Option<SessionId>), Exception>)
      modifies this
      ensures (Now(), r) == HttpCall(env, old(Now()), frame, session)
    {
      var posted := PostFrame(frame, session);
      if posted.Failure? {
        return Failure(posted.error);
      }
      var response := Interpret(posted.value, session);
      if response.Failure? {
        return Failure(response.error);
      }
      r := Success((response.value, posted.value.granted));
    }

    method Ensure(at: Endpoint) returns (r: Result<SessionId, Exception>)
      modifies this
      ensures (Now(), r) == EnsureSession(env, old(Now()), at)
    {
      Acquire();
      if at in sessions {
        return Success(sessions[at]);
      }
      var init := CallHttp(Initialize, None);
      if init.Failure? {
        return Failure(init.error);
      }
      var (response, granted) := init.value;
      if granted == None {
        return Failure(ClientError);
      }
      if response == None || !response.value.hasResult {
        return Failure(ClientError);
      }
      var announced := CallHttp(Initialized, granted);
      if announced.Failure? {
        return Failure(announced.error);
      }
      Acquire();
      sessions := sessions[at := granted.value];
      r := Success(granted.value);
    }

    method ForwardFrame(at: Endpoint, id: int) returns (r: Result<Option<Response>, Exception>)
      modifies this
      ensures (Now(), r) == Forward(env, old(Now()), at, id)
    {
      hide EnsureSession, HttpCall, Lock, Forget;
      var attempt := 0;
      while true
        invariant attempt == 0 ==> Now() == old(Now())
        invariant attempt == 1 ==> IsSecond(env, old(Now()), Now(), at, id)
        invariant 0 <= attempt < 2
        decreases 2 - attempt
      {
        Acquire();
        var wasCached := at in sessions;
        var ensured := Ensure(at);
        if ensured.Failure? {
          return Failure(ensured.error);
        }
        var called := CallHttp(Call(id), Some(ensured.value));
        if called == Failure(StaleSession) {
          Invalidate(at);
          if attempt == 0 && wasCached {
            attempt := 1;
            continue;
          }
          return Failure(ClientError);
        }
        if called.Failure? {
          return Failure(called.error);
        }
        var response := called.value.0;
        if IsStaleResponse(response) {
          Invalidate(at);
          if attempt == 0 && wasCached {
            attempt := 1;
            continue;
          }
        }
        return Success(response);
      }
    }
  }

  /** `st` is where the first pass leaves off when a second one follows. */
  predicate IsSecond(env: Env, st0: State, st: State, at: Endpoint, id: int) {
    var s := Lock(env, st0);
    var (s1, first) := TryOnce(env, s, at, id);
    first.Rejected? && at in s.cache && st == s1
  }
}
