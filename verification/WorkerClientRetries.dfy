/** How patient a forward is with refused connects (src/idamesh/infrastructure/rpc/worker_client.py). */
module WorkerClientRetries {
  import opened Common
  import opened WorkerClient
  import opened WorkerClientLaws

  predicate SameFrame(s: Sent, t: Sent) { s.frame == t.frame && s.session == t.session }

  /**
    A refused sending is tried again with the same frame and session, unless it is the last of one more
    than the retries allow.
  */
  ghost predicate IsPatient(sent: seq<Sent>, retries: nat) {
    && (forall i, j :: 0 <= i < j < |sent| && j == i + 1 && sent[i].outcome == Refused ==> SameFrame(sent[i], sent[j]))
    && (sent != [] && sent[|sent| - 1].outcome == Refused ==> GivesUp(sent, retries))
  }

  /** The last sendings, one more than the retries and no more, were refused. */
  ghost predicate GivesUp(sent: seq<Sent>, retries: nat) {
    && |sent| > retries
    && (forall j :: |sent| - 1 - retries <= j < |sent| ==>
          sent[j].outcome == Refused && SameFrame(sent[j], sent[|sent| - 1]))
    && (|sent| > retries + 1 ==> sent[|sent| - retries - 2].outcome != Refused)
  }

  lemma PatientConcat(a: seq<Sent>, b: seq<Sent>, retries: nat)
    requires IsPatient(a, retries) && IsPatient(b, retries)
    requires a != [] ==> a[|a| - 1].outcome != Refused
    ensures IsPatient(a + b, retries)
  {
    var sent := a + b;
    hide SameFrame;
    forall i, j | 0 <= i < j < |sent| && j == i + 1 && sent[i].outcome == Refused ensures SameFrame(sent[i], sent[j]) {
      if j < |a| {
        assert SameFrame(a[i], a[j]);
      } else if i >= |a| {
        assert SameFrame(b[i - |a|], b[j - |a|]);
      }
    }
    if b == [] {
      assert sent == a;
    } else if sent[|sent| - 1].outcome == Refused {
      GivesUpLater(a, b, retries);
    }
  }

  lemma GivesUpLater(a: seq<Sent>, b: seq<Sent>, retries: nat)
    requires b != [] && GivesUp(b, retries) && (a != [] ==> a[|a| - 1].outcome != Refused)
    ensures GivesUp(a + b, retries)
  {
    var sent := a + b;
    hide SameFrame;
    assert sent[|sent| - 1] == b[|b| - 1];
    forall j | |sent| - 1 - retries <= j < |sent|
      ensures sent[j].outcome == Refused && SameFrame(sent[j], sent[|sent| - 1])
    {
      assert sent[j] == b[j - |a|];
    }
  }

  lemma PostingIsPatient(sent: seq<Sent>, frame: Frame, session: Option<SessionId>, retries: nat)
    requires IsPosting(sent, frame, session)
    requires Last(sent).outcome == Refused ==> |sent| == retries + 1
    ensures IsPatient(sent, retries)
  {
  }

  lemma HttpIsPatient(env: Env, st: State, frame: Frame, session: Option<SessionId>)
    ensures var (s, r) := HttpCall(env, st, frame, session);
      && Extends(st, s) && s.log != st.log && IsPatient(Between(st, s), env.retries)
      && (r.Success? ==> Between(st, s) != [] && Last(Between(st, s)).outcome.Answered?)
  {
    HttpFacts(env, st, frame, session);
    PostFacts(env, st, frame, session, env.retries);
    HttpIsPost(env, st, frame, session);
    var (s, posted) := Post(env, st, frame, session, env.retries);
    hide Post, HttpCall, Interpret, Raised, IsPatient;
    PostingIsPatient(Between(st, s), frame, session, env.retries);
  }

  lemma HttpIsPost(env: Env, st: State, frame: Frame, session: Option<SessionId>)
    ensures HttpCall(env, st, frame, session).0 == Post(env, st, frame, session, env.retries).0
  {
    hide Post, Interpret;
  }

  lemma HandshakeIsPatient(env: Env, st: State, at: Endpoint)
    ensures var (s, r) := Handshake(env, st, at);
      && Extends(st, s) && IsPatient(Between(st, s), env.retries)
      && (r.Success? ==> Between(st, s) != [] && Last(Between(st, s)).outcome.Answered?)
  {
    var (s1, init) := HttpCall(env, st, Initialize, None);
    HttpIsPatient(env, st, Initialize, None);
    if init.Success? && init.value.1.Some? && init.value.0.Some? && init.value.0.value.hasResult {
      var session := init.value.1.value;
      var (s2, told) := HttpCall(env, s1, Initialized, Some(session));
      HttpIsPatient(env, s1, Initialized, Some(session));
      BetweenConcat(st, s1, s2);
      hide HttpCall, IsPatient;
      PatientConcat(Between(st, s1), Between(s1, s2), env.retries);
    } else {
      hide HttpCall, IsPatient;
    }
  }

  lemma EnsureIsPatient(env: Env, st: State, at: Endpoint)
    ensures var (s, r) := EnsureSession(env, st, at);
      && Extends(st, s) && IsPatient(Between(st, s), env.retries)
      && (r.Success? ==> Between(st, s) == [] || Last(Between(st, s)).outcome.Answered?)
  {
    HandshakeIsPatient(env, Lock(env, st), at);
    assert Between(st, Lock(env, st)) == [] && IsPatient([], env.retries);
    hide Handshake, IsPatient;
  }

  lemma PassIsPatient(env: Env, st: State, at: Endpoint, id: int)
    ensures var (s, pass) := TryOnce(env, st, at, id);
      Extends(st, s) && IsPatient(Between(st, s), env.retries)
  {
    var (s1, ensured) := EnsureSession(env, st, at);
    EnsureIsPatient(env, st, at);
    if ensured.Success? {
      PassUnfolds(env, st, at, id);
      var (s2, called) := HttpCall(env, s1, Call(id), Some(ensured.value));
      HttpIsPatient(env, s1, Call(id), Some(ensured.value));
      hide *;
      PatientConcat(Between(st, s1), Between(s1, s2), env.retries);
    } else {
      hide EnsureSession, IsPatient, HttpCall;
    }
  }

  lemma RejectedIsAnswered(sent: seq<Sent>, pass: Pass)
    requires IsPass(sent, pass) && pass.Rejected?
    ensures sent != [] && sent[|sent| - 1].outcome != Refused
  {
  }

  /**
    In a whole forward, whatever the environment, a refused connect is tried again until the retries are
    used up, and only then given up.
  */
  lemma RefusedIsRetried(env: Env, st: State, at: Endpoint, id: int)
    ensures var (s, r) := Forward(env, st, at, id);
      && IsPatient(Between(st, s), env.retries)
      && (r == Failure(Unavailable) <==> GivesUp(Between(st, s), env.retries))
  {
    ForwardPasses(env, st, at, id);
    ResultIsLastExchange(env, st, at, id);
    var (s1, first) := TryOnce(env, Lock(env, st), at, id);
    PassIsPatient(env, Lock(env, st), at, id);
    PassIsPatient(env, Lock(env, s1), at, id);
    assert Between(st, s1) == Between(Lock(env, st), s1);
    var (s2, second) := TryOnce(env, Lock(env, s1), at, id);
    assert Between(s1, s2) == Between(Lock(env, s1), s2);
    var sent := Between(st, Forward(env, st, at, id).0);
    hide TryOnce, Forward, Between, IsPass, Lock;
    if TakesSecondPass(env, st, at, id) {
      RejectedIsAnswered(Between(st, s1), first);
      PatientConcat(Between(st, s1), Between(s1, s2), env.retries);
    }
    hide IsPatient, GivesUp, TakesSecondPass;
    PatientGivesUp(sent, env.retries);
  }

  lemma PatientGivesUp(sent: seq<Sent>, retries: nat)
    requires sent != [] && IsPatient(sent, retries)
    ensures Last(sent).outcome == Refused <==> GivesUp(sent, retries)
  {
    hide SameFrame;
  }
}
