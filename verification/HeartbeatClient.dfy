/** The self-healing heartbeat thread of the lidar emulator (examples/lidar_emulator.cpp, `run_heartbeat`). */
module HeartbeatClient {
  import opened Words

  const MAX_RETRIES := 5
  const HEARTBEAT_PAUSE_MS := 500
  const REGISTER_PAUSE_MS := 2000

  datatype Client = Client(failures: int, needsReregister: bool, sessionId: string)

  /** What the network and the registry answer during one turn of the loop, to the calls that are made in it. */
  datatype Answers = Answers(register: Option<string>, heartbeatOk: bool)

  datatype Observation =
    | HeartbeatOk
    | HeartbeatFailed(backoffMs: int)
    | RegisterOk(sessionId: string)
    | RegisterFailed

  type Trace = seq<Observation>

  // --- One turn --------------------------------------------------------------------------------

  function OnRegister(c: Client, answer: Option<string>): Client {
    match answer
    case Some(sessionId) => Client(0, false, sessionId)
    case None => c
  }

  function OnHeartbeat(c: Client, ok: bool): Client {
    if ok then c.(failures := 0)
    else c.(failures := c.failures + 1, needsReregister := c.needsReregister || c.failures + 1 >= MAX_RETRIES)
  }

  function Backoff(failures: int): int
    requires failures >= 1
  {
    Min(500 * Pow2(failures - 1), 10000)
  }

  function HeartbeatSeen(failures: int, ok: bool): Observation
    requires failures >= 0
  {
    if ok then HeartbeatOk else HeartbeatFailed(Backoff(failures + 1))
  }

  function Turn(c: Client, a: Answers): (Client, Trace)
    requires c.failures >= 0
  {
    if !c.needsReregister then (OnHeartbeat(c, a.heartbeatOk), [HeartbeatSeen(c.failures, a.heartbeatOk)])
    else match a.register
      case None => (c, [RegisterFailed])
      case Some(sessionId) =>
        var c' := OnRegister(c, a.register);
        (OnHeartbeat(c', a.heartbeatOk), [RegisterOk(sessionId), HeartbeatSeen(0, a.heartbeatOk)])
  }

  /** The state and the observations after the first `n` turns. */
  function Play(answers: seq<Answers>, n: nat, sessionId: string): (r: (Client, Trace))
    requires n <= |answers|
    ensures r.0.failures >= 0
  {
    if n == 0 then (Client(0, false, sessionId), [])
    else
      var (c, t) := Play(answers, n - 1, sessionId);
      var (c', more) := Turn(c, answers[n - 1]);
      (c', t + more)
  }

  // --- What the trace must look like -----------------------------------------------------------

  /** Failed heartbeats since the last success of either call. */
  function Streak(t: Trace): nat {
    if t == [] then 0
    else match t[|t| - 1]
      case HeartbeatOk => 0
      case RegisterOk(_) => 0
      case HeartbeatFailed(_) => Streak(t[..|t| - 1]) + 1
      case RegisterFailed => Streak(t[..|t| - 1])
  }

  /** Backoff requested in the current streak. */
  function StreakDelay(t: Trace): int {
    if t == [] then 0
    else match t[|t| - 1]
      case HeartbeatOk => 0
      case RegisterOk(_) => 0
      case HeartbeatFailed(ms) => StreakDelay(t[..|t| - 1]) + ms
      case RegisterFailed => StreakDelay(t[..|t| - 1])
  }

  /** A Register is sent exactly after five failed heartbeats in a row, and until it succeeds no heartbeat is; the k-th
      failure in a row backs off for 500 * 2^(k-1) ms, without any cap. */
  ghost predicate LawfulAt(before: Trace, o: Observation) {
    match o
    case HeartbeatOk => Streak(before) < 5
    case HeartbeatFailed(ms) => Streak(before) < 5 && ms == 500 * Pow2(Streak(before))
    case RegisterOk(_) => Streak(before) == 5
    case RegisterFailed => Streak(before) == 5
  }

  ghost predicate Lawful(t: Trace) {
    forall i | 0 <= i < |t| :: LawfulAt(t[..i], t[i])
  }

  lemma LawfulExtends(t: Trace, o: Observation)
    requires Lawful(t) && LawfulAt(t, o)
    ensures Lawful(t + [o])
    ensures Streak(t + [o]) == match o
                               case HeartbeatFailed(_) => Streak(t) + 1
                               case RegisterFailed => Streak(t)
                               case _ => 0
  {
    assert (t + [o])[..|t|] == t;
    forall i | 0 <= i < |t| ensures LawfulAt((t + [o])[..i], (t + [o])[i]) {
      assert (t + [o])[..i] == t[..i];
    }
  }

  /** Up to five failures the cap is out of reach. */
  lemma BackoffUncapped(failures: int)
    requires 1 <= failures <= 5
    ensures Backoff(failures) == 500 * Pow2(failures - 1) <= 8000
  {
    assert Pow2(0) == 1 && Pow2(1) == 2 && Pow2(2) == 4 && Pow2(3) == 8 && Pow2(4) == 16;
  }

  /** The invariant of the loop head, on every run: at most five failures, five exactly when re-registration is due,
      and a lawful history behind it. */
  ghost predicate LoopHead(c: Client, t: Trace) {
    && 0 <= c.failures <= 5
    && (c.failures == 5 <==> c.needsReregister)
    && Lawful(t) && Streak(t) == c.failures
  }

  lemma HeartbeatKeepsHead(c: Client, t: Trace, ok: bool)
    requires LoopHead(c, t) && !c.needsReregister
    ensures LoopHead(OnHeartbeat(c, ok), t + [HeartbeatSeen(c.failures, ok)])
  {
    BackoffUncapped(c.failures + 1);
    LawfulExtends(t, HeartbeatSeen(c.failures, ok));
  }

  lemma RegisterKeepsHead(c: Client, t: Trace, answer: Option<string>)
    requires LoopHead(c, t) && c.needsReregister
    ensures LoopHead(OnRegister(c, answer), t + [if answer.Some? then RegisterOk(answer.value) else RegisterFailed])
  {
    LawfulExtends(t, if answer.Some? then RegisterOk(answer.value) else RegisterFailed);
  }

  lemma TurnKeepsHead(c: Client, t: Trace, a: Answers)
    requires LoopHead(c, t)
    ensures LoopHead(Turn(c, a).0, t + Turn(c, a).1)
  {
    if !c.needsReregister {
      HeartbeatKeepsHead(c, t, a.heartbeatOk);
    } else {
      RegisterKeepsHead(c, t, a.register);
      if a.register.Some? {
        var t' := t + [RegisterOk(a.register.value)];
        HeartbeatKeepsHead(OnRegister(c, a.register), t', a.heartbeatOk);
        assert t' + [HeartbeatSeen(0, a.heartbeatOk)] == t + [RegisterOk(a.register.value), HeartbeatSeen(0, a.heartbeatOk)];
      }
    }
  }

  lemma {:induction false} PlayKeepsHead(answers: seq<Answers>, n: nat, sessionId: string)
    requires n <= |answers|
    ensures LoopHead(Play(answers, n, sessionId).0, Play(answers, n, sessionId).1)
  {
    if n > 0 {
      PlayKeepsHead(answers, n - 1, sessionId);
      TurnKeepsHead(Play(answers, n - 1, sessionId).0, Play(answers, n - 1, sessionId).1, answers[n - 1]);
    }
  }

  /** A streak of k failures has backed off for 500 * (2^k - 1) ms in all: 15.5 s before a Register. */
  lemma {:induction false} StreakDelayTotal(t: Trace)
    requires Lawful(t)
    ensures Streak(t) <= 5 && StreakDelay(t) == 500 * (Pow2(Streak(t)) - 1)
    ensures Streak(t) == 5 ==> StreakDelay(t) == 15500
  {
    if t != [] {
      var init := t[..|t| - 1];
      assert LawfulAt(init, t[|t| - 1]);
      forall i | 0 <= i < |init| ensures LawfulAt(init[..i], init[i]) {
        assert init[..i] == t[..i] && LawfulAt(t[..i], t[i]);
      }
      StreakDelayTotal(init);
    }
    assert Pow2(5) == 32 by {
      assert Pow2(4) == 16;
    }
  }

  /** The pauses that a trace implies. */
  function Pauses(t: Trace): seq<int> {
    if t == [] then []
    else Pauses(t[..|t| - 1]) + PauseAfter(t[|t| - 1])
  }

  function PauseAfter(o: Observation): seq<int> {
    match o
    case HeartbeatOk => [HEARTBEAT_PAUSE_MS]
    case HeartbeatFailed(ms) => [ms]
    case RegisterOk(_) => []
    case RegisterFailed => [REGISTER_PAUSE_MS]
  }

  lemma {:induction false} PausesCompose(t: Trace, u: Trace)
    ensures Pauses(t + u) == Pauses(t) + Pauses(u)
  {
    if u == [] {
      assert t + u == t;
    } else {
      var init := u[..|u| - 1];
      assert (t + u)[..|t + u| - 1] == t + init;
      PausesCompose(t, init);
    }
  }

  // --- The loop --------------------------------------------------------------------------------

  /** One turn of the heartbeat thread, in 32-bit `int` arithmetic: the loop body, with `continue` as a return. */
  method TakeTurn(c: Client, a: Answers) returns (c': Client, sleeps: seq<int>, seen: Trace)
    requires 0 <= c.failures <= 5 && (c.failures == 5 <==> c.needsReregister)
    ensures (c', seen) == Turn(c, a)
    ensures sleeps == Pauses(seen)
    ensures c.needsReregister && a.register.None? ==> c' == c && seen == [RegisterFailed] && sleeps == [2000]
    ensures !c.needsReregister || a.register.Some? ==>
              var granted := c.needsReregister;
              var failures := if granted then 0 else c.failures;
              && |seen| == (if granted then 2 else 1)
              && (granted ==> seen[0] == RegisterOk(a.register.value))
              && c'.sessionId == (if granted then a.register.value else c.sessionId)
              && (a.heartbeatOk ==>
                    seen[|seen| - 1] == HeartbeatOk && sleeps == [500] && c'.failures == 0 && !c'.needsReregister)
              && (!a.heartbeatOk ==>
                    && seen[|seen| - 1] == HeartbeatFailed(500 * Pow2(failures)) && sleeps == [500 * Pow2(failures)]
                    && c'.failures == failures + 1 && c'.needsReregister == (failures + 1 == 5))
  {
    var consecutiveFailures, needsReregister, sessionId := c.failures, c.needsReregister, c.sessionId;
    seen := [];
    if needsReregister {
      match a.register {
        case Some(granted) =>
          sessionId := granted;
          needsReregister := false;
          consecutiveFailures := 0;
          seen := [RegisterOk(granted)];
        case None =>
          assert [RegisterFailed][..0] == [];
          return c, [REGISTER_PAUSE_MS], [RegisterFailed];
      }
    }
    ghost var before := seen;
    assert Pauses(before) == [] by {
      assert before == [] || before[..|before| - 1] == [];
    }
    if a.heartbeatOk {
      seen := seen + [HeartbeatOk];
      assert seen[..|seen| - 1] == before;
      assert seen == Turn(c, a).1;
      return Client(0, needsReregister, sessionId), [HEARTBEAT_PAUSE_MS], seen;
    }
    consecutiveFailures := consecutiveFailures + 1;
    BackoffUncapped(consecutiveFailures);
    // Neither the shift nor the product leaves the range of `int`.
    assert 0 <= consecutiveFailures - 1 < 31 && 500 * Pow2(consecutiveFailures - 1) < INT32_LIMIT;
    var backoffMs := Min(500 * Pow2(consecutiveFailures - 1), 10000);
    if consecutiveFailures >= MAX_RETRIES {
      needsReregister := true;
    }
    seen := seen + [HeartbeatFailed(backoffMs)];
    assert seen[..|seen| - 1] == before;
    assert seen == Turn(c, a).1;
    return Client(consecutiveFailures, needsReregister, sessionId), [backoffMs], seen;
  }

  /** Observations `from` to `to` of the trace, and the pause after them, are what the answers of one turn call for. With a
      streak of five a Register is due, and only if it is granted a heartbeat follows; otherwise just a heartbeat. */
  ghost predicate Answered(t: Trace, from: nat, to: nat, a: Answers, pause: int) {
    && from < to <= |t|
    && (Streak(t[..from]) == 5 && a.register.None? ==> to == from + 1 && t[from] == RegisterFailed && pause == 2000)
    && (Streak(t[..from]) == 5 && a.register.Some? ==> to == from + 2 && t[from] == RegisterOk(a.register.value))
    && (Streak(t[..from]) < 5 ==> to == from + 1)
    && (Streak(t[..from]) < 5 || a.register.Some? ==>
          if a.heartbeatOk then t[to - 1] == HeartbeatOk && pause == 500
          else t[to - 1] == HeartbeatFailed(pause))
  }

  /** Spelled out: a heartbeat was due unless the streak was five and no Register was granted, and then the last thing
      observed is its outcome; a Register was due exactly at a streak of five, and its outcome is the first. */
  lemma AnsweredMeaning(t: Trace, from: nat, to: nat, a: Answers, pause: int)
    requires Answered(t, from, to, a, pause) && Streak(t[..from]) <= 5
    ensures from < to <= |t|
    ensures t[to - 1] == HeartbeatOk <==> a.heartbeatOk && (Streak(t[..from]) < 5 || a.register.Some?)
    ensures t[to - 1].HeartbeatFailed? <==> !a.heartbeatOk && (Streak(t[..from]) < 5 || a.register.Some?)
    ensures forall sid :: t[from] == RegisterOk(sid) <==> Streak(t[..from]) == 5 && a.register == Some(sid)
    ensures t[from] == RegisterFailed <==> Streak(t[..from]) == 5 && a.register == None
    ensures to == from + if Streak(t[..from]) == 5 && a.register.Some? then 2 else 1
    ensures pause == match t[to - 1]
                     case HeartbeatOk => 500
                     case HeartbeatFailed(backoffMs) => backoffMs
                     case RegisterFailed => 2000
                     case RegisterOk(_) => 0
  {
  }

  lemma AnsweredLater(t: Trace, u: Trace, from: nat, to: nat, a: Answers, pause: int)
    requires Answered(t, from, to, a, pause) && t <= u
    ensures Answered(u, from, to, a, pause)
  {
    assert u[..from] == t[..from];
  }

  lemma TurnIsAnswered(t: Trace, seen: Trace, c: Client, a: Answers, pause: int)
    requires LoopHead(c, t) && seen == Turn(c, a).1 && [pause] == Pauses(seen)
    ensures Answered(t + seen, |t|, |t| + |seen|, a, pause)
  {
    assert (t + seen)[..|t|] == t;
    assert seen[..|seen| - 1] + [seen[|seen| - 1]] == seen;
    PausesCompose(seen[..|seen| - 1], [seen[|seen| - 1]]);
    assert [seen[|seen| - 1]][..0] == [];
  }

  /** `sessionId` is that of the last granted Register of the trace, or the initial one if there is none. */
  ghost predicate Holds(t: Trace, initialSession: string, sessionId: string) {
    && ((forall j | 0 <= j < |t| :: !t[j].RegisterOk?) ==> sessionId == initialSession)
    && (forall j | 0 <= j < |t| && t[j].RegisterOk? && (forall k | j < k < |t| :: !t[k].RegisterOk?) ::
          sessionId == t[j].sessionId)
  }

  lemma HoldsExtends(t: Trace, o: Observation, initialSession: string, sessionId: string)
    requires Holds(t, initialSession, sessionId)
    ensures Holds(t + [o], initialSession, if o.RegisterOk? then o.sessionId else sessionId)
  {
    var t' := t + [o];
    if !o.RegisterOk? {
      assert forall j | 0 <= j < |t| :: t'[j] == t[j];
    } else {
      assert t'[|t|].RegisterOk?;
    }
  }

  lemma TurnHolds(t: Trace, c: Client, a: Answers, initialSession: string)
    requires LoopHead(c, t) && Holds(t, initialSession, c.sessionId)
    ensures Holds(t + Turn(c, a).1, initialSession, Turn(c, a).0.sessionId)
  {
    var seen := Turn(c, a).1;
    HoldsExtends(t, seen[0], initialSession, c.sessionId);
    if |seen| == 2 {
      HoldsExtends(t + [seen[0]], seen[1], initialSession, Turn(c, a).0.sessionId);
      assert t + seen == t + [seen[0]] + [seen[1]];
    } else {
      assert seen == [seen[0]];
    }
  }

  /** What the loop keeps about the turns so far. */
  ghost predicate AllAnswered(t: Trace, starts: seq<nat>, answers: seq<Answers>, sleeps: seq<int>) {
    && |starts| == |sleeps| + 1 <= |answers| + 1 && starts[0] == 0 && starts[|sleeps|] == |t|
    && forall i {:trigger sleeps[i]} | 0 <= i < |sleeps| :: Answered(t, starts[i], starts[i + 1], answers[i], sleeps[i])
  }

  lemma OneMoreTurn(t: Trace, starts: seq<nat>, answers: seq<Answers>, sleeps: seq<int>, c: Client, seen: Trace, pause: int)
    requires AllAnswered(t, starts, answers, sleeps) && |sleeps| < |answers|
    requires LoopHead(c, t) && seen == Turn(c, answers[|sleeps|]).1 && [pause] == Pauses(seen)
    ensures AllAnswered(t + seen, starts + [|t + seen|], answers, sleeps + [pause])
  {
    var sleeps', starts' := sleeps + [pause], starts + [|t + seen|];
    TurnIsAnswered(t, seen, c, answers[|sleeps|], pause);
    forall i {:trigger sleeps'[i]} | 0 <= i < |sleeps'|
      ensures Answered(t + seen, starts'[i], starts'[i + 1], answers[i], sleeps'[i])
    {
      if i < |sleeps| {
        assert sleeps'[i] == sleeps[i];
        AnsweredLater(t, t + seen, starts[i], starts[i + 1], answers[i], sleeps[i]);
      }
    }
  }

  /** What holds at the loop head after the turns that `sleeps` counts. */
  ghost predicate SoFar(answers: seq<Answers>, initialSession: string, c: Client, t: Trace, starts: seq<nat>, sleeps: seq<int>) {
    && AllAnswered(t, starts, answers, sleeps)
    && (c, t) == Play(answers, |sleeps|, initialSession)
    && sleeps == Pauses(t)
    && LoopHead(c, t) && Holds(t, initialSession, c.sessionId)
  }

  lemma TurnKeepsSoFar(answers: seq<Answers>, initialSession: string, c: Client, t: Trace, starts: seq<nat>,
                       sleeps: seq<int>, pause: int)
    requires SoFar(answers, initialSession, c, t, starts, sleeps) && |sleeps| < |answers|
    requires [pause] == Pauses(Turn(c, answers[|sleeps|]).1)
    ensures var (c', seen) := Turn(c, answers[|sleeps|]);
            SoFar(answers, initialSession, c', t + seen, starts + [|t + seen|], sleeps + [pause])
  {
    var a, seen := answers[|sleeps|], Turn(c, answers[|sleeps|]).1;
    OneMoreTurn(t, starts, answers, sleeps, c, seen, pause);
    TurnKeepsHead(c, t, a);
    TurnHolds(t, c, a, initialSession);
    PausesCompose(t, seen);
  }

  /** The heartbeat thread, until it is told to stop at a loop head. `starts` are the positions in the trace at which the
      turns begin: every turn does what its answers call for, and the session is that of the last granted Register. */
  method RunHeartbeat(answers: seq<Answers>, initialSession: string)
    returns (sessionId: string, sleeps: seq<int>, trace: Trace, ghost starts: seq<nat>)
    ensures |sleeps| == |answers| && |starts| == |answers| + 1 && starts[0] == 0 && starts[|answers|] == |trace|
    ensures forall i {:trigger sleeps[i]} | 0 <= i < |answers| ::
              Answered(trace, starts[i], starts[i + 1], answers[i], sleeps[i])
    ensures (forall j | 0 <= j < |trace| :: !trace[j].RegisterOk?) ==> sessionId == initialSession
    ensures forall j | 0 <= j < |trace| && trace[j].RegisterOk? && (forall k | j < k < |trace| :: !trace[k].RegisterOk?) ::
              sessionId == trace[j].sessionId
    ensures sessionId == Play(answers, |answers|, initialSession).0.sessionId
    ensures trace == Play(answers, |answers|, initialSession).1
    ensures Lawful(trace)
    ensures sleeps == Pauses(trace)
  {
    var client := Client(0, false, initialSession);
    sleeps, trace, starts := [], [], [0];
    for i := 0 to |answers|
      invariant |sleeps| == i && SoFar(answers, initialSession, client, trace, starts, sleeps)
    {
      var client', more, seen := TakeTurn(client, answers[i]);
      TurnKeepsSoFar(answers, initialSession, client, trace, starts, sleeps, more[0]);
      client, sleeps, trace := client', sleeps + [more[0]], trace + seen;
      starts := starts + [|trace|];
    }
    sessionId := client.sessionId;
  }
}
