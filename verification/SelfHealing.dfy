/** The registry and one self-healing client, message by message. Calls are numbered; a request may be lost or served
    late, its answer may be lost or miss the client's deadline, and every other thread and client goes on as it likes. */
module SelfHealing {
  import opened Words
  import opened NodeTypes
  import opened History
  import opened Session
  import opened Protocol
  import opened Detector
  import HC = HeartbeatClient

  /** Where the client is: not started, at the head of its loop, or waiting for the answer to its latest call. */
  datatype At = Start | Head | AwaitRegister | AwaitHeartbeat

  /** What has become of a call: its request is on its way, or lost, or admitted - past the running check and before the
      insertion - or the registry has answered, whether or not the client hears of it. */
  datatype Call = RegisterSent | HeartbeatSent | Lost | Admitted | Granted(sessionId: string) | BeatOk | Refused

  datatype World = World(
    reg: State,
    client: HC.Client,
    at: At,
    calls: seq<Call>)  // of this client, in the order in which it made them

  datatype Move =
    | Other(a: Action)                     // any registry step that does not name the client's node
    | SendRegister | SendHeartbeat         // the client makes a call
    | Lose(call: nat)                      // a request is lost on its way
    | AdmitOwn(call: nat)                  // the registry serves a Register, in two steps
    | InsertOwn(call: nat, random: nat)
    | HeartbeatOwn(call: nat)              // the registry serves a heartbeat
    | GotSession(sessionId: string)        // the client hears that its latest call was granted
    | RegisterFailed                       // refused, lost, or past the deadline
    | HeartbeatAnswered(ok: bool)          // ok only if the registry said so; otherwise as above

  predicate Names(a: Action, id: string) {
    match a
    case Admit(request) => request.nodeInfo.Some? && request.nodeInfo.value.nodeId == id
    case Insert(info, _) => info.nodeId == id
    case Heartbeat(x, _, _) => x == id
    case Deregister(x) => x == id
    case _ => false
  }

  /** The registry step a move consists of, if it has one; load figures as the client sends them. */
  function ToAction(info: NodeInfo, m: Move): Option<Action> {
    match m
    case Other(a) => Some(a)
    case AdmitOwn(_) => Some(Admit(RegisterRequest(Some(info))))
    case InsertOwn(_, random) => Some(Insert(info, random))
    case HeartbeatOwn(_) => Some(Heartbeat(info.nodeId, 15.0, 45.0))
    case _ => None
  }

  predicate Is(w: World, n: nat, call: Call) {
    n < |w.calls| && w.calls[n] == call
  }

  /** The call that the client waits for is, at the registry, as given. */
  predicate Awaits(w: World, call: Call) {
    (w.at == AwaitRegister || w.at == AwaitHeartbeat) && w.calls != [] && w.calls[|w.calls| - 1] == call
  }

  ghost predicate CanMove(c: Config, info: NodeInfo, w: World, m: Move) {
    match m
    case Other(a) => Enabled(c, w.reg, a) && !Names(a, info.nodeId)
    case SendRegister => w.at == Start || (w.at == Head && w.client.needsReregister)
    case SendHeartbeat => w.at == Head && !w.client.needsReregister
    case Lose(n) => Is(w, n, RegisterSent) || Is(w, n, HeartbeatSent)
    case AdmitOwn(n) => Is(w, n, RegisterSent)
    case InsertOwn(n, _) => Is(w, n, Admitted)
    case HeartbeatOwn(n) => Is(w, n, HeartbeatSent)
    case GotSession(sessionId) => w.at == AwaitRegister && Awaits(w, Granted(sessionId))
    case RegisterFailed => w.at == AwaitRegister
    case HeartbeatAnswered(ok) => w.at == AwaitHeartbeat && (ok ==> Awaits(w, BeatOk))
  }

  function Served(c: Config, info: NodeInfo, s: State, m: Move): State {
    match ToAction(info, m)
    case None => s
    case Some(a) => Step(c, s, a)
  }

  /** What the registry's step makes of a call: the outcomes of `RegistryService.AdmitRegister`, `InsertRegister` and
      `Heartbeat`. */
  function AfterAdmit(info: NodeInfo, s: State): Call {
    if Admissible(s.running, RegisterRequest(Some(info))) then Admitted else Refused
  }

  function AfterInsert(c: Config, info: NodeInfo, s: State, random: nat): Call {
    if CanRegister(s.nodes, c.maxNodes, info.nodeId) then Granted(SessionId(info.nodeId, random)) else Refused
  }

  function AfterBeat(info: NodeInfo, s: State): Call {
    if info.nodeId != "" && info.nodeId in s.nodes then BeatOk else Refused
  }

  function Mark(calls: seq<Call>, n: nat, call: Call): seq<Call> {
    if n < |calls| then calls[n := call] else calls
  }

  function CallsAfter(c: Config, info: NodeInfo, w: World, m: Move): seq<Call> {
    match m
    case SendRegister => w.calls + [RegisterSent]
    case SendHeartbeat => w.calls + [HeartbeatSent]
    case Lose(n) => Mark(w.calls, n, Lost)
    case AdmitOwn(n) => Mark(w.calls, n, AfterAdmit(info, w.reg))
    case InsertOwn(n, random) => Mark(w.calls, n, AfterInsert(c, info, w.reg, random))
    case HeartbeatOwn(n) => Mark(w.calls, n, AfterBeat(info, w.reg))
    case _ => w.calls
  }

  function AtAfter(at: At, m: Move): At {
    match m
    case SendRegister => AwaitRegister
    case SendHeartbeat => AwaitHeartbeat
    case GotSession(_) => Head
    case RegisterFailed => Head
    case HeartbeatAnswered(_) => Head
    case _ => at
  }

  function ClientAfter(client: HC.Client, m: Move): HC.Client {
    match m
    case GotSession(sessionId) => HC.OnRegister(client, Some(sessionId))
    case RegisterFailed => HC.OnRegister(client, None)
    case HeartbeatAnswered(ok) => HC.OnHeartbeat(client, ok)
    case _ => client
  }

  function Move1(c: Config, info: NodeInfo, w: World, m: Move): World {
    World(Served(c, info, w.reg, m), ClientAfter(w.client, m), AtAfter(w.at, m), CallsAfter(c, info, w, m))
  }

  function Moves(c: Config, info: NodeInfo, w: World, ms: seq<Move>): World
    decreases |ms|
  {
    if ms == [] then w else Moves(c, info, Move1(c, info, w, ms[0]), ms[1..])
  }

  ghost predicate Possible(c: Config, info: NodeInfo, w: World, ms: seq<Move>)
    decreases |ms|
  {
    ms != [] ==> CanMove(c, info, w, ms[0]) && Possible(c, info, Move1(c, info, w, ms[0]), ms[1..])
  }

  /** The registry's part of a run. */
  function Project(info: NodeInfo, ms: seq<Move>): seq<Action> {
    if ms == [] then []
    else (match ToAction(info, ms[0]) case None => [] case Some(a) => [a]) + Project(info, ms[1..])
  }

  // --- Refinement ------------------------------------------------------------------------------

  lemma MoveIsEnabled(c: Config, info: NodeInfo, w: World, m: Move)
    requires CanMove(c, info, w, m)
    ensures ToAction(info, m).Some? ==> Enabled(c, w.reg, ToAction(info, m).value)
  {
  }

  /** Seen from the registry, every run of the whole system is a run of the registry. */
  lemma {:induction false} ProjectionIsRun(c: Config, info: NodeInfo, w: World, ms: seq<Move>)
    requires Possible(c, info, w, ms)
    ensures IsRun(c, w.reg, Project(info, ms))
    ensures Moves(c, info, w, ms).reg == Exec(c, w.reg, Project(info, ms))
    decreases |ms|
  {
    if ms != [] {
      var m, w' := ms[0], Move1(c, info, w, ms[0]);
      MoveIsEnabled(c, info, w, m);
      ProjectionIsRun(c, info, w', ms[1..]);
      match ToAction(info, m)
      case None =>
        assert Project(info, ms) == Project(info, ms[1..]);
      case Some(a) =>
        assert Project(info, ms)[0] == a && Project(info, ms)[1..] == Project(info, ms[1..]);
    }
  }

  lemma MovesGrowLog(c: Config, info: NodeInfo, w: World, ms: seq<Move>)
    requires Possible(c, info, w, ms)
    ensures w.reg.log <= Moves(c, info, w, ms).reg.log
  {
    ProjectionIsRun(c, info, w, ms);
    LogGrows(c, w.reg, Project(info, ms));
  }

  // --- Invariants ------------------------------------------------------------------------------

  /** The client's own part of the loop-head invariant of `HeartbeatClient`. */
  predicate AtHead(client: HC.Client) {
    0 <= client.failures <= 5 && (client.failures == 5 <==> client.needsReregister)
  }

  /** The client waits for a heartbeat only when re-registration is not due, and for a Register only when it is, save at
      startup; and its admitted calls are the ones of its node that are in flight at the registry. */
  ghost predicate WorldInv(info: NodeInfo, w: World) {
    && AtHead(w.client)
    && (w.at == Start ==> w.calls == [] && !w.client.needsReregister)
    && (w.at == AwaitRegister ==> w.calls != [] && (w.client.needsReregister || |w.calls| == 1))
    && (w.at == AwaitHeartbeat ==> w.calls != [] && !w.client.needsReregister)
    && w.reg.inFlight[info] == multiset(w.calls)[Admitted]
  }

  lemma AdmittedIsInFlight(info: NodeInfo, w: World, n: nat)
    requires w.reg.inFlight[info] == multiset(w.calls)[Admitted] && Is(w, n, Admitted)
    ensures info in w.reg.inFlight
  {
    assert w.calls[n] in multiset(w.calls);
  }

  function One(b: bool): int {
    if b then 1 else 0
  }

  lemma MarkCounts(calls: seq<Call>, n: nat, call: Call)
    requires n < |calls|
    ensures multiset(Mark(calls, n, call))[Admitted] ==
            multiset(calls)[Admitted] - One(calls[n] == Admitted) + One(call == Admitted)
  {
    assert calls[n] in multiset(calls);
  }

  lemma CallCounts(c: Config, info: NodeInfo, w: World, m: Move)
    requires CanMove(c, info, w, m)
    ensures multiset(CallsAfter(c, info, w, m))[Admitted] == multiset(w.calls)[Admitted]
            + One(m.AdmitOwn? && AfterAdmit(info, w.reg) == Admitted) - One(m.InsertOwn?)
  {
    match m
    case Lose(n) => MarkCounts(w.calls, n, Lost);
    case AdmitOwn(n) => MarkCounts(w.calls, n, AfterAdmit(info, w.reg));
    case InsertOwn(n, random) => MarkCounts(w.calls, n, AfterInsert(c, info, w.reg, random));
    case HeartbeatOwn(n) => MarkCounts(w.calls, n, AfterBeat(info, w.reg));
    case _ =>
  }

  lemma InFlightCounts(c: Config, info: NodeInfo, w: World, m: Move)
    requires CanMove(c, info, w, m) && (m.InsertOwn? ==> info in w.reg.inFlight)
    ensures Served(c, info, w.reg, m).inFlight[info] == w.reg.inFlight[info]
            + One(m.AdmitOwn? && AfterAdmit(info, w.reg) == Admitted) - One(m.InsertOwn?)
  {
  }

  lemma MoveKeepsInFlight(c: Config, info: NodeInfo, w: World, m: Move)
    requires CanMove(c, info, w, m) && w.reg.inFlight[info] == multiset(w.calls)[Admitted]
    ensures Move1(c, info, w, m).reg.inFlight[info] == multiset(Move1(c, info, w, m).calls)[Admitted]
  {
    if m.InsertOwn? {
      AdmittedIsInFlight(info, w, m.call);
    }
    CallCounts(c, info, w, m);
    InFlightCounts(c, info, w, m);
  }

  lemma MoveKeepsWorldInv(c: Config, info: NodeInfo, w: World, m: Move)
    requires WorldInv(info, w) && CanMove(c, info, w, m)
    ensures WorldInv(info, Move1(c, info, w, m))
  {
    MoveKeepsInFlight(c, info, w, m);
  }

  lemma {:induction false} MovesKeepWorldInv(c: Config, info: NodeInfo, w: World, ms: seq<Move>)
    requires WorldInv(info, w) && Possible(c, info, w, ms)
    ensures WorldInv(info, Moves(c, info, w, ms))
    decreases |ms|
  {
    if ms != [] {
      MoveKeepsWorldInv(c, info, w, ms[0]);
      MovesKeepWorldInv(c, info, Move1(c, info, w, ms[0]), ms[1..]);
    }
  }

  const INITIAL_WORLD: World :=
    World(INITIAL, HC.Client(0, false, "pending"), Start, [])

  ghost predicate Good(c: Config, info: NodeInfo, w: World) {
    WorldInv(info, w) && DetectorInv(c, w.reg)
  }

  lemma MovesKeepGood(c: Config, info: NodeInfo, w: World, ms: seq<Move>)
    requires c.Representable() && c.maxMissed >= 1 && Good(c, info, w) && Possible(c, info, w, ms)
    ensures Good(c, info, Moves(c, info, w, ms))
  {
    MovesKeepWorldInv(c, info, w, ms);
    ProjectionIsRun(c, info, w, ms);
    RunKeepsDetector(c, w.reg, Project(info, ms));
  }

  /** Every reachable world has the invariants that the theorems below start from. */
  lemma WorldReachable(c: Config, info: NodeInfo, ms: seq<Move>)
    requires c.Representable() && c.maxMissed >= 1 && Possible(c, info, INITIAL_WORLD, ms)
    ensures Good(c, info, Moves(c, info, INITIAL_WORLD, ms))
  {
    InitialInv(c);
    MovesKeepGood(c, info, INITIAL_WORLD, ms);
  }

  /** The registry accepts one of the client's Registers. */
  predicate Accepts(c: Config, info: NodeInfo, w: World, m: Move) {
    m.InsertOwn? && Is(w, m.call, Admitted) && CanRegister(w.reg.nodes, c.maxNodes, info.nodeId)
  }

  lemma AcceptedReplaces(c: Config, info: NodeInfo, w: World, m: Move)
    requires WorldInv(info, w) && Accepts(c, info, w, m)
    ensures var w', sid := Move1(c, info, w, m), SessionId(info.nodeId, m.random);
            && w'.reg.log == w.reg.log + [Registered(info, sid)]
            && LeaseStart(w'.reg.log, info.nodeId) == |w.reg.log|
            && Silence(w'.reg.log, info.nodeId) == 0
            && w'.reg.nodes == AfterRegister(w.reg.nodes, info, sid)
            && w'.calls == w.calls[m.call := Granted(sid)]
  {
    AdmittedIsInFlight(info, w, m.call);
    ExtendLease(w.reg.log, Registered(info, SessionId(info.nodeId, m.random)), info.nodeId);
    ExtendSilence(w.reg.log, Registered(info, SessionId(info.nodeId, m.random)), info.nodeId);
  }

  /** Any other move grants nothing and does not bring the node back. */
  lemma NothingGranted(c: Config, info: NodeInfo, w: World, m: Move, n: nat)
    requires CanMove(c, info, w, m) && !Accepts(c, info, w, m)
    ensures var calls := CallsAfter(c, info, w, m);
            n < |calls| && calls[n].Granted? ==> Is(w, n, calls[n])
  {
  }

  lemma StaysAbsent(c: Config, info: NodeInfo, w: World, m: Move)
    requires CanMove(c, info, w, m) && !Accepts(c, info, w, m) && info.nodeId !in w.reg.nodes
    ensures info.nodeId !in Move1(c, info, w, m).reg.nodes
  {
    if ToAction(info, m).Some? {
      StepIds(c, w.reg, ToAction(info, m).value);
    }
  }

  lemma MoveGrowsLog(c: Config, info: NodeInfo, w: World, m: Move)
    ensures w.reg.log <= Move1(c, info, w, m).reg.log
  {
    if ToAction(info, m).Some? {
      StepLogs(c, w.reg, ToAction(info, m).value);
    }
  }

  // --- What a recovery proves ------------------------------------------------------------------

  /** Call `n` was accepted during `ms` under `sessionId`, and the log shows it from position `since` on. */
  ghost predicate AcceptedIn(info: NodeInfo, ms: seq<Move>, n: nat, log: seq<Event>, since: nat, sessionId: string)
    requires since <= |log|
  {
    && Registered(info, sessionId) in log[since..]
    && exists random: nat :: InsertOwn(n, random) in ms && sessionId == SessionId(info.nodeId, random)
  }

  lemma AcceptedEarlier(info: NodeInfo, ms: seq<Move>, n: nat, log: seq<Event>, since: nat, since': nat, sessionId: string)
    requires ms != [] && since <= since' <= |log| && AcceptedIn(info, ms[1..], n, log, since', sessionId)
    ensures AcceptedIn(info, ms, n, log, since, sessionId)
  {
    var random: nat :| InsertOwn(n, random) in ms[1..] && sessionId == SessionId(info.nodeId, random);
    assert InsertOwn(n, random) in ms;
    var k :| 0 <= k < |log[since'..]| && log[since'..][k] == Registered(info, sessionId);
    assert log[since..][since' - since + k] == Registered(info, sessionId);
  }

  lemma AcceptedNow(c: Config, info: NodeInfo, w: World, ms: seq<Move>, log: seq<Event>)
    requires WorldInv(info, w) && ms != [] && Accepts(c, info, w, ms[0])
    requires Move1(c, info, w, ms[0]).reg.log <= log
    ensures |w.reg.log| < |log|
    ensures AcceptedIn(info, ms, ms[0].call, log, |w.reg.log|, SessionId(info.nodeId, ms[0].random))
  {
    AcceptedReplaces(c, info, w, ms[0]);
    assert log[|w.reg.log|..][0] == Registered(info, SessionId(info.nodeId, ms[0].random));
    assert InsertOwn(ms[0].call, ms[0].random) in ms;
  }

  /** What the registry has granted to a call at the end of a run, it had granted before, or it accepted that very call in
      the run. */
  lemma {:induction false} GrantsAreInsertions(c: Config, info: NodeInfo, w: World, ms: seq<Move>, n: nat)
    requires WorldInv(info, w) && Possible(c, info, w, ms)
    ensures var e := Moves(c, info, w, ms);
            && |w.reg.log| <= |e.reg.log|
            && (n < |e.calls| && e.calls[n].Granted? ==>
                  || Is(w, n, e.calls[n])
                  || AcceptedIn(info, ms, n, e.reg.log, |w.reg.log|, e.calls[n].sessionId))
    decreases |ms|
  {
    if ms != [] {
      var m, w', e := ms[0], Move1(c, info, w, ms[0]), Moves(c, info, w, ms);
      MoveKeepsWorldInv(c, info, w, m);
      MoveGrowsLog(c, info, w, m);
      MovesGrowLog(c, info, w', ms[1..]);
      GrantsAreInsertions(c, info, w', ms[1..], n);
      if n < |e.calls| && e.calls[n].Granted? {
        if Is(w', n, e.calls[n]) {
          if Accepts(c, info, w, m) {
            AcceptedReplaces(c, info, w, m);
            AcceptedNow(c, info, w, ms, e.reg.log);
          } else {
            NothingGranted(c, info, w, m, n);
          }
        } else {
          AcceptedEarlier(info, ms, n, e.reg.log, |w.reg.log|, |w'.reg.log|, e.calls[n].sessionId);
        }
      }
    }
  }

  predicate NoRegisterSent(ms: seq<Move>) {
    forall m | m in ms :: m != SendRegister
  }

  /** Until the next Register is sent, the client waits for the same one. */
  lemma {:induction false} SameRegister(c: Config, info: NodeInfo, w: World, ms: seq<Move>)
    requires Possible(c, info, w, ms) && NoRegisterSent(ms)
    ensures var e := Moves(c, info, w, ms);
            e.at == AwaitRegister ==> w.at == AwaitRegister && |e.calls| == |w.calls| && e.client == w.client
    decreases |ms|
  {
    if ms != [] {
      assert ms[0] in ms;
      forall m | m in ms[1..] ensures m != SendRegister {
        assert m in ms;
      }
      SameRegister(c, info, Move1(c, info, w, ms[0]), ms[1..]);
    }
  }

  /** A recovery is genuine: the session that the client receives was granted to the Register it waits for, which the
      registry accepted and logged after the client had sent it. */
  lemma RecoveryIsGenuine(c: Config, info: NodeInfo, w: World, ms: seq<Move>, sessionId: string)
    requires WorldInv(info, w) && CanMove(c, info, w, SendRegister)
    requires Possible(c, info, Move1(c, info, w, SendRegister), ms) && NoRegisterSent(ms)
    requires CanMove(c, info, Moves(c, info, Move1(c, info, w, SendRegister), ms), GotSession(sessionId))
    ensures var e := Moves(c, info, Move1(c, info, w, SendRegister), ms);
            && |w.reg.log| <= |e.reg.log|
            && AcceptedIn(info, ms, |w.calls|, e.reg.log, |w.reg.log|, sessionId)
            && e.client.needsReregister == (w.at != Start)
            && Move1(c, info, e, GotSession(sessionId)).client == HC.Client(0, false, sessionId)
  {
    var w1 := Move1(c, info, w, SendRegister);
    MoveKeepsWorldInv(c, info, w, SendRegister);
    SameRegister(c, info, w1, ms);
    GrantsAreInsertions(c, info, w1, ms, |w.calls|);
  }

  // --- The stale entry goes --------------------------------------------------------------------

  predicate Recovers(m: Move) {
    m.GotSession?
  }

  /** Re-registration is due and no heartbeat of the client is on its way. */
  predicate DueAndSilent(w: World) {
    w.client.needsReregister && forall n | 0 <= n < |w.calls| :: w.calls[n] != HeartbeatSent
  }

  lemma StaysDueAndSilent(c: Config, info: NodeInfo, w: World, m: Move)
    requires WorldInv(info, w) && CanMove(c, info, w, m) && DueAndSilent(w) && !Recovers(m)
    ensures DueAndSilent(Move1(c, info, w, m)) && !m.HeartbeatOwn?
  {
    assert ClientAfter(w.client, m).needsReregister && m != SendHeartbeat;
  }

  /** While re-registration is due and none has come through, the client sends no heartbeat: none reaches the registry,
      given that none was on its way. */
  lemma {:induction false} DueClientIsSilent(c: Config, info: NodeInfo, w: World, ms: seq<Move>)
    requires WorldInv(info, w) && Possible(c, info, w, ms)
    requires DueAndSilent(w)
    requires forall m | m in ms :: !Recovers(m)
    ensures NoHeartbeat(Project(info, ms), info.nodeId)
    ensures DueAndSilent(Moves(c, info, w, ms))
    decreases |ms|
  {
    if ms != [] {
      var m, w' := ms[0], Move1(c, info, w, ms[0]);
      assert m in ms && !Recovers(m);
      MoveKeepsWorldInv(c, info, w, m);
      StaysDueAndSilent(c, info, w, m);
      forall n | n in ms[1..] ensures !Recovers(n) {
        assert n in ms;
      }
      DueClientIsSilent(c, info, w', ms[1..]);
    }
  }

  /** No registration of the node from before log position `since` is in force: it is absent, or held under a later one. */
  ghost predicate StaleGone(info: NodeInfo, log: seq<Event>, since: nat) {
    LeaseStart(log, info.nodeId) >= 0 ==> LeaseStart(log, info.nodeId) >= since
  }

  lemma {:induction false} StaleStaysGone(c: Config, info: NodeInfo, s: State, acts: seq<Action>, since: nat)
    requires StaleGone(info, s.log, since) && since <= |s.log|
    ensures StaleGone(info, Exec(c, s, acts).log, since)
    decreases |acts|
  {
    if acts != [] {
      StepLease(c, s, acts[0], info.nodeId);
      StepLogs(c, s, acts[0]);
      StaleStaysGone(c, info, Step(c, s, acts[0]), acts[1..], since);
    }
  }

  lemma StillUnheard(c: Config, info: NodeInfo, w: World, m: Move, sid: string)
    requires CanMove(c, info, w, m) && !Accepts(c, info, w, m) && Awaits(Move1(c, info, w, m), Granted(sid))
    ensures Awaits(w, Granted(sid))
  {
    NothingGranted(c, info, w, m, |CallsAfter(c, info, w, m)| - 1);
  }

  /** The first thing to end a due client's silence: either the answer, already given, to the Register it waits for, or a
      new registration, for which the stale one must have gone. */
  lemma {:induction false} SilentOrReplaced(c: Config, info: NodeInfo, w: World, ms: seq<Move>, since: nat)
    requires WorldInv(info, w) && Possible(c, info, w, ms) && DueAndSilent(w) && since <= |w.reg.log|
    ensures || NoHeartbeat(Project(info, ms), info.nodeId)
            || StaleGone(info, Moves(c, info, w, ms).reg.log, since)
            || exists sid :: Awaits(w, Granted(sid)) && GotSession(sid) in ms
    decreases |ms|
  {
    if ms != [] {
      var m, w' := ms[0], Move1(c, info, w, ms[0]);
      assert m in ms;
      MoveKeepsWorldInv(c, info, w, m);
      MoveGrowsLog(c, info, w, m);
      if Accepts(c, info, w, m) {
        AcceptedReplaces(c, info, w, m);
        ProjectionIsRun(c, info, w', ms[1..]);
        StaleStaysGone(c, info, w'.reg, Project(info, ms[1..]), since);
      } else if m.GotSession? {
        assert Awaits(w, Granted(m.sessionId));
      } else {
        StaysDueAndSilent(c, info, w, m);
        SilentOrReplaced(c, info, w', ms[1..], since);
        if exists sid :: Awaits(w', Granted(sid)) && GotSession(sid) in ms[1..] {
          var sid :| Awaits(w', Granted(sid)) && GotSession(sid) in ms[1..];
          StillUnheard(c, info, w, m, sid);
          assert GotSession(sid) in ms;
        }
      }
    }
  }

  /** Self-healing, first half. Let re-registration be due, with no heartbeat of the client still on its way. Over any
      continuation with `maxMissed` complete ticks the stale registration goes, whatever else happens - unless the registry
      had already granted the Register that the client was waiting for, and the client recovers with that answer. */
  lemma StaleEntryGoes(c: Config, info: NodeInfo, w: World, ms: seq<Move>)
    requires c.Representable() && c.maxMissed >= 1 && Good(c, info, w)
    requires Possible(c, info, w, ms) && DueAndSilent(w)
    requires CompleteTicks(w.reg.phase, Project(info, ms)) >= c.maxMissed
    ensures || StaleGone(info, Moves(c, info, w, ms).reg.log, |w.reg.log|)
            || exists sid :: Awaits(w, Granted(sid)) && GotSession(sid) in ms
  {
    var e := Moves(c, info, w, ms);
    SilentOrReplaced(c, info, w, ms, |w.reg.log|);
    MovesKeepGood(c, info, w, ms);
    assert RepresentsAt(e.reg.nodes, e.reg.log, info.nodeId);
    if NoHeartbeat(Project(info, ms), info.nodeId) {
      ProjectionIsRun(c, info, w, ms);
      SilentLeaseEnds(c, w.reg, Project(info, ms), info.nodeId);
    }
  }

  // --- While the node is absent ----------------------------------------------------------------

  /** Nobody but the client registers its node: once absent, it stays absent until one of its own calls is accepted. */
  lemma {:induction false} AbsentUntilOwnRegister(c: Config, info: NodeInfo, w: World, ms: seq<Move>)
    requires WorldInv(info, w) && Possible(c, info, w, ms) && info.nodeId !in w.reg.nodes
    ensures var e := Moves(c, info, w, ms);
            && |w.reg.log| <= |e.reg.log|
            && (info.nodeId !in e.reg.nodes
                || exists n, sid :: AcceptedIn(info, ms, n, e.reg.log, |w.reg.log|, sid))
    decreases |ms|
  {
    if ms != [] {
      var m, w', e := ms[0], Move1(c, info, w, ms[0]), Moves(c, info, w, ms);
      MoveKeepsWorldInv(c, info, w, m);
      MoveGrowsLog(c, info, w, m);
      MovesGrowLog(c, info, w', ms[1..]);
      if Accepts(c, info, w, m) {
        AcceptedNow(c, info, w, ms, e.reg.log);
      } else {
        StaysAbsent(c, info, w, m);
        AbsentUntilOwnRegister(c, info, w', ms[1..]);
        if info.nodeId in e.reg.nodes {
          var n, sid :| AcceptedIn(info, ms[1..], n, e.reg.log, |w'.reg.log|, sid);
          AcceptedEarlier(info, ms, n, e.reg.log, |w.reg.log|, |w'.reg.log|, sid);
        }
      }
    }
  }

  /** The registry accepts no registration of the node from log position `since` on. */
  ghost predicate NoneAccepted(info: NodeInfo, log: seq<Event>, since: nat) {
    forall k | since <= k < |log| :: !Opens(log[k], info.nodeId)
  }

  /** The registry has not said yes to the call that the client waits for. */
  ghost predicate NoYesPending(w: World) {
    !Awaits(w, BeatOk) && forall sid :: !Awaits(w, Granted(sid))
  }

  function AnswersHeard(ms: seq<Move>): nat {
    if ms == [] then 0 else (if ms[0].HeartbeatAnswered? then 1 else 0) + AnswersHeard(ms[1..])
  }

  lemma NoYesComes(c: Config, info: NodeInfo, w: World, m: Move)
    requires CanMove(c, info, w, m) && !Accepts(c, info, w, m) && info.nodeId !in w.reg.nodes && NoYesPending(w)
    ensures NoYesPending(Move1(c, info, w, m))
  {
    var w' := Move1(c, info, w, m);
    if w'.calls != [] {
      NothingGranted(c, info, w, m, |w'.calls| - 1);
    }
  }

  lemma MoveWhileAbsent(c: Config, info: NodeInfo, w: World, m: Move)
    requires CanMove(c, info, w, m) && !Accepts(c, info, w, m) && info.nodeId !in w.reg.nodes && NoYesPending(w)
    ensures var w' := Move1(c, info, w, m);
            && info.nodeId !in w'.reg.nodes && NoYesPending(w')
            && m != HeartbeatAnswered(true) && !Recovers(m)
            && w'.client.failures == w.client.failures + if m.HeartbeatAnswered? then 1 else 0
  {
    StaysAbsent(c, info, w, m);
    NoYesComes(c, info, w, m);
    assert m.GotSession? ==> !CanMove(c, info, w, m);
    assert ClientAfter(w.client, m).failures == w.client.failures + if m.HeartbeatAnswered? then 1 else 0;
  }

  /** A lost node is noticed. While the registry neither holds the node nor accepts it, every answer that the client hears
      to a heartbeat is a failure, under every interleaving; so it is due for re-registration exactly when it has heard
      the answers missing to five. */
  lemma {:induction false} LostNodeIsNoticed(c: Config, info: NodeInfo, w: World, ms: seq<Move>)
    requires WorldInv(info, w) && Possible(c, info, w, ms)
    requires info.nodeId !in w.reg.nodes && NoYesPending(w)
    requires NoneAccepted(info, Moves(c, info, w, ms).reg.log, |w.reg.log|)
    ensures var e := Moves(c, info, w, ms);
            && info.nodeId !in e.reg.nodes && NoYesPending(e)
            && (forall m | m in ms :: m != HeartbeatAnswered(true) && !Recovers(m))
            && e.client.failures == w.client.failures + AnswersHeard(ms) <= 5
            && (e.client.needsReregister <==> w.client.failures + AnswersHeard(ms) == 5)
    decreases |ms|
  {
    if ms != [] {
      var m, w', e := ms[0], Move1(c, info, w, ms[0]), Moves(c, info, w, ms);
      MoveGrowsLog(c, info, w, m);
      MovesGrowLog(c, info, w', ms[1..]);
      MoveKeepsWorldInv(c, info, w, m);
      if Accepts(c, info, w, m) {
        AcceptedReplaces(c, info, w, m);
        assert false;
      }
      MoveWhileAbsent(c, info, w, m);
      LostNodeIsNoticed(c, info, w', ms[1..]);
      forall n | n in ms ensures n != HeartbeatAnswered(true) && !Recovers(n) {
        assert n == m || n in ms[1..];
      }
    }
  }

  // --- Agreement -------------------------------------------------------------------------------

  /** Client and registry agree: the registry holds the node under the client's session. */
  predicate Agreed(info: NodeInfo, w: World) {
    && info.nodeId in w.reg.nodes
    && w.reg.nodes[info.nodeId].info == info
    && w.reg.nodes[info.nodeId].sessionId == w.client.sessionId
  }

  /** A client that does not wait for a Register keeps its session until it sends one. */
  lemma {:induction false} SessionStays(c: Config, info: NodeInfo, w: World, ms: seq<Move>)
    requires Possible(c, info, w, ms) && NoRegisterSent(ms) && w.at != AwaitRegister
    ensures Moves(c, info, w, ms).client.sessionId == w.client.sessionId
    decreases |ms|
  {
    if ms != [] {
      assert ms[0] in ms;
      forall m | m in ms[1..] ensures m != SendRegister {
        assert m in ms;
      }
      SessionStays(c, info, Move1(c, info, w, ms[0]), ms[1..]);
    }
  }

  /** The client never deregisters, and nobody does it in its place. */
  lemma {:induction false} NobodyDeregisters(c: Config, info: NodeInfo, w: World, ms: seq<Move>)
    requires Possible(c, info, w, ms)
    ensures NoDeregister(Project(info, ms), info.nodeId)
    decreases |ms|
  {
    if ms != [] {
      NobodyDeregisters(c, info, Move1(c, info, w, ms[0]), ms[1..]);
    }
  }

  /** The same lease, the same entry. */
  lemma LeaseKeepsSession(c: Config, info: NodeInfo, w: World, ms: seq<Move>)
    requires c.Representable() && c.maxMissed >= 1 && Good(c, info, w) && Possible(c, info, w, ms)
    requires var k := LeaseStart(w.reg.log, info.nodeId);
             k >= 0 && LeaseStart(Moves(c, info, w, ms).reg.log, info.nodeId) == k
    ensures var e := Moves(c, info, w, ms);
            && info.nodeId in w.reg.nodes && info.nodeId in e.reg.nodes
            && e.reg.nodes[info.nodeId].info == w.reg.nodes[info.nodeId].info
            && e.reg.nodes[info.nodeId].sessionId == w.reg.nodes[info.nodeId].sessionId
  {
    var e := Moves(c, info, w, ms);
    MovesKeepGood(c, info, w, ms);
    MovesGrowLog(c, info, w, ms);
    assert RepresentsAt(w.reg.nodes, w.reg.log, info.nodeId);
    assert RepresentsAt(e.reg.nodes, e.reg.log, info.nodeId);
  }

  /** While fewer than `maxMissed` ticks pass since the node last registered or beat, its lease lasts, whatever happens. */
  lemma YoungNodeStays(c: Config, info: NodeInfo, w: World, ms: seq<Move>)
    requires c.Representable() && c.maxMissed >= 1 && Good(c, info, w) && Possible(c, info, w, ms)
    requires LeaseStart(w.reg.log, info.nodeId) >= 0
    requires Silence(w.reg.log, info.nodeId) + CompleteTicks(w.reg.phase, Project(info, ms)) < c.maxMissed
    ensures LeaseStart(Moves(c, info, w, ms).reg.log, info.nodeId) == LeaseStart(w.reg.log, info.nodeId)
  {
    ProjectionIsRun(c, info, w, ms);
    NobodyDeregisters(c, info, w, ms);
    YoungLeaseLasts(c, w.reg, Project(info, ms), info.nodeId);
  }

  lemma {:induction false} NeverServed(c: Config, info: NodeInfo, w: World, n: nat, ms: seq<Move>)
    requires Is(w, n, Lost) && Possible(c, info, w, ms)
    ensures Is(Moves(c, info, w, ms), n, Lost)
    decreases |ms|
  {
    if ms != [] {
      NeverServed(c, info, Move1(c, info, w, ms[0]), n, ms[1..]);
    }
  }

  /** A request that is lost on its way is never served: nothing comes of the call, whatever happens. */
  lemma LostStaysLost(c: Config, info: NodeInfo, w: World, n: nat, ms: seq<Move>)
    requires CanMove(c, info, w, Lose(n)) && Possible(c, info, Move1(c, info, w, Lose(n)), ms)
    ensures Is(Moves(c, info, Move1(c, info, w, Lose(n)), ms), n, Lost)
  {
    NeverServed(c, info, Move1(c, info, w, Lose(n)), n, ms);
  }

  /** A held node's heartbeat, once served, is answered with a yes, an absent one's never; and the yes comes with a counter
      of zero and an end of the silence. */
  lemma ServedHeartbeat(c: Config, info: NodeInfo, w: World, n: nat)
    requires Good(c, info, w) && CanMove(c, info, w, HeartbeatOwn(n))
    ensures var w' := Move1(c, info, w, HeartbeatOwn(n));
            && |w'.calls| == |w.calls|
            && w'.calls[n] == (if info.nodeId in w.reg.nodes then BeatOk else Refused)
            && (forall k | 0 <= k < |w.calls| && k != n :: w'.calls[k] == w.calls[k])
            && w'.client == w.client && w'.at == w.at
            && (info.nodeId in w.reg.nodes ==>
                  && info.nodeId in w'.reg.nodes && w'.reg.nodes[info.nodeId].missedHeartbeats == 0
                  && Silence(w'.reg.log, info.nodeId) == 0)
  {
    if info.nodeId in w.reg.nodes {
      BeatIsHeard(c, w.reg, 15.0, 45.0, info.nodeId);
    }
  }

  /** Agreement lasts as long as the lease does, which is exactly while the client's heartbeats are served in time. */
  lemma AgreementLasts(c: Config, info: NodeInfo, w: World, ms: seq<Move>)
    requires c.Representable() && c.maxMissed >= 1 && Good(c, info, w) && Possible(c, info, w, ms)
    requires Agreed(info, w) && w.at != AwaitRegister && NoRegisterSent(ms)
    ensures LeaseStart(Moves(c, info, w, ms).reg.log, info.nodeId) == LeaseStart(w.reg.log, info.nodeId) ==>
              Agreed(info, Moves(c, info, w, ms))
    ensures Silence(w.reg.log, info.nodeId) + CompleteTicks(w.reg.phase, Project(info, ms)) < c.maxMissed ==>
              Agreed(info, Moves(c, info, w, ms))
    ensures LeaseStart(Moves(c, info, w, ms).reg.log, info.nodeId) == LeaseStart(w.reg.log, info.nodeId)
       <==> BeatsInTime(Project(info, ms), info.nodeId, c.maxMissed, Silence(w.reg.log, info.nodeId))
  {
    assert RepresentsAt(w.reg.nodes, w.reg.log, info.nodeId);
    ProjectionIsRun(c, info, w, ms);
    NobodyDeregisters(c, info, w, ms);
    LeaseLastsIffBeatsInTime(c, w.reg, Project(info, ms), info.nodeId);
    SessionStays(c, info, w, ms);
    if Silence(w.reg.log, info.nodeId) + CompleteTicks(w.reg.phase, Project(info, ms)) < c.maxMissed {
      YoungNodeStays(c, info, w, ms);
    }
    if LeaseStart(Moves(c, info, w, ms).reg.log, info.nodeId) == LeaseStart(w.reg.log, info.nodeId) {
      LeaseKeepsSession(c, info, w, ms);
    }
  }

  // --- Recovery --------------------------------------------------------------------------------

  /** The client, in world `e`, hears of session `heard` after its Register was accepted under `sid` and `ticks` complete
      ticks went by: it has that very session and starts afresh, and unless the threshold was reached, the registry holds
      the node under it. */
  predicate Settled(c: Config, info: NodeInfo, e: World, heard: string, sid: string, ticks: int) {
    var e' := Move1(c, info, e, GotSession(heard));
    && heard == sid
    && e'.client == HC.Client(0, false, sid) && e'.at == Head
    && (ticks < c.maxMissed ==> Agreed(info, e'))
  }

  /** An answer, once given, stays. */
  lemma {:induction false} AnswerStays(c: Config, info: NodeInfo, w: World, ms: seq<Move>, n: nat)
    requires Possible(c, info, w, ms) && n < |w.calls| && w.calls[n].Granted?
    ensures Is(Moves(c, info, w, ms), n, w.calls[n])
    decreases |ms|
  {
    if ms != [] {
      AnswerStays(c, info, Move1(c, info, w, ms[0]), ms[1..], n);
    }
  }

  /** What the client hears of its latest Register is what the registry granted. */
  lemma HearsOwnGrant(c: Config, info: NodeInfo, w: World, ms: seq<Move>, heard: string, sid: string)
    requires w.at == AwaitRegister && Awaits(w, Granted(sid)) && Possible(c, info, w, ms) && NoRegisterSent(ms)
    requires CanMove(c, info, Moves(c, info, w, ms), GotSession(heard))
    ensures heard == sid
  {
    AnswerStays(c, info, w, ms, |w.calls| - 1);
    SameRegister(c, info, w, ms);
  }

  /** A registration just made, and what becomes of it. */
  lemma NewLease(c: Config, info: NodeInfo, w: World, ms: seq<Move>)
    requires c.Representable() && c.maxMissed >= 1 && Good(c, info, w) && Possible(c, info, w, ms)
    requires LeaseStart(w.reg.log, info.nodeId) >= 0 && Silence(w.reg.log, info.nodeId) == 0
    ensures var e, ticks := Moves(c, info, w, ms), CompleteTicks(w.reg.phase, Project(info, ms));
            var lasts := LeaseStart(e.reg.log, info.nodeId) == LeaseStart(w.reg.log, info.nodeId);
            && (ticks < c.maxMissed ==> lasts)
            && (NoHeartbeat(Project(info, ms), info.nodeId) ==> (lasts <==> ticks < c.maxMissed))
  {
    if CompleteTicks(w.reg.phase, Project(info, ms)) < c.maxMissed {
      YoungNodeStays(c, info, w, ms);
    }
    if NoHeartbeat(Project(info, ms), info.nodeId) {
      ProjectionIsRun(c, info, w, ms);
      NobodyDeregisters(c, info, w, ms);
      SilentLeaseLastsIff(c, w.reg, Project(info, ms), info.nodeId);
    }
  }

  lemma MoveKeepsGood(c: Config, info: NodeInfo, w: World, m: Move)
    requires c.Representable() && c.maxMissed >= 1 && Good(c, info, w) && CanMove(c, info, w, m)
    ensures Good(c, info, Move1(c, info, w, m))
  {
    MoveKeepsWorldInv(c, info, w, m);
    if ToAction(info, m).Some? {
      MoveIsEnabled(c, info, w, m);
      StepKeepsDetector(c, w.reg, ToAction(info, m).value);
    }
  }

  /** Self-healing, second half. The registry accepts the Register that the client waits for. Whatever happens until the
      client hears of it, it then has that session, and client and registry agree if fewer than `maxMissed` complete ticks
      have passed. Without a heartbeat in between, the registry still holds that registration if and only if so. */
  lemma NextRegisterHeals(c: Config, info: NodeInfo, w: World, random: nat, ms: seq<Move>, heard: string)
    requires c.Representable() && c.maxMissed >= 1 && Good(c, info, w)
    requires w.at == AwaitRegister && Awaits(w, Admitted) && CanRegister(w.reg.nodes, c.maxNodes, info.nodeId)
    requires var w' := Move1(c, info, w, InsertOwn(|w.calls| - 1, random));
             && Possible(c, info, w', ms) && NoRegisterSent(ms)
             && CanMove(c, info, Moves(c, info, w', ms), GotSession(heard))
    ensures var w' := Move1(c, info, w, InsertOwn(|w.calls| - 1, random));
            var e, ticks := Moves(c, info, w', ms), CompleteTicks(w'.reg.phase, Project(info, ms));
            && Settled(c, info, e, heard, SessionId(info.nodeId, random), ticks)
            && (NoHeartbeat(Project(info, ms), info.nodeId) ==>
                  (LeaseStart(e.reg.log, info.nodeId) == |w.reg.log| <==> ticks < c.maxMissed))
  {
    var m, sid := InsertOwn(|w.calls| - 1, random), SessionId(info.nodeId, random);
    var w' := Move1(c, info, w, m);
    AcceptedReplaces(c, info, w, m);
    MoveKeepsGood(c, info, w, m);
    HearsOwnGrant(c, info, w', ms, heard, sid);
    NewLease(c, info, w', ms);
    if CompleteTicks(w'.reg.phase, Project(info, ms)) < c.maxMissed {
      LeaseKeepsSession(c, info, w', ms);
    }
  }

  /** From `w` to `w'` Register `n` was decided: accepted under `sid` if there was room, refused without effect if not. */
  ghost predicate GrantedIfRoom(c: Config, info: NodeInfo, w: World, w': World, n: nat, sid: string) {
    if |w.reg.nodes| < c.maxNodes then
      && w'.reg.nodes == AfterRegister(w.reg.nodes, info, sid)
      && w'.calls == Mark(w.calls, n, Granted(sid))
    else w'.reg.nodes == w.reg.nodes && w'.calls == Mark(w.calls, n, Refused)
  }

  /** The insertion of Register `n` heals: it is granted if and only if there is room; and if the client waits for it then,
      client and registry settle on its session whenever the client hears of it. */
  ghost predicate InsertionHeals(c: Config, info: NodeInfo, w: World, n: nat, random: nat) {
    var w', sid := Move1(c, info, w, InsertOwn(n, random)), SessionId(info.nodeId, random);
    && GrantedIfRoom(c, info, w, w', n, sid)
    && (|w.reg.nodes| < c.maxNodes && w.at == AwaitRegister && n == |w.calls| - 1 ==>
          forall ms, heard |
            Possible(c, info, w', ms) && NoRegisterSent(ms) && CanMove(c, info, Moves(c, info, w', ms), GotSession(heard)) ::
            Settled(c, info, Moves(c, info, w', ms), heard, sid, CompleteTicks(w'.reg.phase, Project(info, ms))))
  }

  lemma AbsentHeals(c: Config, info: NodeInfo, w: World, n: nat, random: nat)
    requires c.Representable() && c.maxMissed >= 1 && Good(c, info, w)
    requires info.nodeId !in w.reg.nodes && Is(w, n, Admitted)
    ensures InsertionHeals(c, info, w, n, random)
  {
    var w' := Move1(c, info, w, InsertOwn(n, random));
    if |w.reg.nodes| < c.maxNodes {
      AcceptedReplaces(c, info, w, InsertOwn(n, random));
      if w.at == AwaitRegister && n == |w.calls| - 1 {
        forall ms, heard |
          Possible(c, info, w', ms) && NoRegisterSent(ms) && CanMove(c, info, Moves(c, info, w', ms), GotSession(heard))
          ensures Settled(c, info, Moves(c, info, w', ms), heard, SessionId(info.nodeId, random),
                          CompleteTicks(w'.reg.phase, Project(info, ms)))
        {
          NextRegisterHeals(c, info, w, random, ms, heard);
        }
      }
    }
  }

  /** Self-healing over every run. After any `past`, let the client be due for re-registration (in world `w`), with no
      heartbeat on its way and no granted Register unheard of. Let anything happen, for `maxMissed` complete ticks or more,
      without the registry accepting the node anew. The next insertion of a Register then heals. */
  lemma FirstDeliveredRegisterHeals(c: Config, info: NodeInfo, past: seq<Move>, ms: seq<Move>, n: nat, random: nat)
    requires c.Representable() && c.maxMissed >= 1 && Possible(c, info, INITIAL_WORLD, past)
    requires var w := Moves(c, info, INITIAL_WORLD, past);
             && DueAndSilent(w) && NoYesPending(w) && Possible(c, info, w, ms)
             && CompleteTicks(w.reg.phase, Project(info, ms)) >= c.maxMissed
             && NoneAccepted(info, Moves(c, info, w, ms).reg.log, |w.reg.log|)
             && CanMove(c, info, Moves(c, info, w, ms), InsertOwn(n, random))
    ensures InsertionHeals(c, info, Moves(c, info, Moves(c, info, INITIAL_WORLD, past), ms), n, random)
  {
    var w := Moves(c, info, INITIAL_WORLD, past);
    var e := Moves(c, info, w, ms);
    WorldReachable(c, info, past);
    StaleEntryGoes(c, info, w, ms);
    MovesKeepGood(c, info, w, ms);
    assert RepresentsAt(e.reg.nodes, e.reg.log, info.nodeId);
    AbsentHeals(c, info, e, n, random);
  }

  /** Recovery from the loss of the node by the registry, over every run. After any `past` that leaves the node absent (in
      world `w`) with no yes of the registry unheard of, the client is due for re-registration exactly when it has heard
      the answers missing to five failures, however calls, losses and other threads interleave; it then sends Registers
      only, and the next insertion of one heals. */
  lemma LostNodeHeals(c: Config, info: NodeInfo, past: seq<Move>, ms: seq<Move>, n: nat, random: nat)
    requires c.Representable() && c.maxMissed >= 1 && Possible(c, info, INITIAL_WORLD, past)
    requires var w := Moves(c, info, INITIAL_WORLD, past);
             && info.nodeId !in w.reg.nodes && NoYesPending(w) && Possible(c, info, w, ms)
             && NoneAccepted(info, Moves(c, info, w, ms).reg.log, |w.reg.log|)
    ensures var w := Moves(c, info, INITIAL_WORLD, past);
            var e := Moves(c, info, w, ms);
            && (e.client.needsReregister <==> AnswersHeard(ms) == 5 - w.client.failures)
            && (e.client.needsReregister && e.at == Head ==>
                  && CanMove(c, info, e, SendRegister) && !CanMove(c, info, e, SendHeartbeat))
            && (CanMove(c, info, e, InsertOwn(n, random)) ==> InsertionHeals(c, info, e, n, random))
  {
    var w := Moves(c, info, INITIAL_WORLD, past);
    var e := Moves(c, info, w, ms);
    WorldReachable(c, info, past);
    LostNodeIsNoticed(c, info, w, ms);
    MovesKeepGood(c, info, w, ms);
    if CanMove(c, info, e, InsertOwn(n, random)) {
      AbsentHeals(c, info, e, n, random);
    }
  }

  lemma OneMore(c: Config, info: NodeInfo, w: World, m: Move, rest: seq<Move>)
    ensures Possible(c, info, w, [m] + rest) <==> CanMove(c, info, w, m) && Possible(c, info, Move1(c, info, w, m), rest)
    ensures Moves(c, info, w, [m] + rest) == Moves(c, info, Move1(c, info, w, m), rest)
  {
    assert ([m] + rest)[1..] == rest;
  }

  lemma OneMove(c: Config, info: NodeInfo, w: World, m: Move)
    ensures Possible(c, info, w, [m]) <==> CanMove(c, info, w, m)
    ensures Moves(c, info, w, [m]) == Move1(c, info, w, m)
  {
    assert [m] + [] == [m];
    OneMore(c, info, w, m, []);
  }

  lemma RegisterScript(c: Config, info: NodeInfo, w: World, random: nat) returns (ms: seq<Move>)
    requires w.at == Head && w.client.needsReregister
    requires info.nodeId != "" && w.reg.running && CanRegister(w.reg.nodes, c.maxNodes, info.nodeId)
    ensures Possible(c, info, w, ms)
    ensures var e := Moves(c, info, w, ms);
            && e.at == Head && e.client == HC.Client(0, false, SessionId(info.nodeId, random))
            && e.reg.nodes == AfterRegister(w.reg.nodes, info, e.client.sessionId)
  {
    var n := |w.calls|;
    var m0, m1, m2, m3 := SendRegister, AdmitOwn(n), InsertOwn(n, random), GotSession(SessionId(info.nodeId, random));
    var w1 := Move1(c, info, w, m0);
    var w2 := Move1(c, info, w1, m1);
    var w3 := Move1(c, info, w2, m2);
    ms := [m0] + ([m1] + ([m2] + [m3]));
    OneMore(c, info, w, m0, [m1] + ([m2] + [m3]));
    OneMore(c, info, w1, m1, [m2] + [m3]);
    OneMore(c, info, w2, m2, [m3]);
    OneMove(c, info, w3, m3);
    assert info in w2.reg.inFlight && w2.reg.nodes == w.reg.nodes;
  }

  lemma RefusalScript(c: Config, info: NodeInfo, w: World) returns (ms: seq<Move>, w': World)
    requires w.at == Head && !w.client.needsReregister && info.nodeId !in w.reg.nodes
    ensures w'.at == Head && w'.client == HC.OnHeartbeat(w.client, false) && w'.reg == w.reg
    ensures Possible(c, info, w, ms) && Moves(c, info, w, ms) == w'
  {
    var n := |w.calls|;
    var m0, m1, m2 := SendHeartbeat, HeartbeatOwn(n), HeartbeatAnswered(false);
    var w1 := Move1(c, info, w, m0);
    var w2 := Move1(c, info, w1, m1);
    w' := Move1(c, info, w2, m2);
    ms := [m0] + ([m1] + [m2]);
    OneMore(c, info, w, m0, [m1] + [m2]);
    OneMore(c, info, w1, m1, [m2]);
    OneMove(c, info, w2, m2);
  }

  lemma {:induction false} MovesCompose(c: Config, info: NodeInfo, w: World, first: seq<Move>, second: seq<Move>)
    ensures Possible(c, info, w, first + second) <==>
            Possible(c, info, w, first) && Possible(c, info, Moves(c, info, w, first), second)
    ensures Moves(c, info, w, first + second) == Moves(c, info, Moves(c, info, w, first), second)
    decreases |first|
  {
    if first == [] {
      assert first + second == second;
    } else {
      assert (first + second)[0] == first[0] && (first + second)[1..] == first[1..] + second;
      MovesCompose(c, info, Move1(c, info, w, first[0]), first[1..], second);
    }
  }

  /** Recovery does happen: wherever the loop finds the node absent, a running registry with room, there is a run in which
      heartbeats are refused until five have failed, and then one Register is granted. */
  lemma {:induction false} RecoveryIsPossible(c: Config, info: NodeInfo, w: World, random: nat) returns (ms: seq<Move>)
    requires AtHead(w.client) && w.at == Head
    requires info.nodeId != "" && w.reg.running && CanRegister(w.reg.nodes, c.maxNodes, info.nodeId)
    ensures Possible(c, info, w, ms)
    ensures var e := Moves(c, info, w, ms);
            && e.at == Head && e.client == HC.Client(0, false, SessionId(info.nodeId, random))
            && e.reg.nodes == AfterRegister(w.reg.nodes, info, e.client.sessionId) && Agreed(info, e)
    decreases 5 - w.client.failures
  {
    if w.client.needsReregister {
      ms := RegisterScript(c, info, w, random);
    } else {
      var first, w' := RefusalScript(c, info, w);
      var rest := RecoveryIsPossible(c, info, w', random);
      MovesCompose(c, info, w, first, rest);
      ms := first + rest;
    }
  }

  /** The ranking function behind it: the ticks a held node still has. With no heartbeat on its way, every increment
      lowers it and no other move changes it - a Register, in particular, is refused while the node is held. */
  function Remaining(c: Config, s: State, id: string): int {
    c.maxMissed - Silence(s.log, id)
  }

  lemma QuietStep(c: Config, s: State, a: Action, id: string)
    requires id in s.nodes && (a.Heartbeat? ==> a.id != id)
    ensures Silence(Step(c, s, a).log, id) == Silence(s.log, id) + if a.Bump? then 1 else 0
  {
    StepLogs(c, s, a);
    StepSilence(c, s, a, id);
  }

  lemma RemainingFalls(c: Config, info: NodeInfo, w: World, m: Move)
    requires CanMove(c, info, w, m) && info.nodeId in w.reg.nodes
    requires forall n | 0 <= n < |w.calls| :: w.calls[n] != HeartbeatSent
    ensures Remaining(c, Move1(c, info, w, m).reg, info.nodeId) ==
            Remaining(c, w.reg, info.nodeId) - if m == Other(Bump) then 1 else 0
  {
    if ToAction(info, m).Some? {
      QuietStep(c, w.reg, ToAction(info, m).value, info.nodeId);
    }
  }
}
