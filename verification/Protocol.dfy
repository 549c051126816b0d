/** The registry as a transition system: every table operation, and each half of a health-checker tick and of a
    Register call, is one atomic step, and steps of different threads interleave freely. */
module Protocol {
  import opened Words
  import opened NodeTypes
  import opened History
  import opened Session

  /** The checker is between ticks, or has incremented the counters and not yet removed the stale nodes. */
  datatype Phase = Idle | MidTick

  datatype Config = Config(maxNodes: nat, maxMissed: nat) {
    /** Both are `uint32_t`. */
    predicate Representable() {
      maxNodes < UINT32_RANGE && maxMissed < UINT32_RANGE
    }
  }

  datatype RegisterRequest = RegisterRequest(nodeInfo: Option<NodeInfo>)

  datatype State = State(
    nodes: Nodes,
    running: bool,
    inFlight: multiset<NodeInfo>,  // Register calls past the running check and before the insertion
    phase: Phase,
    log: seq<Event>)

  const INITIAL: State := State(map[], true, multiset{}, Idle, [])

  datatype Action =
    | Admit(request: RegisterRequest)         // first half of Register: the checks
    | Insert(info: NodeInfo, random: nat)     // second half: session id and insertion
    | Heartbeat(id: string, cpu: Load, mem: Load)
    | Deregister(id: string)
    | Discover(filter: seq<string>)
    | Shutdown
    | Bump                                    // first half of a tick: increment all counters
    | Sweep(removed: seq<string>)             // second half: remove the stale nodes

  predicate Admissible(running: bool, request: RegisterRequest) {
    running && request.nodeInfo.Some? && request.nodeInfo.value.nodeId != ""
  }

  /** RPCs may arrive at any time; the checker alternates, and its removal visits the table in some order. */
  ghost predicate Enabled(c: Config, s: State, a: Action) {
    match a
    case Bump => s.phase == Idle
    case Sweep(removed) => s.phase == MidTick && Enumerates(removed, Stale(s.nodes, c.maxMissed))
    case _ => true
  }

  function Step(c: Config, s: State, a: Action): State {
    match a
    case Admit(request) =>
      if Admissible(s.running, request) then
        s.(inFlight := s.inFlight + multiset{request.nodeInfo.value})
      else s
    case Insert(info, random) =>
      if info !in s.inFlight then s
      else
        var answered := s.(inFlight := s.inFlight - multiset{info});
        if CanRegister(s.nodes, c.maxNodes, info.nodeId) then
          var sessionId := SessionId(info.nodeId, random);
          answered.(nodes := AfterRegister(s.nodes, info, sessionId), log := s.log + [Registered(info, sessionId)])
        else answered
    case Heartbeat(id, cpu, mem) =>
      if id != "" && id in s.nodes then
        s.(nodes := AfterHeartbeat(s.nodes, id, cpu, mem), log := s.log + [Beat(id, cpu, mem)])
      else s
    case Deregister(id) =>
      if id in s.nodes then s.(nodes := s.nodes - {id}, log := s.log + [Deregistered(id)]) else s
    case Discover(_) => s
    case Shutdown => s.(running := false)
    case Bump =>
      s.(nodes := AfterIncrement(s.nodes), phase := MidTick, log := s.log + [Incremented])
    case Sweep(removed) =>
      s.(nodes := AfterRemoveStale(s.nodes, c.maxMissed), phase := Idle, log := s.log + [Evicted(removed)])
  }

  // --- Runs ------------------------------------------------------------------------------------

  function Exec(c: Config, s: State, acts: seq<Action>): State
    decreases |acts|
  {
    if acts == [] then s else Exec(c, Step(c, s, acts[0]), acts[1..])
  }

  ghost predicate IsRun(c: Config, s: State, acts: seq<Action>)
    decreases |acts|
  {
    acts != [] ==> Enabled(c, s, acts[0]) && IsRun(c, Step(c, s, acts[0]), acts[1..])
  }

  lemma {:induction false} RunsCompose(c: Config, s: State, first: seq<Action>, second: seq<Action>)
    ensures Exec(c, s, first + second) == Exec(c, Exec(c, s, first), second)
    ensures IsRun(c, s, first + second) <==> IsRun(c, s, first) && IsRun(c, Exec(c, s, first), second)
    decreases |first|
  {
    if first == [] {
      assert first + second == second;
    } else {
      assert (first + second)[0] == first[0] && (first + second)[1..] == first[1..] + second;
      RunsCompose(c, Step(c, s, first[0]), first[1..], second);
    }
  }

  /** The log only grows. */
  lemma {:induction false} LogGrows(c: Config, s: State, acts: seq<Action>)
    ensures s.log <= Exec(c, s, acts).log
    decreases |acts|
  {
    if acts != [] {
      LogGrows(c, Step(c, s, acts[0]), acts[1..]);
    }
  }

  // --- The invariant ---------------------------------------------------------------------------

  /** Increments an id may have been silent for: one less between ticks, since the removal has just run. */
  function SilenceBound(c: Config, phase: Phase): int {
    if phase == Idle then c.maxMissed - 1 else c.maxMissed
  }

  ghost predicate BoundedSilence(c: Config, s: State) {
    forall id | id in s.nodes :: Silence(s.log, id) <= SilenceBound(c, s.phase)
  }

  /** Event `k` of the log, if a removal by age, names exactly the ids held and silent for `maxMissed` increments. */
  ghost predicate EvictionExactAt(log: seq<Event>, maxMissed: nat, k: nat)
    requires k < |log|
  {
    log[k].Evicted? ==>
      forall id :: id in log[k].ids <==> LeaseStart(log[..k], id) >= 0 && Silence(log[..k], id) == maxMissed
  }

  ghost predicate EvictionsExact(log: seq<Event>, maxMissed: nat) {
    forall k: nat | k < |log| :: EvictionExactAt(log, maxMissed, k)
  }

  ghost predicate WellNamed(s: State) {
    && "" !in s.nodes
    && (forall info | info in s.inFlight :: info.nodeId != "")
    && (forall id | id in s.nodes :: IsSessionOf(s.nodes[id].sessionId, id))
  }

  ghost predicate Inv(c: Config, s: State) {
    && Represents(s.nodes, s.log)
    && |s.nodes| <= c.maxNodes
    && WellNamed(s)
  }

  /** Holds too once the threshold is at least one. */
  ghost predicate DetectorInv(c: Config, s: State) {
    Inv(c, s) && BoundedSilence(c, s) && EvictionsExact(s.log, c.maxMissed)
  }

  lemma EvictionsExtend(log: seq<Event>, e: Event, maxMissed: nat)
    requires EvictionsExact(log, maxMissed)
    requires e.Evicted? ==> forall id :: id in e.ids <==> LeaseStart(log, id) >= 0 && Silence(log, id) == maxMissed
    ensures EvictionsExact(log + [e], maxMissed)
  {
    forall k: nat | k < |log + [e]| ensures EvictionExactAt(log + [e], maxMissed, k) {
      assert (log + [e])[..k] == if k < |log| then log[..k] else log;
      if k < |log| {
        assert EvictionExactAt(log, maxMissed, k);
      }
    }
  }

  lemma StepRepresents(c: Config, s: State, a: Action)
    requires Represents(s.nodes, s.log) && Enabled(c, s, a)
    ensures Represents(Step(c, s, a).nodes, Step(c, s, a).log)
  {
    match a
    case Insert(info, random) =>
      if info in s.inFlight && CanRegister(s.nodes, c.maxNodes, info.nodeId) {
        RegisterRepresents(s.nodes, s.log, info, SessionId(info.nodeId, random));
      }
    case Heartbeat(id, cpu, mem) =>
      if id != "" && id in s.nodes {
        HeartbeatRepresents(s.nodes, s.log, id, cpu, mem);
      }
    case Deregister(id) =>
      if id in s.nodes {
        DeregisterRepresents(s.nodes, s.log, id);
      }
    case Bump => IncrementRepresents(s.nodes, s.log);
    case Sweep(removed) => EvictRepresents(s.nodes, s.log, c.maxMissed, removed);
    case _ =>
  }

  /** Only an insertion adds an id, and it needs room; everything else keeps a subset of the ids. */
  lemma StepIds(c: Config, s: State, a: Action)
    ensures var ids := Step(c, s, a).nodes.Keys;
            if a.Insert? && a.info in s.inFlight && CanRegister(s.nodes, c.maxNodes, a.info.nodeId)
            then ids == s.nodes.Keys + {a.info.nodeId}
            else ids <= s.nodes.Keys
    ensures forall id | id in s.nodes && id in Step(c, s, a).nodes ::
              && Step(c, s, a).nodes[id].sessionId == s.nodes[id].sessionId
              && Step(c, s, a).nodes[id].info == s.nodes[id].info
  {
  }

  lemma SubsetCardinality<T>(a: set<T>, b: set<T>)
    requires a <= b
    ensures |a| <= |b|
  {
    assert b == a + (b - a);
  }

  lemma StepKeepsCapacity(c: Config, s: State, a: Action)
    requires |s.nodes| <= c.maxNodes
    ensures |Step(c, s, a).nodes| <= c.maxNodes
  {
    StepIds(c, s, a);
    var ids := Step(c, s, a).nodes.Keys;
    if ids <= s.nodes.Keys {
      SubsetCardinality(ids, s.nodes.Keys);
    }
  }

  lemma StepKeepsNames(c: Config, s: State, a: Action)
    requires WellNamed(s)
    ensures WellNamed(Step(c, s, a))
  {
    StepIds(c, s, a);
    var s' := Step(c, s, a);
    assert forall info | info in s'.inFlight :: info.nodeId != "";
    forall id | id in s'.nodes ensures id != "" && IsSessionOf(s'.nodes[id].sessionId, id) {
      if id !in s.nodes {
        assert id == a.info.nodeId && s'.nodes[id].sessionId == SessionId(id, a.random);
      }
    }
  }

  lemma StepKeepsInv(c: Config, s: State, a: Action)
    requires Inv(c, s) && Enabled(c, s, a)
    ensures Inv(c, Step(c, s, a))
  {
    StepRepresents(c, s, a);
    StepKeepsCapacity(c, s, a);
    StepKeepsNames(c, s, a);
  }

  /** Counters and silence agree as long as the silence fits the counter. */
  lemma CounterIsSilence(c: Config, s: State, id: string)
    requires RepresentsAt(s.nodes, s.log, id) && id in s.nodes
    requires Silence(s.log, id) < UINT32_RANGE
    ensures s.nodes[id].missedHeartbeats == Silence(s.log, id)
  {
  }

  /** The event a step logs, if any. */
  function Logged(c: Config, s: State, a: Action): Option<Event> {
    var log' := Step(c, s, a).log;
    if |log'| == |s.log| + 1 then Some(log'[|s.log|]) else None
  }

  lemma StepLogs(c: Config, s: State, a: Action)
    ensures Step(c, s, a).log == match Logged(c, s, a) case None => s.log case Some(e) => s.log + [e]
    ensures match Logged(c, s, a)
            case None => true
            case Some(Registered(info, sid)) => a == Insert(info, a.random) && sid == SessionId(info.nodeId, a.random)
            case Some(Deregistered(id)) => a == Deregister(id)
            case Some(Beat(id, cpu, mem)) => a == Heartbeat(id, cpu, mem)
            case Some(Incremented) => a == Bump
            case Some(Evicted(ids)) => a == Sweep(ids)
  {
  }

  /** Silence grows by one at every increment and falls to zero at a registration or heartbeat. */
  lemma StepSilence(c: Config, s: State, a: Action, id: string)
    ensures Silence(Step(c, s, a).log, id) ==
            if Logged(c, s, a).Some? && Touches(Logged(c, s, a).value, id) then 0
            else Silence(s.log, id) + if a.Bump? then 1 else 0
  {
    StepLogs(c, s, a);
    if Logged(c, s, a).Some? {
      ExtendSilence(s.log, Logged(c, s, a).value, id);
    }
  }

  lemma SurvivorIsYoung(c: Config, s: State, removed: seq<string>, id: string)
    requires id in Step(c, s, Sweep(removed)).nodes
    ensures id in s.nodes && s.nodes[id].missedHeartbeats < c.maxMissed
  {
  }

  lemma StepBoundsSilence(c: Config, s: State, a: Action, id: string)
    requires c.maxMissed >= 1 && Enabled(c, s, a)
    requires id in s.nodes ==> && Silence(s.log, id) <= SilenceBound(c, s.phase)
                               && s.nodes[id].missedHeartbeats == Silence(s.log, id)
    requires id in Step(c, s, a).nodes
    ensures Silence(Step(c, s, a).log, id) <= SilenceBound(c, Step(c, s, a).phase)
  {
    StepSilence(c, s, a, id);
    if a.Sweep? {
      SurvivorIsYoung(c, s, a.removed, id);
    } else if id !in s.nodes {
      StepIds(c, s, a);
      StepLogs(c, s, a);
    }
  }

  lemma CountersAreSilence(c: Config, s: State)
    requires c.Representable() && Represents(s.nodes, s.log) && BoundedSilence(c, s)
    ensures forall id | id in s.nodes :: s.nodes[id].missedHeartbeats == Silence(s.log, id)
  {
    forall id | id in s.nodes ensures s.nodes[id].missedHeartbeats == Silence(s.log, id) {
      assert RepresentsAt(s.nodes, s.log, id);
      CounterIsSilence(c, s, id);
    }
  }

  lemma SweepIsExactAt(c: Config, s: State, removed: seq<string>, id: string)
    requires RepresentsAt(s.nodes, s.log, id) && (id in removed <==> id in Stale(s.nodes, c.maxMissed))
    requires id in s.nodes ==> s.nodes[id].missedHeartbeats == Silence(s.log, id) <= c.maxMissed
    ensures id in removed <==> LeaseStart(s.log, id) >= 0 && Silence(s.log, id) == c.maxMissed
  {
  }

  lemma SweepIsExact(c: Config, s: State, removed: seq<string>)
    requires c.Representable() && DetectorInv(c, s) && Enabled(c, s, Sweep(removed))
    ensures forall id :: id in removed <==> LeaseStart(s.log, id) >= 0 && Silence(s.log, id) == c.maxMissed
  {
    CountersAreSilence(c, s);
    forall id ensures id in removed <==> LeaseStart(s.log, id) >= 0 && Silence(s.log, id) == c.maxMissed {
      assert RepresentsAt(s.nodes, s.log, id);
      SweepIsExactAt(c, s, removed, id);
    }
  }

  lemma StepKeepsDetector(c: Config, s: State, a: Action)
    requires c.Representable() && c.maxMissed >= 1
    requires DetectorInv(c, s) && Enabled(c, s, a)
    ensures DetectorInv(c, Step(c, s, a))
  {
    StepKeepsInv(c, s, a);
    CountersAreSilence(c, s);
    forall id | id in Step(c, s, a).nodes
      ensures Silence(Step(c, s, a).log, id) <= SilenceBound(c, Step(c, s, a).phase)
    {
      StepBoundsSilence(c, s, a, id);
    }
    StepLogs(c, s, a);
    if a.Sweep? {
      SweepIsExact(c, s, a.removed);
    }
    match Logged(c, s, a)
    case None =>
    case Some(e) => EvictionsExtend(s.log, e, c.maxMissed);
  }

  lemma InitialInv(c: Config)
    requires c.maxMissed >= 1
    ensures DetectorInv(c, INITIAL)
  {
    forall id ensures RepresentsAt(map[], [], id) {
    }
  }

  lemma {:induction false} RunKeepsInv(c: Config, s: State, acts: seq<Action>)
    requires Inv(c, s) && IsRun(c, s, acts)
    ensures Inv(c, Exec(c, s, acts))
    decreases |acts|
  {
    if acts != [] {
      StepKeepsInv(c, s, acts[0]);
      RunKeepsInv(c, Step(c, s, acts[0]), acts[1..]);
    }
  }

  lemma {:induction false} RunKeepsDetector(c: Config, s: State, acts: seq<Action>)
    requires c.Representable() && c.maxMissed >= 1
    requires DetectorInv(c, s) && IsRun(c, s, acts)
    ensures DetectorInv(c, Exec(c, s, acts))
    decreases |acts|
  {
    if acts != [] {
      StepKeepsDetector(c, s, acts[0]);
      RunKeepsDetector(c, Step(c, s, acts[0]), acts[1..]);
    }
  }
}
