/** What every run of the registry keeps: the table is the reading of its event log, nodes are conserved, sessions are
    separate, and a shutdown is final. */
module Safety {
  import opened Words
  import opened NodeTypes
  import opened History
  import opened Session
  import opened Protocol

  lemma Reachable(c: Config, acts: seq<Action>)
    requires IsRun(c, INITIAL, acts)
    ensures Inv(c, Exec(c, INITIAL, acts))
  {
    forall id ensures RepresentsAt(map[], [], id) {
    }
    RunKeepsInv(c, INITIAL, acts);
  }

  /** Event `k` is the registration under which `id` is held, event `t` its latest registration or heartbeat, and
      `entry` is made of them: info and session of `k`, load figures of `t` if a heartbeat and zero if not, and a
      counter of the increments since `t`. */
  ghost predicate EntryReads(log: seq<Event>, id: string, entry: NodeEntry, k: nat, t: nat) {
    && k <= t < |log|
    && Opens(log[k], id) && (forall j | k < j < |log| :: !Opens(log[j], id) && !Closes(log[j], id))
    && Touches(log[t], id) && (forall j | t < j < |log| :: !Touches(log[j], id))
    && entry.info == log[k].info && entry.sessionId == log[k].sessionId
    && entry.missedHeartbeats == TicksFrom(log, t + 1) % UINT32_RANGE
    && entry.cpuUsage == (if log[t].Beat? then log[t].cpu else 0.0)
    && entry.memoryUsage == (if log[t].Beat? then log[t].mem else 0.0)
  }

  /** The table, at `id`, is the reading of the log: registrations and removals of the id alternate, registration
      first; it is present exactly when the last of them is a registration; and its entry is then as the log says. */
  ghost predicate IsReading(nodes: Nodes, log: seq<Event>, id: string) {
    var marks := Leases(log, id);
    && Alternates(marks)
    && (id in nodes <==> marks != [] && marks[|marks| - 1])
    && (id in nodes ==> exists k, t :: EntryReads(log, id, nodes[id], k, t))
  }

  lemma EntryOfReads(log: seq<Event>, id: string, k: nat, t: nat)
    requires k == LeaseStart(log, id) && t == LastTouch(log, id)
    ensures EntryReads(log, id, EntryOf(log, id), k, t)
  {
    LeaseStartMeaning(log, id, k);
    LastTouchMeaning(log, id, k);
    LastTouchMeaning(log, id, t);
    SilenceMeaning(log, id);
  }

  lemma RepresentedIsReading(nodes: Nodes, log: seq<Event>, id: string)
    requires RepresentsAt(nodes, log, id)
    ensures IsReading(nodes, log, id)
  {
    HeldIffOdd(log, id);
    if id in nodes {
      LastTouchMeaning(log, id, LeaseStart(log, id));
      EntryOfReads(log, id, LeaseStart(log, id), LastTouch(log, id));
    }
  }

  /** On every run, the table refines its log. */
  lemma TableRefinesLog(c: Config, acts: seq<Action>, id: string)
    requires IsRun(c, INITIAL, acts)
    ensures IsReading(Exec(c, INITIAL, acts).nodes, Exec(c, INITIAL, acts).log, id)
  {
    Reachable(c, acts);
    var s := Exec(c, INITIAL, acts);
    assert RepresentsAt(s.nodes, s.log, id);
    RepresentedIsReading(s.nodes, s.log, id);
  }

  /** Conservation and capacity: the node count is the registrations minus the deregistrations minus the lengths of
      all removed lists, never exceeds the capacity, and so survives the cast of `get_node_count`. */
  lemma NodesConserved(c: Config, acts: seq<Action>)
    requires c.Representable() && IsRun(c, INITIAL, acts)
    ensures var s := Exec(c, INITIAL, acts);
            && |s.nodes| == Opened(s.log) - Closed(s.log)
            && |s.nodes| <= c.maxNodes
            && |s.nodes| % UINT32_RANGE == |s.nodes|
  {
    Reachable(c, acts);
  }

  /** In every reachable state, distinct live nodes hold distinct session ids, even if the generator repeats. */
  lemma SessionsDistinct(c: Config, acts: seq<Action>, a: string, b: string)
    requires IsRun(c, INITIAL, acts)
    requires var nodes := Exec(c, INITIAL, acts).nodes; a in nodes && b in nodes && a != b
    ensures var nodes := Exec(c, INITIAL, acts).nodes; nodes[a].sessionId != nodes[b].sessionId
  {
    Reachable(c, acts);
    var nodes := Exec(c, INITIAL, acts).nodes;
    assert IsSessionOf(nodes[a].sessionId, a) && IsSessionOf(nodes[b].sessionId, b);
    var p: nat :| nodes[a].sessionId == SessionId(a, p);
    var q: nat :| nodes[b].sessionId == SessionId(b, q);
    SessionIdInjective(a, p, b, q);
  }

  function AdmittedIds(inFlight: multiset<NodeInfo>): set<string> {
    set info | info in inFlight :: info.nodeId
  }

  lemma ShutdownStep(c: Config, s: State, a: Action)
    requires !s.running
    ensures var s' := Step(c, s, a);
            && !s'.running
            && s'.inFlight <= s.inFlight
            && AdmittedIds(s'.inFlight) <= AdmittedIds(s.inFlight)
            && s'.nodes.Keys <= s.nodes.Keys + AdmittedIds(s.inFlight)
  {
    StepIds(c, s, a);
    var s' := Step(c, s, a);
    assert s'.inFlight <= s.inFlight;
    forall id | id in AdmittedIds(s'.inFlight) ensures id in AdmittedIds(s.inFlight) {
      var info :| info in s'.inFlight && info.nodeId == id;
      assert info in s.inFlight;
    }
    if a.Insert? && a.info in s.inFlight {
      assert a.info.nodeId in AdmittedIds(s.inFlight);
    }
  }

  /** After a shutdown the table holds only ids it held then, or ids whose Register had already passed the running
      check; no further call is admitted. */
  lemma {:induction false} ShutdownIsFinal(c: Config, s: State, acts: seq<Action>)
    requires !s.running
    ensures var e := Exec(c, s, acts);
            && !e.running
            && e.inFlight <= s.inFlight
            && e.nodes.Keys <= s.nodes.Keys + AdmittedIds(s.inFlight)
    decreases |acts|
  {
    if acts != [] {
      ShutdownStep(c, s, acts[0]);
      ShutdownIsFinal(c, Step(c, s, acts[0]), acts[1..]);
    }
  }

  /** From a Shutdown call on, whatever the state before it, no Register is admitted, and the table is confined to the ids
      present or admitted then. */
  lemma ShutdownStopsAdmission(c: Config, s: State, acts: seq<Action>, request: RegisterRequest)
    ensures var e := Exec(c, s, [Shutdown] + acts);
            && !e.running && Step(c, e, Admit(request)) == e
            && e.nodes.Keys <= s.nodes.Keys + AdmittedIds(s.inFlight)
  {
    var s' := Step(c, s, Shutdown);
    assert ([Shutdown] + acts)[1..] == acts;
    ShutdownIsFinal(c, s', acts);
    assert s'.nodes == s.nodes && s'.inFlight == s.inFlight;
  }

  /** The running flag gates admissions and nothing else: heartbeats, deregistrations, in-flight insertions and both
      halves of a tick act on the same table in the same way, before and after a shutdown. */
  lemma {:induction false} ShutdownGatesOnlyAdmission(c: Config, s: State, acts: seq<Action>)
    requires forall a | a in acts :: !a.Admit?
    ensures Exec(c, s.(running := false), acts) == Exec(c, s, acts).(running := false)
    decreases |acts|
  {
    if acts != [] {
      assert acts[0] in acts;
      assert Step(c, s.(running := false), acts[0]) == Step(c, s, acts[0]).(running := false);
      ShutdownGatesOnlyAdmission(c, Step(c, s, acts[0]), acts[1..]);
    }
  }
}
