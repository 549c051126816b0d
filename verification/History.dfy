/** The event log of a node table, read declaratively: which ids hold a lease, since when, how long
    they have been silent and what they last reported. The table is proved to be exactly this reading. */
module History {
  import opened Words
  import opened NodeTypes

  datatype Event =
    | Registered(info: NodeInfo, sessionId: string)
    | Deregistered(id: string)
    | Beat(id: string, cpu: Load, mem: Load)
    | Incremented
    | Evicted(ids: seq<string>)

  predicate Opens(e: Event, id: string) {
    e.Registered? && e.info.nodeId == id
  }

  predicate Closes(e: Event, id: string) {
    (e.Deregistered? && e.id == id) || (e.Evicted? && id in e.ids)
  }

  predicate Touches(e: Event, id: string) {
    Opens(e, id) || (e.Beat? && e.id == id)
  }

  // --- Readings of the log ---------------------------------------------------------------------

  /** Index of the registration under which `id` is held at the end of `log`, or -1. */
  function LeaseStart(log: seq<Event>, id: string): (k: int)
    ensures -1 <= k < |log|
    ensures k >= 0 ==> Opens(log[k], id)
  {
    if log == [] then -1
    else if Opens(log[|log| - 1], id) then |log| - 1
    else if Closes(log[|log| - 1], id) then -1
    else LeaseStart(log[..|log| - 1], id)
  }

  /** Index of the latest registration or heartbeat of `id`, or -1. */
  function LastTouch(log: seq<Event>, id: string): (k: int)
    ensures -1 <= k < |log|
    ensures k >= 0 ==> Touches(log[k], id)
  {
    if log == [] then -1
    else if Touches(log[|log| - 1], id) then |log| - 1
    else LastTouch(log[..|log| - 1], id)
  }

  /** Number of counter increments from event `from` on. */
  function TicksFrom(log: seq<Event>, from: nat): nat {
    if |log| <= from then 0
    else TicksFrom(log[..|log| - 1], from) + if log[|log| - 1].Incremented? then 1 else 0
  }

  /** Increments since the latest registration or heartbeat of `id`. */
  function Silence(log: seq<Event>, id: string): nat {
    if log == [] || Touches(log[|log| - 1], id) then 0
    else Silence(log[..|log| - 1], id) + if log[|log| - 1].Incremented? then 1 else 0
  }

  /** Load figures of the latest heartbeat since the latest registration of `id`; zero before the first. */
  function Loads(log: seq<Event>, id: string): (Load, Load) {
    var k := LastTouch(log, id);
    if k >= 0 && log[k].Beat? then (log[k].cpu, log[k].mem) else (0.0, 0.0)
  }

  /** The entry the log prescribes for a held id; the counter is a `uint32_t`. */
  function EntryOf(log: seq<Event>, id: string): NodeEntry
    requires LeaseStart(log, id) >= 0
  {
    var reg := log[LeaseStart(log, id)];
    NodeEntry(reg.info, reg.sessionId, Silence(log, id) % UINT32_RANGE, Loads(log, id).0, Loads(log, id).1)
  }

  /** The registrations (true) and removals (false) of `id`, in order. */
  function Leases(log: seq<Event>, id: string): seq<bool> {
    if log == [] then []
    else Leases(log[..|log| - 1], id) + LeaseMark(log[|log| - 1], id)
  }

  function LeaseMark(e: Event, id: string): seq<bool> {
    if Opens(e, id) then [true] else if Closes(e, id) then [false] else []
  }

  /** Registration first, then removal and registration in turn. */
  predicate Alternates(s: seq<bool>) {
    forall i | 0 <= i < |s| :: s[i] == (i % 2 == 0)
  }

  /** Successful registrations, and removals counted node by node. */
  function Opened(log: seq<Event>): nat {
    if log == [] then 0
    else Opened(log[..|log| - 1]) + if log[|log| - 1].Registered? then 1 else 0
  }

  function Closed(log: seq<Event>): nat {
    if log == [] then 0 else Closed(log[..|log| - 1]) + Removals(log[|log| - 1])
  }

  function Removals(e: Event): nat {
    if e.Deregistered? then 1 else if e.Evicted? then |e.ids| else 0
  }

  // --- What the readings mean ------------------------------------------------------------------

  /** `id` is held exactly when some registration of it has no later removal; the lease start is the
      only registration with neither a later registration nor a later removal. */
  lemma {:induction false} LeaseStartMeaning(log: seq<Event>, id: string, k: nat)
    ensures k == LeaseStart(log, id)
       <==> k < |log| && Opens(log[k], id) && forall j | k < j < |log| :: !Opens(log[j], id) && !Closes(log[j], id)
  {
    if log != [] {
      var init, e := log[..|log| - 1], log[|log| - 1];
      LeaseStartMeaning(init, id, k);
      assert forall j | 0 <= j < |init| :: log[j] == init[j];
    }
  }

  /** The last touch is the registration or heartbeat of `id` with no later one. */
  lemma {:induction false} LastTouchMeaning(log: seq<Event>, id: string, k: nat)
    ensures k == LastTouch(log, id)
       <==> k < |log| && Touches(log[k], id) && forall j | k < j < |log| :: !Touches(log[j], id)
    ensures LastTouch(log, id) < k < |log| ==> !Touches(log[k], id)
  {
    if log != [] {
      var init, e := log[..|log| - 1], log[|log| - 1];
      LastTouchMeaning(init, id, k);
      assert forall j | 0 <= j < |init| :: log[j] == init[j];
    }
  }

  /** Silence counts the increments after the last touch. */
  lemma {:induction false} SilenceMeaning(log: seq<Event>, id: string)
    ensures Silence(log, id) == TicksFrom(log, LastTouch(log, id) + 1)
  {
    if log != [] && !Touches(log[|log| - 1], id) {
      SilenceMeaning(log[..|log| - 1], id);
    }
  }

  /** The increments from an event on, counted as a set of log positions. */
  lemma {:induction false} TicksFromMeaning(log: seq<Event>, from: nat)
    ensures TicksFrom(log, from) == |set i | from <= i < |log| && log[i].Incremented?|
  {
    var ticks := set i | from <= i < |log| && log[i].Incremented?;
    if |log| <= from {
      assert ticks == {};
    } else {
      var init := log[..|log| - 1];
      var before := set i | from <= i < |init| && init[i].Incremented?;
      TicksFromMeaning(init, from);
      assert ticks == before + if log[|log| - 1].Incremented? then {|log| - 1} else {};
    }
  }

  // --- Appending one event ---------------------------------------------------------------------

  lemma ExtendLease(log: seq<Event>, e: Event, id: string)
    ensures LeaseStart(log + [e], id) == if Opens(e, id) then |log| else if Closes(e, id) then -1 else LeaseStart(log, id)
    ensures Leases(log + [e], id) == Leases(log, id) + LeaseMark(e, id)
  {
    assert (log + [e])[..|log|] == log;
  }

  lemma ExtendTouch(log: seq<Event>, e: Event, id: string)
    ensures LastTouch(log + [e], id) == if Touches(e, id) then |log| else LastTouch(log, id)
  {
    assert (log + [e])[..|log|] == log;
  }

  lemma ExtendSilence(log: seq<Event>, e: Event, id: string)
    ensures Silence(log + [e], id) == if Touches(e, id) then 0 else Silence(log, id) + if e.Incremented? then 1 else 0
  {
    assert (log + [e])[..|log|] == log;
  }

  lemma ExtendCounts(log: seq<Event>, e: Event)
    ensures Opened(log + [e]) == Opened(log) + if e.Registered? then 1 else 0
    ensures Closed(log + [e]) == Closed(log) + Removals(e)
  {
    assert (log + [e])[..|log|] == log;
  }

  // --- The representation invariant ------------------------------------------------------------

  /** For `id`, the table is the reading of the log, and leases of `id` alternate. */
  ghost predicate RepresentsAt(nodes: Nodes, log: seq<Event>, id: string) {
    && (id in nodes <==> LeaseStart(log, id) >= 0)
    && (id in nodes ==> nodes[id] == EntryOf(log, id))
    && Alternates(Leases(log, id))
  }

  /** The table is the reading of the log for every id, and nodes are conserved. */
  ghost predicate Represents(nodes: Nodes, log: seq<Event>) {
    && (forall id :: RepresentsAt(nodes, log, id))
    && |nodes| + Closed(log) == Opened(log)
  }

  /** What an event does to the entry of one id. */
  ghost predicate EventAt(nodes: Nodes, nodes': Nodes, e: Event, id: string) {
    && (Opens(e, id) ==> id !in nodes)
    && (Closes(e, id) ==> id in nodes)
    && (id in nodes' <==> Opens(e, id) || (id in nodes && !Closes(e, id)))
    && (id in nodes' ==>
          nodes'[id] == if Opens(e, id) then NewEntry(e.info, e.sessionId)
                        else if e.Beat? && e.id == id then
                          nodes[id].(missedHeartbeats := 0, cpuUsage := e.cpu, memoryUsage := e.mem)
                        else if e.Incremented? then
                          nodes[id].(missedHeartbeats := Increment32(nodes[id].missedHeartbeats))
                        else nodes[id])
  }

  /** Under alternation, an id is held exactly when the number of its registrations and removals is odd. */
  lemma {:induction false} HeldIffOdd(log: seq<Event>, id: string)
    requires Alternates(Leases(log, id))
    ensures LeaseStart(log, id) >= 0 <==> |Leases(log, id)| % 2 == 1
  {
    if log != [] {
      var init, e := log[..|log| - 1], log[|log| - 1];
      var before, now := Leases(init, id), Leases(log, id);
      assert now == before + LeaseMark(e, id);
      forall i | 0 <= i < |before| ensures before[i] == (i % 2 == 0) {
        assert now[i] == before[i];
      }
      HeldIffOdd(init, id);
      if LeaseMark(e, id) != [] {
        assert now[|before|] == Opens(e, id);
      }
    }
  }

  lemma SilenceWraps(n: nat)
    ensures Increment32(n % UINT32_RANGE) == (n + 1) % UINT32_RANGE
  {
  }

  lemma ExtendLoads(log: seq<Event>, e: Event, id: string)
    ensures Loads(log + [e], id) == if Opens(e, id) then (0.0, 0.0)
                                    else if Touches(e, id) then (e.cpu, e.mem)
                                    else Loads(log, id)
  {
    ExtendTouch(log, e, id);
    var k := LastTouch(log, id);
    if k >= 0 {
      assert (log + [e])[k] == log[k];
    }
  }

  /** The prescribed entry of an id, after an event that neither opens nor closes its lease. */
  lemma EntryExtends(log: seq<Event>, e: Event, id: string)
    requires LeaseStart(log, id) >= 0 && !Opens(e, id) && !Closes(e, id)
    ensures LeaseStart(log + [e], id) >= 0
    ensures EntryOf(log + [e], id) ==
            if e.Beat? && e.id == id then
              EntryOf(log, id).(missedHeartbeats := 0, cpuUsage := e.cpu, memoryUsage := e.mem)
            else if e.Incremented? then
              EntryOf(log, id).(missedHeartbeats := Increment32(EntryOf(log, id).missedHeartbeats))
            else EntryOf(log, id)
  {
    ExtendLease(log, e, id);
    ExtendLoads(log, e, id);
    ExtendSilence(log, e, id);
    SilenceWraps(Silence(log, id));
    assert (log + [e])[LeaseStart(log, id)] == log[LeaseStart(log, id)];
  }

  lemma EntryOpens(log: seq<Event>, e: Event, id: string)
    requires Opens(e, id)
    ensures LeaseStart(log + [e], id) >= 0
    ensures EntryOf(log + [e], id) == NewEntry(e.info, e.sessionId)
  {
    ExtendLease(log, e, id);
    ExtendLoads(log, e, id);
    ExtendSilence(log, e, id);
  }

  lemma EventRepresentsAt(nodes: Nodes, nodes': Nodes, log: seq<Event>, e: Event, id: string)
    requires RepresentsAt(nodes, log, id) && EventAt(nodes, nodes', e, id)
    ensures RepresentsAt(nodes', log + [e], id)
  {
    ExtendLease(log, e, id);
    HeldIffOdd(log, id);
    if Opens(e, id) {
      EntryOpens(log, e, id);
    } else if id in nodes' {
      EntryExtends(log, e, id);
    }
  }

  /** Every table operation keeps the invariant: it is enough that it acts on each id as its event says and changes
      the node count accordingly. */
  lemma EventRepresents(nodes: Nodes, nodes': Nodes, log: seq<Event>, e: Event)
    requires Represents(nodes, log)
    requires forall id :: EventAt(nodes, nodes', e, id)
    requires |nodes'| + Removals(e) == |nodes| + if e.Registered? then 1 else 0
    ensures Represents(nodes', log + [e])
  {
    forall id ensures RepresentsAt(nodes', log + [e], id) {
      assert EventAt(nodes, nodes', e, id) && RepresentsAt(nodes, log, id);
      EventRepresentsAt(nodes, nodes', log, e, id);
    }
    ExtendCounts(log, e);
  }

  lemma RegisterRepresents(nodes: Nodes, log: seq<Event>, info: NodeInfo, sessionId: string)
    requires Represents(nodes, log) && info.nodeId !in nodes
    ensures Represents(AfterRegister(nodes, info, sessionId), log + [Registered(info, sessionId)])
  {
    assert AfterRegister(nodes, info, sessionId).Keys == nodes.Keys + {info.nodeId};
    EventRepresents(nodes, AfterRegister(nodes, info, sessionId), log, Registered(info, sessionId));
  }

  lemma DeregisterRepresents(nodes: Nodes, log: seq<Event>, id: string)
    requires Represents(nodes, log) && id in nodes
    ensures Represents(nodes - {id}, log + [Deregistered(id)])
  {
    assert (nodes - {id}).Keys == nodes.Keys - {id};
    EventRepresents(nodes, nodes - {id}, log, Deregistered(id));
  }

  lemma HeartbeatRepresents(nodes: Nodes, log: seq<Event>, id: string, cpu: Load, mem: Load)
    requires Represents(nodes, log) && id in nodes
    ensures Represents(AfterHeartbeat(nodes, id, cpu, mem), log + [Beat(id, cpu, mem)])
  {
    assert AfterHeartbeat(nodes, id, cpu, mem).Keys == nodes.Keys;
    EventRepresents(nodes, AfterHeartbeat(nodes, id, cpu, mem), log, Beat(id, cpu, mem));
  }

  lemma IncrementRepresents(nodes: Nodes, log: seq<Event>)
    requires Represents(nodes, log)
    ensures Represents(AfterIncrement(nodes), log + [Incremented])
  {
    assert AfterIncrement(nodes).Keys == nodes.Keys;
    EventRepresents(nodes, AfterIncrement(nodes), log, Incremented);
  }

  lemma EvictRepresents(nodes: Nodes, log: seq<Event>, maxMissed: nat, removed: seq<string>)
    requires Represents(nodes, log) && Enumerates(removed, Stale(nodes, maxMissed))
    ensures Represents(AfterRemoveStale(nodes, maxMissed), log + [Evicted(removed)])
  {
    RemoveStalePartition(nodes, maxMissed);
    EnumerationLength(removed, Stale(nodes, maxMissed));
    EventRepresents(nodes, AfterRemoveStale(nodes, maxMissed), log, Evicted(removed));
  }
}
