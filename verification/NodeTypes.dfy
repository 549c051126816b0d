/** The records of the registry (src/registry/node_table.h, proto/common.proto) and what each table operation does to
    them. */
module NodeTypes {
  import opened Words

  /** Load figures are carried, never computed with. */
  type Load = real

  datatype NodeInfo = NodeInfo(
    nodeId: string,
    ipAddress: string,
    port: nat,
    services: seq<string>,
    startupTimestamp: nat)

  datatype NodeEntry = NodeEntry(
    info: NodeInfo,
    sessionId: string,
    missedHeartbeats: nat,
    cpuUsage: Load,
    memoryUsage: Load)

  type Nodes = map<string, NodeEntry>

  /** The entry `register_node` emplaces. */
  function NewEntry(info: NodeInfo, sessionId: string): NodeEntry {
    NodeEntry(info, sessionId, 0, 0.0, 0.0)
  }

  predicate CanRegister(nodes: Nodes, maxNodes: nat, id: string) {
    |nodes| < maxNodes && id !in nodes
  }

  function AfterRegister(nodes: Nodes, info: NodeInfo, sessionId: string): Nodes {
    nodes[info.nodeId := NewEntry(info, sessionId)]
  }

  function AfterHeartbeat(nodes: Nodes, id: string, cpu: Load, mem: Load): Nodes
    requires id in nodes
  {
    nodes[id := nodes[id].(missedHeartbeats := 0, cpuUsage := cpu, memoryUsage := mem)]
  }

  function AfterIncrement(nodes: Nodes): Nodes {
    map id | id in nodes ::
      nodes[id].(missedHeartbeats := Increment32(nodes[id].missedHeartbeats))
  }

  function Stale(nodes: Nodes, maxMissed: nat): set<string> {
    set id | id in nodes && nodes[id].missedHeartbeats >= maxMissed
  }

  function AfterRemoveStale(nodes: Nodes, maxMissed: nat): Nodes {
    nodes - Stale(nodes, maxMissed)
  }

  /** A healthy entry that the filter accepts; an empty filter accepts every service list. */
  predicate Matches(entry: NodeEntry, filter: seq<string>) {
    && entry.missedHeartbeats == 0
    && (filter == [] || exists svc :: svc in entry.info.services && svc in filter)
  }

  /** The filter accepts a healthy entry exactly if it is empty or some service offered is some service asked for. */
  lemma MatchMeaning(entry: NodeEntry, filter: seq<string>)
    ensures Matches(entry, filter)
       <==> && entry.missedHeartbeats == 0
            && (filter == [] || exists i, j :: && 0 <= i < |entry.info.services| && 0 <= j < |filter|
                                               && entry.info.services[i] == filter[j])
  {
    var services := entry.info.services;
    if exists svc :: svc in services && svc in filter {
      var svc :| svc in services && svc in filter;
      var i :| 0 <= i < |services| && services[i] == svc;
      var j :| 0 <= j < |filter| && filter[j] == svc;
      assert services[i] == filter[j];
    }
    if exists i, j :: 0 <= i < |services| && 0 <= j < |filter| && services[i] == filter[j] {
      var i, j :| 0 <= i < |services| && 0 <= j < |filter| && services[i] == filter[j];
      assert services[i] in services && services[i] in filter;
    }
  }

  function Discoverable(nodes: Nodes, filter: seq<string>): set<string> {
    set id | id in nodes && Matches(nodes[id], filter)
  }

  /** Removal by age splits the table: the stale ids go, every other entry stays as it was, and no node is lost or
      counted twice. */
  lemma RemoveStalePartition(nodes: Nodes, maxMissed: nat)
    ensures var rest := AfterRemoveStale(nodes, maxMissed);
            && rest.Keys !! Stale(nodes, maxMissed)
            && rest.Keys + Stale(nodes, maxMissed) == nodes.Keys
            && |nodes| == |rest| + |Stale(nodes, maxMissed)|
            && forall id | id in rest :: rest[id] == nodes[id] && nodes[id].missedHeartbeats < maxMissed
  {
    var rest, gone := AfterRemoveStale(nodes, maxMissed), Stale(nodes, maxMissed);
    assert rest.Keys + gone == nodes.Keys;
    assert |nodes.Keys| == |rest.Keys| + |gone|;
  }

  // --- Filter algebra of service discovery -----------------------------------------------------

  /** Concatenated filters discover the union, on every table, exactly when both or neither are empty:
      an empty filter means "no constraint", so it swallows a non-empty one instead of adding nothing. */
  lemma FilterUnion(f: seq<string>, g: seq<string>)
    ensures (f == [] <==> g == [])
       <==> (forall nodes: Nodes :: Discoverable(nodes, f + g) == Discoverable(nodes, f) + Discoverable(nodes, g))
  {
    if f == [] <==> g == [] {
      forall nodes: Nodes
        ensures Discoverable(nodes, f + g) == Discoverable(nodes, f) + Discoverable(nodes, g)
      {
        forall id | id in nodes
          ensures Matches(nodes[id], f + g) <==> Matches(nodes[id], f) || Matches(nodes[id], g)
        {
        }
      }
    } else {
      // A healthy node that offers no service is found by the empty filter only.
      var mute := NewEntry(NodeInfo("mute", "", 0, [], 0), "");
      var nodes: Nodes := map["mute" := mute];
      assert Matches(mute, []) && !Matches(mute, f + g);
      assert "mute" in Discoverable(nodes, f) + Discoverable(nodes, g);
      assert "mute" !in Discoverable(nodes, f + g);
    }
  }

  /** Filter order and repetition are irrelevant, and a non-empty filter only narrows the empty one. */
  lemma FilterAsSet(nodes: Nodes, f: seq<string>, g: seq<string>)
    requires forall svc :: svc in f <==> svc in g
    ensures Discoverable(nodes, f) == Discoverable(nodes, g) <= Discoverable(nodes, [])
  {
    assert f == [] <==> g == [] by {
      if f != [] { assert f[0] in g; }
      if g != [] { assert g[0] in f; }
    }
    forall id | id in nodes
      ensures Matches(nodes[id], f) == Matches(nodes[id], g)
    {
    }
  }
}
