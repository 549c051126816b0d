/** The node table (src/registry/node_table.cpp). Each method holds one lock for its whole body, so it is one atomic
    step; the log records the successful ones, and the table is kept equal to the reading of the log. */
module NodeTables {
  import opened Words
  import opened NodeTypes
  import opened History

  function Names(entries: seq<NodeEntry>): (names: seq<string>)
    ensures |names| == |entries| && forall i | 0 <= i < |names| :: names[i] == entries[i].info.nodeId
  {
    seq(|entries|, i requires 0 <= i < |entries| => entries[i].info.nodeId)
  }

  /** `result` lists the entries of exactly the given ids, each once. */
  ghost predicate ListsEntries(result: seq<NodeEntry>, nodes: Nodes, ids: set<string>) {
    && Enumerates(Names(result), ids)
    && forall i | 0 <= i < |result| :: result[i].info.nodeId in nodes && result[i] == nodes[result[i].info.nodeId]
  }

  lemma ListOneMore(result: seq<NodeEntry>, nodes: Nodes, ids: set<string>, entry: NodeEntry)
    requires ListsEntries(result, nodes, ids)
    requires var id := entry.info.nodeId; id in nodes && nodes[id] == entry && id !in ids
    ensures ListsEntries(result + [entry], nodes, ids + {entry.info.nodeId})
  {
    assert Names(result + [entry]) == Names(result) + [entry.info.nodeId];
    EnumerateOneMore(Names(result), ids, entry.info.nodeId);
  }

  /** The ids among the first `c` names that the filter accepts. */
  ghost function FoundAmong(names: seq<string>, c: nat, nodes: Nodes, filter: seq<string>): set<string>
    requires c <= |names|
  {
    set id | id in names[..c] && id in Discoverable(nodes, filter)
  }

  lemma FoundOneMore(names: seq<string>, c: nat, nodes: Nodes, filter: seq<string>)
    requires c < |names| && names[c] in nodes && names[c] !in names[..c]
    ensures FoundAmong(names, c + 1, nodes, filter) ==
            FoundAmong(names, c, nodes, filter) + if Matches(nodes[names[c]], filter) then {names[c]} else {}
    ensures names[c] !in FoundAmong(names, c, nodes, filter)
  {
    assert names[..c + 1] == names[..c] + [names[c]];
  }

  lemma ListedIffMatching(result: seq<NodeEntry>, nodes: Nodes, filter: seq<string>)
    requires ListsEntries(result, nodes, Discoverable(nodes, filter))
    ensures forall k, l | 0 <= k < l < |result| :: result[k].info.nodeId != result[l].info.nodeId
    ensures forall id :: (exists k :: 0 <= k < |result| && result[k].info.nodeId == id)
                    <==> && id in nodes && nodes[id].missedHeartbeats == 0
                         && (filter == [] || exists i, j :: && 0 <= i < |nodes[id].info.services| && 0 <= j < |filter|
                                                            && nodes[id].info.services[i] == filter[j])
  {
    var names := Names(result);
    forall k, l | 0 <= k < l < |result| ensures result[k].info.nodeId != result[l].info.nodeId {
      assert names[k] != names[l];
    }
    forall id
      ensures (exists k :: 0 <= k < |result| && result[k].info.nodeId == id) <==> id in Discoverable(nodes, filter)
    {
      if k :| 0 <= k < |result| && result[k].info.nodeId == id {
        assert names[k] == id;
      }
      if id in names {
        var k :| 0 <= k < |names| && names[k] == id;
        assert result[k].info.nodeId == id;
      }
    }
    forall id | id in nodes
      ensures id in Discoverable(nodes, filter)
         <==> && nodes[id].missedHeartbeats == 0
              && (filter == [] || exists i, j :: && 0 <= i < |nodes[id].info.services| && 0 <= j < |filter|
                                                 && nodes[id].info.services[i] == filter[j])
    {
      MatchMeaning(nodes[id], filter);
    }
  }

  /** One visit of the erasing walk: `id` is erased and reported if stale, and passed over if not. */
  lemma VisitOne(all: Nodes, maxMissed: nat, unvisited: set<string>, removed: seq<string>, id: string)
    requires id in unvisited && unvisited <= all.Keys
    requires Enumerates(removed, Stale(all, maxMissed) - unvisited)
    ensures var left := Stale(all, maxMissed) - (unvisited - {id});
            if id in Stale(all, maxMissed)
            then && Enumerates(removed + [id], left)
                 && all - left == (all - (Stale(all, maxMissed) - unvisited)) - {id}
            else left == Stale(all, maxMissed) - unvisited
  {
    var gone, left := Stale(all, maxMissed) - unvisited, Stale(all, maxMissed) - (unvisited - {id});
    if id in Stale(all, maxMissed) {
      assert left == gone + {id};
      EnumerateOneMore(removed, gone, id);
    } else {
      assert left == gone;
    }
  }

  class NodeTable {
    var nodes: Nodes
    const maxNodes: nat
    ghost var log: seq<Event>

    ghost predicate Valid()
      reads this
    {
      Represents(nodes, log) && |nodes| <= maxNodes < UINT32_RANGE
    }

    /** Entries are stored under their own node id. */
    lemma KeysMatch()
      requires Valid()
      ensures forall id | id in nodes :: nodes[id].info.nodeId == id
    {
      forall id | id in nodes ensures nodes[id].info.nodeId == id {
        assert RepresentsAt(nodes, log, id);
      }
    }

    constructor (maxNodes: nat)
      requires maxNodes < UINT32_RANGE
      ensures Valid() && this.maxNodes == maxNodes && nodes == map[] && log == []
    {
      this.maxNodes := maxNodes;
      nodes := map[];
      log := [];
      new;
      forall id ensures RepresentsAt(nodes, log, id) {
      }
    }

    method RegisterNode(info: NodeInfo, sessionId: string) returns (registered: bool)
      requires Valid()
      modifies this
      ensures Valid()
      ensures registered <==> |old(nodes)| < maxNodes && info.nodeId !in old(nodes)
      ensures registered ==> && nodes == old(nodes)[info.nodeId := NodeEntry(info, sessionId, 0, 0.0, 0.0)]
                             && log == old(log) + [Registered(info, sessionId)]
      ensures !registered ==> nodes == old(nodes) && log == old(log)
    {
      if |nodes| >= maxNodes {
        return false;
      }
      if info.nodeId in nodes {
        return false;
      }
      RegisterRepresents(nodes, log, info, sessionId);
      assert AfterRegister(nodes, info, sessionId).Keys == nodes.Keys + {info.nodeId};
      nodes := nodes[info.nodeId := NodeEntry(info, sessionId, 0, 0.0, 0.0)];
      log := log + [Registered(info, sessionId)];
      return true;
    }

    method DeregisterNode(id: string) returns (removed: bool)
      requires Valid()
      modifies this
      ensures Valid()
      ensures removed <==> id in old(nodes)
      ensures nodes == old(nodes) - {id}
      ensures log == if removed then old(log) + [Deregistered(id)] else old(log)
    {
      if id !in nodes {
        return false;
      }
      DeregisterRepresents(nodes, log, id);
      assert (nodes - {id}).Keys == nodes.Keys - {id};
      nodes := nodes - {id};
      log := log + [Deregistered(id)];
      return true;
    }

    method UpdateHeartbeat(id: string, cpu: Load, mem: Load) returns (found: bool)
      requires Valid()
      modifies this
      ensures Valid()
      ensures found <==> id in old(nodes)
      ensures found ==>
                && nodes.Keys == old(nodes).Keys
                && nodes[id] == old(nodes)[id].(missedHeartbeats := 0, cpuUsage := cpu, memoryUsage := mem)
                && (forall x | x in nodes && x != id :: nodes[x] == old(nodes)[x])
                && log == old(log) + [Beat(id, cpu, mem)]
      ensures !found ==> nodes == old(nodes) && log == old(log)
    {
      if id !in nodes {
        return false;
      }
      HeartbeatRepresents(nodes, log, id, cpu, mem);
      assert AfterHeartbeat(nodes, id, cpu, mem).Keys == nodes.Keys;
      nodes := nodes[id := nodes[id].(missedHeartbeats := 0, cpuUsage := cpu, memoryUsage := mem)];
      log := log + [Beat(id, cpu, mem)];
      return true;
    }

    /** One pass over the table, in whatever order the container has. */
    method GetAllNodes() returns (result: seq<NodeEntry>)
      requires Valid()
      ensures ListsEntries(result, nodes, nodes.Keys)
      ensures |result| == |nodes|
    {
      KeysMatch();
      result := [];
      var unvisited := nodes.Keys;
      while unvisited != {}
        invariant unvisited <= nodes.Keys
        invariant ListsEntries(result, nodes, nodes.Keys - unvisited)
        decreases |unvisited|
      {
        var id :| id in unvisited;
        ListOneMore(result, nodes, nodes.Keys - unvisited, nodes[id]);
        assert nodes.Keys - (unvisited - {id}) == nodes.Keys - unvisited + {id};
        result := result + [nodes[id]];
        unvisited := unvisited - {id};
      }
      assert nodes.Keys - {} == nodes.Keys;
      EnumerationLength(Names(result), nodes.Keys);
    }

    /** Discovery: exactly the healthy entries that offer a requested service, each once. The inner loop stops at the
        first service found, so a node that offers several is still listed once. */
    method GetNodesByService(filter: seq<string>) returns (result: seq<NodeEntry>)
      requires Valid()
      ensures ListsEntries(result, nodes, Discoverable(nodes, filter))
      ensures forall k | 0 <= k < |result| :: result[k].info.nodeId in nodes && result[k] == nodes[result[k].info.nodeId]
      ensures forall k, l | 0 <= k < l < |result| :: result[k].info.nodeId != result[l].info.nodeId
      ensures forall id :: (exists k :: 0 <= k < |result| && result[k].info.nodeId == id)
                      <==> && id in nodes && nodes[id].missedHeartbeats == 0
                           && (filter == [] || exists i, j :: && 0 <= i < |nodes[id].info.services| && 0 <= j < |filter|
                                                              && nodes[id].info.services[i] == filter[j])
    {
      var candidates := GetAllNodes();
      ghost var names := Names(candidates);
      result := [];
      for c := 0 to |candidates|
        invariant ListsEntries(result, nodes, FoundAmong(names, c, nodes, filter))
      {
        var entry := candidates[c];
        ghost var before, found := result, FoundAmong(names, c, nodes, filter);
        FoundOneMore(names, c, nodes, filter);
        if entry.missedHeartbeats > 0 {
          continue;
        }
        if filter == [] {
          ListOneMore(result, nodes, found, entry);
          result := result + [entry];
          continue;
        }
        var services := entry.info.services;
        var i := 0;
        while i < |services|
          invariant 0 <= i <= |services|
          invariant forall k | 0 <= k < i :: services[k] !in filter
          invariant result == before
        {
          if services[i] in filter {
            ListOneMore(result, nodes, found, entry);
            result := result + [entry];
            break;
          }
          i := i + 1;
        }
      }
      assert names[..|candidates|] == names;
      assert FoundAmong(names, |candidates|, nodes, filter) == Discoverable(nodes, filter);
      ListedIffMatching(result, nodes, filter);
    }

    method GetNode(id: string) returns (entry: Option<NodeEntry>)
      requires Valid()
      ensures entry == if id in nodes then Some(nodes[id]) else None
      ensures entry.Some? ==> entry.value.info.nodeId == id
    {
      KeysMatch();
      if id !in nodes {
        return None;
      }
      return Some(nodes[id]);
    }

    /** The cast to `uint32_t` loses nothing. */
    method GetNodeCount() returns (count: nat)
      requires Valid()
      ensures count == |nodes| < UINT32_RANGE
    {
      count := |nodes| % UINT32_RANGE;
    }

    method HasNode(id: string) returns (found: bool)
      requires Valid()
      ensures found <==> id in nodes
    {
      found := id in nodes;
    }

    /** Erases while iterating: each visited node is either erased and reported, or left as it is and passed over. */
    method RemoveStaleNodes(maxMissed: nat) returns (removed: seq<string>)
      requires Valid()
      modifies this
      ensures Valid()
      ensures Enumerates(removed, Stale(old(nodes), maxMissed))
      ensures forall id :: id in removed <==> id in old(nodes) && old(nodes)[id].missedHeartbeats >= maxMissed
      ensures forall id :: id in nodes <==> id in old(nodes) && old(nodes)[id].missedHeartbeats < maxMissed
      ensures forall id | id in nodes :: nodes[id] == old(nodes)[id]
      ensures nodes == AfterRemoveStale(old(nodes), maxMissed)
      ensures log == old(log) + [Evicted(removed)]
      ensures |old(nodes)| == |nodes| + |removed|
    {
      ghost var all := nodes;
      removed := [];
      var unvisited := nodes.Keys;
      while unvisited != {}
        invariant unvisited <= nodes.Keys
        invariant Enumerates(removed, Stale(all, maxMissed) - unvisited)
        invariant nodes == all - (Stale(all, maxMissed) - unvisited)
        invariant log == old(log)
        decreases |unvisited|
      {
        var id :| id in unvisited;
        VisitOne(all, maxMissed, unvisited, removed, id);
        if nodes[id].missedHeartbeats >= maxMissed {
          removed := removed + [id];
          nodes := nodes - {id};
        }
        unvisited := unvisited - {id};
      }
      assert Stale(all, maxMissed) - {} == Stale(all, maxMissed);
      EvictRepresents(all, log, maxMissed, removed);
      RemoveStalePartition(all, maxMissed);
      EnumerationLength(removed, Stale(all, maxMissed));
      log := log + [Evicted(removed)];
    }

    /** The counters are `uint32_t`. */
    method IncrementAllMissedHeartbeats()
      requires Valid()
      modifies this
      ensures Valid()
      ensures nodes.Keys == old(nodes).Keys
      ensures forall id | id in nodes ::
                nodes[id] == old(nodes)[id].(missedHeartbeats := (old(nodes)[id].missedHeartbeats + 1) % 0x1_0000_0000)
      ensures log == old(log) + [Incremented]
    {
      ghost var all := nodes;
      var unvisited := nodes.Keys;
      while unvisited != {}
        invariant unvisited <= nodes.Keys == all.Keys
        invariant forall id | id in all :: nodes[id] == if id in unvisited then all[id] else AfterIncrement(all)[id]
        invariant log == old(log)
        decreases |unvisited|
      {
        var id :| id in unvisited;
        nodes := nodes[id := nodes[id].(missedHeartbeats := Increment32(nodes[id].missedHeartbeats))];
        unvisited := unvisited - {id};
      }
      assert nodes == AfterIncrement(all);
      IncrementRepresents(all, log);
      log := log + [Incremented];
    }
  }
}
