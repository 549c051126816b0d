/** The RPCs of the registry (src/registry/registry_service.cpp), each proved to take its step of the protocol. */
module RegistryServices {
  import opened Words
  import opened NodeTypes
  import opened Session
  import opened Protocol
  import opened History
  import opened NodeTables

  datatype StatusCode = OK | UNAVAILABLE | INVALID_ARGUMENT | ALREADY_EXISTS | NOT_FOUND

  datatype RegisterResponse = RegisterResponse(success: bool, sessionId: string, heartbeatInterval: nat)
  datatype HeartbeatRequest = HeartbeatRequest(nodeId: string, sessionId: string, cpuUsage: Load, memoryUsage: Load)
  datatype HeartbeatResponse = HeartbeatResponse(success: bool, missedHeartbeats: nat, shouldReconnect: bool)

  const HEARTBEAT_INTERVAL_MS: nat := 1000

  predicate IsRpc(a: Action) {
    !a.Bump? && !a.Sweep?
  }

  class RegistryService {
    const nodeTable: NodeTable
    var isRunning: bool
    /** Register calls of other threads between their running check and their insertion. */
    var inFlight: multiset<NodeInfo>

    ghost predicate Valid()
      reads this, nodeTable
    {
      nodeTable.Valid()
    }

    /** The protocol state, given where the health checker is. */
    ghost function View(phase: Phase): State
      reads this, nodeTable
    {
      State(nodeTable.nodes, isRunning, inFlight, phase, nodeTable.log)
    }

    constructor (maxNodes: nat)
      requires maxNodes < UINT32_RANGE
      ensures Valid() && fresh(nodeTable) && nodeTable.maxNodes == maxNodes
      ensures View(Idle) == INITIAL
    {
      nodeTable := new NodeTable(maxNodes);
      isRunning := true;
      inFlight := multiset{};
    }

    /** First half of Register: everything before the session id is drawn. */
    method AdmitRegister(request: RegisterRequest, ghost c: Config, ghost phase: Phase) returns (status: StatusCode)
      requires Valid() && c.maxNodes == nodeTable.maxNodes
      modifies this
      ensures Valid()
      ensures View(phase) == Step(c, old(View(phase)), Admit(request))
      ensures status == if !old(isRunning) then UNAVAILABLE
                        else if request.nodeInfo.None? || request.nodeInfo.value.nodeId == "" then INVALID_ARGUMENT
                        else OK
      ensures isRunning == old(isRunning)
      ensures inFlight == if status == OK then old(inFlight) + multiset{request.nodeInfo.value} else old(inFlight)
    {
      if !isRunning {
        return UNAVAILABLE;
      }
      if request.nodeInfo.None? {
        return INVALID_ARGUMENT;
      }
      if request.nodeInfo.value.nodeId == "" {
        return INVALID_ARGUMENT;
      }
      inFlight := inFlight + multiset{request.nodeInfo.value};
      return OK;
    }

    /** Second half of Register, for a call that was admitted. */
    method InsertRegister(info: NodeInfo, random: nat, ghost c: Config, ghost phase: Phase)
      returns (status: StatusCode, response: RegisterResponse)
      requires Valid() && c.maxNodes == nodeTable.maxNodes
      requires info in inFlight
      modifies this, nodeTable
      ensures Valid()
      ensures View(phase) == Step(c, old(View(phase)), Insert(info, random))
      ensures response.success <==> |old(nodeTable.nodes)| < nodeTable.maxNodes && info.nodeId !in old(nodeTable.nodes)
      ensures status == if response.success then OK else ALREADY_EXISTS
      ensures response == if response.success then RegisterResponse(true, info.nodeId + "_" + Decimal(random), 1000)
                          else RegisterResponse(false, "", 0)
      ensures nodeTable.nodes == if response.success
                                 then old(nodeTable.nodes)[info.nodeId := NodeEntry(info, response.sessionId, 0, 0.0, 0.0)]
                                 else old(nodeTable.nodes)
      ensures isRunning == old(isRunning) && inFlight == old(inFlight) - multiset{info}
    {
      inFlight := inFlight - multiset{info};
      var sessionId := info.nodeId + "_" + Decimal(random);
      var registered := nodeTable.RegisterNode(info, sessionId);
      if !registered {
        return ALREADY_EXISTS, RegisterResponse(false, "", 0);
      }
      return OK, RegisterResponse(true, sessionId, HEARTBEAT_INTERVAL_MS);
    }

    /** A Register call that no other thread interrupts. */
    method Register(request: RegisterRequest, random: nat, ghost c: Config, ghost phase: Phase)
      returns (status: StatusCode, response: RegisterResponse)
      requires Valid() && c.maxNodes == nodeTable.maxNodes
      modifies this, nodeTable
      ensures Valid() && isRunning == old(isRunning) && inFlight == old(inFlight)
      ensures status == if !old(isRunning) then UNAVAILABLE
                        else if request.nodeInfo.None? || request.nodeInfo.value.nodeId == "" then INVALID_ARGUMENT
                        else if && |old(nodeTable.nodes)| < nodeTable.maxNodes
                                && request.nodeInfo.value.nodeId !in old(nodeTable.nodes) then OK
                        else ALREADY_EXISTS
      ensures response.success <==> status == OK
      ensures if status == OK then
                var info := request.nodeInfo.value;
                && response == RegisterResponse(true, info.nodeId + "_" + Decimal(random), 1000)
                && nodeTable.nodes == old(nodeTable.nodes)[info.nodeId := NodeEntry(info, response.sessionId, 0, 0.0, 0.0)]
              else nodeTable.nodes == old(nodeTable.nodes)
    {
      status := AdmitRegister(request, c, phase);
      if status != OK {
        return status, RegisterResponse(false, "", 0);
      }
      status, response := InsertRegister(request.nodeInfo.value, random, c, phase);
    }

    /** The session id of the request is not looked at. */
    method Heartbeat(request: HeartbeatRequest, ghost c: Config, ghost phase: Phase)
      returns (status: StatusCode, response: HeartbeatResponse)
      requires Valid() && c.maxNodes == nodeTable.maxNodes
      modifies nodeTable
      ensures Valid()
      ensures View(phase) ==
              Step(c, old(View(phase)), Protocol.Heartbeat(request.nodeId, request.cpuUsage, request.memoryUsage))
      ensures status == if request.nodeId == "" then INVALID_ARGUMENT
                        else if request.nodeId in old(nodeTable.nodes) then OK else NOT_FOUND
      ensures response.success <==> status == OK
      ensures response.shouldReconnect <==> status == NOT_FOUND
      ensures nodeTable.nodes.Keys == old(nodeTable.nodes).Keys
      ensures forall x | x in nodeTable.nodes ::
                nodeTable.nodes[x] ==
                if x == request.nodeId && status == OK then
                  old(nodeTable.nodes)[x].(missedHeartbeats := 0, cpuUsage := request.cpuUsage,
                                           memoryUsage := request.memoryUsage)
                else old(nodeTable.nodes)[x]
      ensures nodeTable.log == if status == OK
                               then old(nodeTable.log) + [Beat(request.nodeId, request.cpuUsage, request.memoryUsage)]
                               else old(nodeTable.log)
    {
      if request.nodeId == "" {
        return INVALID_ARGUMENT, HeartbeatResponse(false, 0, false);
      }
      var found := nodeTable.UpdateHeartbeat(request.nodeId, request.cpuUsage, request.memoryUsage);
      if !found {
        return NOT_FOUND, HeartbeatResponse(false, 0, true);
      }
      return OK, HeartbeatResponse(true, 0, false);
    }

    method Deregister(id: string, ghost c: Config, ghost phase: Phase) returns (status: StatusCode)
      requires Valid() && c.maxNodes == nodeTable.maxNodes
      modifies nodeTable
      ensures Valid()
      ensures View(phase) == Step(c, old(View(phase)), Protocol.Deregister(id))
      ensures status == if id in old(nodeTable.nodes) then OK else NOT_FOUND
      ensures id !in nodeTable.nodes
      ensures nodeTable.nodes.Keys == old(nodeTable.nodes).Keys - {id}
      ensures forall x | x in nodeTable.nodes :: nodeTable.nodes[x] == old(nodeTable.nodes)[x]
      ensures nodeTable.log == if status == OK then old(nodeTable.log) + [Deregistered(id)] else old(nodeTable.log)
    {
      var removed := nodeTable.DeregisterNode(id);
      status := if removed then OK else NOT_FOUND;
    }

    /** Answers with the infos of exactly the discoverable nodes, each once. */
    method Discover(filter: seq<string>) returns (infos: seq<NodeInfo>)
      requires Valid()
      ensures forall i | 0 <= i < |infos| ::
                infos[i].nodeId in nodeTable.nodes && infos[i] == nodeTable.nodes[infos[i].nodeId].info
      ensures forall k, l | 0 <= k < l < |infos| :: infos[k].nodeId != infos[l].nodeId
      ensures forall id :: (exists k :: 0 <= k < |infos| && infos[k].nodeId == id)
                      <==> && id in nodeTable.nodes && nodeTable.nodes[id].missedHeartbeats == 0
                           && (filter == [] || exists i, j ::
                                 && 0 <= i < |nodeTable.nodes[id].info.services| && 0 <= j < |filter|
                                 && nodeTable.nodes[id].info.services[i] == filter[j])
      ensures Enumerates(seq(|infos|, i requires 0 <= i < |infos| => infos[i].nodeId), Discoverable(nodeTable.nodes, filter))
    {
      var wanted := [];
      for i := 0 to |filter|
        invariant wanted == filter[..i]
      {
        wanted := wanted + [filter[i]];
      }
      assert wanted == filter;
      var entries := nodeTable.GetNodesByService(wanted);
      infos := [];
      for i := 0 to |entries|
        invariant |infos| == i && forall k | 0 <= k < i :: infos[k] == entries[k].info
      {
        infos := infos + [entries[i].info];
      }
      assert seq(|infos|, i requires 0 <= i < |infos| => infos[i].nodeId) == Names(entries);
    }

    method Shutdown(ghost c: Config, ghost phase: Phase)
      requires Valid()
      modifies this
      ensures Valid()
      ensures View(phase) == Step(c, old(View(phase)), Protocol.Shutdown)
      ensures !isRunning && inFlight == old(inFlight)
    {
      isRunning := false;
    }

    /** Calls of other threads, in the order in which their steps happen to fall. */
    method Serve(calls: seq<Action>, ghost c: Config, ghost phase: Phase)
      requires Valid() && c.maxNodes == nodeTable.maxNodes
      requires forall a | a in calls :: IsRpc(a)
      modifies this, nodeTable
      ensures Valid()
      ensures View(phase) == Exec(c, old(View(phase)), calls)
    {
      for i := 0 to |calls|
        invariant Valid()
        invariant View(phase) == Exec(c, old(View(phase)), calls[..i])
      {
        RunsCompose(c, old(View(phase)), calls[..i], [calls[i]]);
        assert calls[..i + 1] == calls[..i] + [calls[i]];
        assert IsRpc(calls[i]);
        ghost var s := View(phase);
        assert Exec(c, s, [calls[i]]) == Step(c, s, calls[i]) by {
          assert [calls[i]][1..] == [];
        }
        match calls[i] {
          case Admit(request) =>
            var _ := AdmitRegister(request, c, phase);
          case Insert(info, random) =>
            if info in inFlight {
              var _, _ := InsertRegister(info, random, c, phase);
            }
          case Heartbeat(id, cpu, mem) =>
            var _, _ := Heartbeat(HeartbeatRequest(id, "", cpu, mem), c, phase);
          case Deregister(id) =>
            var _ := Deregister(id, c, phase);
          case Discover(filter) =>
            var _ := Discover(filter);
          case Shutdown =>
            Shutdown(c, phase);
        }
      }
      assert calls[..|calls|] == calls;
    }
  }
}
