# D-RoCM registry and clients: a verified model

D-RoCM is a robot communication middleware. Nodes register with a central registry, beat, and are evicted when they
fall silent; clients back off, register again and resume; a poller resumes coroutines from a completion queue. This
project models those parts in Dafny and proves what they guarantee over every run and every interleaving.

## How it is put together

| file | what it models |
|---|---|
| `Words.dfy` | `uint32_t` wrap-around, powers of two, walks over unordered containers |
| `NodeTypes.dfy` | node records, what each table operation does to the table, the filter algebra of discovery |
| `History.dfy` | the event log of a table, its declarative readings, and the proof that the table is that reading |
| `NodeTable.dfy` | `src/registry/node_table.cpp` as a class, loops included |
| `Session.dfy` | session ids and how they split back |
| `Protocol.dfy` | the registry as a transition system and its invariant |
| `RegistryService.dfy` | `src/registry/registry_service.cpp` as a class; every method is proved to take its protocol step |
| `HealthChecker.dfy` | `src/registry/health_checker.cpp` as a class; its loop is proved to perform a protocol run |
| `Detector.dfy` | failure detection over all runs: exactness, accuracy, completeness |
| `Safety.dfy` | refinement of the log, conservation, session separation, shutdown |
| `HeartbeatClient.dfy` | `run_heartbeat` of `examples/lidar_emulator.cpp` |
| `SelfHealing.dfy` | one client and the registry, message by message with numbered calls, and recovery |
| `NodeBase.dfy` | `calculate_backoff_delay` and `heartbeat_loop` of `src/node/node_base.cpp` |
| `LidarStreams.dfy` | `Subscribe` and `ControlStream` of `examples/lidar_emulator.cpp` |
| `CoroAdapter.dfy` | context ownership in `src/core/coro/coro_adapter.cpp` |

A protocol step is one critical section. A health-checker tick is two of them (increment, then remove) and a Register
call is two (the checks, then the insertion), so calls of other threads, and a shutdown, may fall in between. A run is
any sequence of enabled steps from the initial state. The state carries the log of the operations that took effect;
what the table ought to hold is *read off the log* (`History`), and the classes, the protocol and the theorems meet in
the statement that it does.

The environment is data: answers of the network, of `Write`, of the completion queue, and the random numbers of
session ids are arbitrary inputs. `uint32_t` is written out as arithmetic modulo 2^32 where it can wrap.

## Where code and comments disagree

The model follows the code.

- The backoff is `base * 2^(attempt-1)` (src/node/node_base.cpp:225-229), not `base * 2^attempt` (src/node/node_base.h:22).
- An empty discovery filter returns the healthy nodes (src/registry/node_table.cpp:106-113), not all nodes
  (src/registry/node_table.h:75). It also is no neutral element: `NodeTypes.FilterUnion` says exactly when filters add up.
- The filtering loop runs under the lock (src/registry/node_table.cpp:91-126), against its comment.
- `Heartbeat` and `Deregister` never look at the session id (src/registry/registry_service.cpp:71-76, 99), against
  src/registry/node_table.h:20.
- Session ids use a random number, not a timestamp (src/registry/registry_service.cpp:38-39): two registrations of one
  node share an id whenever the generator repeats (`Session.SessionIdInjective`).
- The 40 ms pause of `Subscribe` and the 10 s cap of the heartbeat backoff are never reached
  (examples/lidar_emulator.cpp:95-101, 236-237).

Some properties hold only under a condition, which is proved to be the exact one: detector exactness needs a threshold
of at least one, or a capacity of zero (`Detector.DetectorExactIff`); the backoff equals the intended one while the last
doubling fits the word or what is left of it exceeds the cap (`NodeBase.BackoffIdealIff`), with the defaults up to
attempt 29 (`NodeBase.DefaultBackoff`), but never on all attempts if it backs off at all (`NodeBase.AlwaysIdealIff`);
and filters add up when both or neither are empty (`NodeTypes.FilterUnion`).

## Model

| member | source | states |
|---|---|---|
| `NodeTypes.RemoveStalePartition` | src/registry/node_table.cpp:154-170 | erasing while iterating splits the table: stale ids go, other entries are unchanged, sizes add up |
| `NodeTypes.FilterUnion` | src/registry/node_table.cpp:103-124 | concatenated filters discover the union on every table if and only if both or neither are empty |
| `NodeTypes.FilterAsSet` | src/registry/node_table.cpp:110-123 | filter order and repetition do not matter, and a filter only narrows the empty one |
| `NodeTypes.MatchMeaning` | src/registry/node_table.cpp:104-123 | a filter accepts a healthy entry exactly if it is empty or some service offered is some service asked for |
| `History.LeaseStartMeaning` | src/registry/node_table.cpp:10-58 | a node is held under the one registration with no later registration or removal |
| `History.LastTouchMeaning` | src/registry/node_table.cpp:60-76 | the last touch is the one registration or heartbeat with no later one |
| `History.SilenceMeaning` | src/registry/node_table.cpp:180-185 | silence is the number of increments after the last touch |
| `History.TicksFromMeaning` | src/registry/node_table.cpp:180-185 | increments from an event on are the increment positions of the log from there |
| `History.HeldIffOdd` | src/registry/node_table.cpp:10-58 | with alternating leases a node is held exactly when registrations and removals are odd in number |
| `History.RegisterRepresents` | src/registry/node_table.cpp:20-41 | registration keeps the table equal to the reading of its log |
| `History.DeregisterRepresents` | src/registry/node_table.cpp:44-58 | so does deregistration |
| `History.HeartbeatRepresents` | src/registry/node_table.cpp:60-76 | so does a heartbeat |
| `History.IncrementRepresents` | src/registry/node_table.cpp:180-185 | so does the increment of all counters, wrapping included |
| `History.EvictRepresents` | src/registry/node_table.cpp:148-178 | so does the removal of the stale nodes, and nodes are conserved |
| `NodeTables.NodeTable.RegisterNode` | src/registry/node_table.cpp:10-42 | registers exactly if there is room and the id is new, and changes nothing otherwise |
| `NodeTables.NodeTable.DeregisterNode` | src/registry/node_table.cpp:44-58 | removes exactly the named node, and reports whether it was there |
| `NodeTables.NodeTable.UpdateHeartbeat` | src/registry/node_table.cpp:60-76 | resets the counter and takes the load figures of exactly the named node |
| `NodeTables.NodeTable.GetAllNodes` | src/registry/node_table.cpp:78-86 | lists every entry once, in some order |
| `NodeTables.NodeTable.GetNodesByService` | src/registry/node_table.cpp:88-127 | lists an id, once, if and only if it is held, healthy, and the filter is empty or shares a service with it |
| `NodeTables.NodeTable.GetNode` | src/registry/node_table.cpp:129-136 | returns the entry stored for the id, which carries that id, or nothing |
| `NodeTables.NodeTable.GetNodeCount` | src/registry/node_table.cpp:138-141 | the cast of the size to `uint32_t` is exact |
| `NodeTables.NodeTable.RemoveStaleNodes` | src/registry/node_table.cpp:148-178 | reports each stale id once, removes exactly those, and the sizes add up |
| `NodeTables.NodeTable.IncrementAllMissedHeartbeats` | src/registry/node_table.cpp:180-185 | adds one, modulo 2^32, to every counter and changes nothing else |
| `Session.DecimalRoundTrip` | src/registry/registry_service.cpp:38-39 | decimal rendering can be read back |
| `Session.ParseIsPositional` | src/registry/registry_service.cpp:38-39 | reading is positional, to base ten |
| `Session.DecimalIsPlain` | src/registry/registry_service.cpp:38-39 | only digits, and no leading zero but in zero itself |
| `Session.SessionIdSplits` | src/registry/registry_service.cpp:38-39 | the last underscore splits a session id back into node id and number |
| `Session.SessionIdInjective` | src/registry/registry_service.cpp:38-39 | two session ids are equal if and only if node id and number are |
| `Protocol.StepRepresents` | src/registry/registry_service.cpp:14-110 | every step keeps the table equal to the reading of its log |
| `Protocol.StepIds` | src/registry/registry_service.cpp:38-48 | only an admitted insertion with room adds an id, and no step changes info or session of a node that stays |
| `Protocol.StepSilence` | src/registry/health_checker.cpp:67-68 | silence grows by one at an increment and falls to zero at a registration or heartbeat |
| `Protocol.SweepIsExact` | src/registry/health_checker.cpp:70-71 | a removal step drops exactly the held ids silent for `maxMissed` increments |
| `Protocol.StepKeepsDetector` | src/registry/health_checker.cpp:67-71 | every enabled step keeps the whole invariant |
| `Protocol.RunKeepsDetector` | src/registry/health_checker.cpp:56-82 | so does every run |
| `RegistryServices.RegistryService.AdmitRegister` | src/registry/registry_service.cpp:19-36 | takes the admission step; status for shutdown, missing info and empty id |
| `RegistryServices.RegistryService.InsertRegister` | src/registry/registry_service.cpp:38-58 | takes the insertion step; granted session and interval, or refusal |
| `RegistryServices.RegistryService.Register` | src/registry/registry_service.cpp:14-59 | the uninterrupted call: succeeds exactly if running, well formed, with room and a new id |
| `RegistryServices.RegistryService.Heartbeat` | src/registry/registry_service.cpp:61-92 | whatever the session id: exactly a known node gets its counter reset and its loads stored, is logged and answered OK; reconnection is asked for exactly when unknown; other entries stay |
| `RegistryServices.RegistryService.Deregister` | src/registry/registry_service.cpp:94-110 | afterwards the node is absent and all others are as before; NOT_FOUND exactly when it was absent already |
| `RegistryServices.RegistryService.Discover` | src/registry/registry_service.cpp:112-133 | answers with the info of each node that is held, healthy and accepted by the filter, once, and no other |
| `RegistryServices.RegistryService.Shutdown` | src/registry/registry_service.cpp:139-145 | clears the running flag, also when repeated, and nothing else |
| `HealthCheckers.HealthChecker.RunLoop` | src/registry/health_checker.cpp:53-85 | whatever other threads do, performs a protocol run: one increment and one removal per turn, their steps around and between; after `maxMissed` turns no node is left that nobody beat for or registered |
| `HealthCheckers.TurnsAreTicks` | src/registry/health_checker.cpp:56-82 | each turn of the loop is one complete tick |
| `HealthCheckers.TurnKeepsCalls` | src/registry/health_checker.cpp:56-71 | a turn performs the calls of other threads that fall in it, all, once and in order |
| `HealthCheckers.ScheduleKeepsCalls` | src/registry/health_checker.cpp:56-82 | so does the whole loop |
| `HealthCheckers.TurnsEvictTheSilent` | src/registry/health_checker.cpp:56-82 | so after `maxMissed` turns a node that nobody beat for or registered is absent |
| `Detector.CounterExact` | src/registry/node_table.cpp:180-185 | on every run a counter is the increments since the last touch, below the threshold between ticks, and never wraps |
| `Detector.DetectorExactIff` | src/registry/node_table.cpp:154-155 | on all runs evictions name exactly the ids silent for `maxMissed` increments, if and only if the threshold is at least one or the capacity is zero |
| `Detector.ZeroThresholdRun` | src/registry/node_table.cpp:155-155 | the run that shows a zero threshold not to be exact |
| `Detector.PunctualNeverEvicted` | src/registry/health_checker.cpp:67-71 | accuracy: a removal spares a node that has beaten within the window for as long as it was held |
| `Detector.SilentIsAbsent` | src/registry/health_checker.cpp:56-71 | completeness: a node silent for `maxMissed` complete ticks and not registered again is absent |
| `Detector.LeaseAges` | src/registry/node_table.cpp:20-36 | a lease that outlives a run without heartbeats was silent throughout, whatever Register calls were tried |
| `Detector.SilentLeaseEnds` | src/registry/health_checker.cpp:56-71 | a lease does not survive `maxMissed` complete ticks without heartbeat |
| `Detector.YoungLeaseLasts` | src/registry/health_checker.cpp:67-71 | a lease lasts while its silence and the complete ticks to come stay below `maxMissed`, unless its node deregisters |
| `Detector.SilentLeaseLastsIff` | src/registry/health_checker.cpp:67-71 | without heartbeats that bound is exact: the lease lasts if and only if |
| `Detector.BeatIsHeard` | src/registry/registry_service.cpp:71-76 | a heartbeat call for a held node is logged and ends its silence |
| `Detector.LeaseLastsIffBeatsInTime` | src/registry/health_checker.cpp:67-71 | over any interleaving, the lease of a node that does not deregister lasts if and only if its heartbeat calls come in time for every removal |
| `Detector.BeatingNodeIsNeverEvicted` | src/registry/health_checker.cpp:67-71 | accuracy by calls: a held node whose heartbeat calls come in time is in no removed list and still held at the end |
| `Detector.DeregisteredIsGone` | src/registry/registry_service.cpp:94-110 | a Deregister call ends the lease at once, and the node stays absent until registered again |
| `Detector.LostLeaseWasClosed` | src/registry/node_table.cpp:44-58 | a lease that ends was deregistered or evicted, and the log says so |
| `Detector.DiscoveredIsFresh` | src/registry/node_table.cpp:104-108 | whatever is discovered registered or beat since the latest increment |
| `Safety.TableRefinesLog` | src/registry/node_table.cpp:10-76 | on every run leases alternate, presence is the last of them, and each entry reads as the log says |
| `Safety.NodesConserved` | src/registry/node_table.cpp:14-36 | node count is registrations minus deregistrations minus evictions, within capacity and within `uint32_t` |
| `Safety.SessionsDistinct` | src/registry/registry_service.cpp:38-41 | distinct live nodes hold distinct sessions, even if the random numbers repeat |
| `Safety.ShutdownIsFinal` | src/registry/registry_service.cpp:19-41 | after a shutdown only ids present or already admitted can be in the table |
| `Safety.ShutdownStopsAdmission` | src/registry/registry_service.cpp:139-145 | from a Shutdown call on no Register is admitted, and ids are confined to those present or admitted then |
| `Safety.ShutdownGatesOnlyAdmission` | src/registry/registry_service.cpp:139-145 | everything but admission proceeds as before |
| `HeartbeatClient.RunHeartbeat` | examples/lidar_emulator.cpp:187-254 | every turn observes and pauses as its answers call for; the session is that of the last granted Register; the history is lawful |
| `HeartbeatClient.AnsweredMeaning` | examples/lidar_emulator.cpp:195-251 | what the answers of a turn call for: Register exactly at a streak of five, a heartbeat otherwise or once granted, each observed with its own outcome and pause |
| `HeartbeatClient.TakeTurn` | examples/lidar_emulator.cpp:195-251 | one turn, branch by branch: observations, pause and next state; neither the shift nor the product leaves 32-bit `int` |
| `HeartbeatClient.PlayKeepsHead` | examples/lidar_emulator.cpp:191-249 | at every loop head at most five failures, five exactly when re-registration is due; Register only then, heartbeats only otherwise, k-th backoff 500 * 2^(k-1) |
| `HeartbeatClient.BackoffUncapped` | examples/lidar_emulator.cpp:236-237 | the 10 s cap is out of reach: no backoff exceeds 8 s |
| `HeartbeatClient.StreakDelayTotal` | examples/lidar_emulator.cpp:234-248 | k failures in a row back off for 500 * (2^k - 1) ms, 15.5 s before a Register |
| `SelfHealing.ProjectionIsRun` | examples/lidar_emulator.cpp:156-182 | every run of clients, network and registry is a protocol run for the registry |
| `SelfHealing.WorldReachable` | examples/lidar_emulator.cpp:187-254 | every reachable world, from the start of the program on, has the invariants used below |
| `SelfHealing.GrantsAreInsertions` | src/registry/registry_service.cpp:38-58 | a call is granted only by the insertion of that very call, which the log shows |
| `SelfHealing.RecoveryIsGenuine` | examples/lidar_emulator.cpp:171-176 | the session a client receives was granted to the Register it waits for, accepted and logged after that was sent |
| `SelfHealing.DueClientIsSilent` | examples/lidar_emulator.cpp:195-209 | a client due for re-registration sends no heartbeat until a Register succeeds |
| `SelfHealing.SilentOrReplaced` | examples/lidar_emulator.cpp:195-209 | a due client's silence ends only with an answer already given to the Register it waits for, or with a registration that replaces the stale one |
| `SelfHealing.StaleEntryGoes` | examples/lidar_emulator.cpp:195-209 | within `maxMissed` complete ticks the stale registration is gone, whatever else happens, unless the client recovers with an answer that the Register it was waiting for already had |
| `SelfHealing.AbsentUntilOwnRegister` | src/registry/node_table.cpp:20-36 | once absent the node stays absent until a Register of the client is accepted |
| `SelfHealing.LostNodeIsNoticed` | src/registry/registry_service.cpp:71-85 | while the node is absent and none of its Registers is accepted, every heartbeat answer heard is a failure; the client is due exactly after those missing to five |
| `SelfHealing.ServedHeartbeat` | src/registry/registry_service.cpp:71-91 | a served heartbeat is answered with a yes exactly if the node is held, and then resets its counter |
| `SelfHealing.LostStaysLost` | examples/lidar_emulator.cpp:222-225 | a request lost on its way is never served |
| `SelfHealing.AgreementLasts` | src/registry/node_table.cpp:60-76 | client and registry agree on the session as long as the lease lasts, which it does if and only if its heartbeats are served in time |
| `SelfHealing.NextRegisterHeals` | examples/lidar_emulator.cpp:171-176 | an accepted Register, whenever the client hears of it, leaves it with that session, which the registry still holds if fewer than `maxMissed` ticks passed - without a late heartbeat, if and only if |
| `SelfHealing.FirstDeliveredRegisterHeals` | examples/lidar_emulator.cpp:195-209 | a due and silent client, after `maxMissed` ticks under any interleaving: the next Register inserted is accepted if and only if there is room, and client and registry then settle on its session |
| `SelfHealing.LostNodeHeals` | examples/lidar_emulator.cpp:195-249 | a client whose node the registry has lost: due exactly after the failures missing to five, then sends Registers only, and the next one inserted heals, under any interleaving |
| `SelfHealing.RecoveryIsPossible` | examples/lidar_emulator.cpp:195-249 | a run exists in which that happens, from every loop head with the node absent and room in a running registry |
| `SelfHealing.RemainingFalls` | src/registry/node_table.cpp:180-185 | the ranking function: each increment lowers it, no other move changes it |
| `NodeBase.CalculateBackoffDelay` | src/node/node_base.cpp:220-233 | the doubling loop in `uint32_t` computes the wrapped, then capped, backoff |
| `NodeBase.BackoffFormula` | src/node/node_base.cpp:225-232 | which is min((base * 2^(attempt-1)) mod 2^32, max) |
| `NodeBase.BackoffWithinRange` | src/node/node_base.cpp:220-233 | while the last doubling fits, it is the intended backoff and never shrinks |
| `NodeBase.BackoffIdealIff` | src/node/node_base.cpp:220-233 | for every strategy, exactly when the wrapped backoff is the intended one |
| `NodeBase.BackoffVanishes` | src/node/node_base.cpp:225-229 | from attempt 33 on there is no backoff, whatever the strategy |
| `NodeBase.AlwaysIdealIff` | src/node/node_base.cpp:220-233 | it is the intended one on all attempts exactly if disabled, or base or cap is zero |
| `NodeBase.DefaultBackoff` | src/node/node_base.h:24-29 | with the defaults it is the intended backoff exactly up to attempt 29, and zero from attempt 30 on |
| `NodeBase.DefaultBackoffMonotone` | src/node/node_base.h:24-29 | with the defaults it shrinks exactly across attempt 30, and never wraps on the attempts made |
| `NodeBase.Node.HeartbeatLoop` | src/node/node_base.cpp:124-218 | every turn does what the answers so far demand; gives up exactly when demands since the last success first exceed the attempts allowed |
| `NodeBase.FollowsMeaning` | src/node/node_base.cpp:156-213 | turn by turn: success, miss, Register with number, backoff by the formula and outcome, or giving up |
| `NodeBase.DemandsMeaning` | src/node/node_base.cpp:172-176 | the attempt counter counts the reconnect requests after the last success |
| `NodeBase.InForceMeaning` | src/node/node_base.cpp:195-199 | session and interval are those of the last successful Register |
| `NodeBase.NapsMeaning` | src/node/node_base.cpp:130-130 | each pause is the interval just granted, or the one before |
| `NodeBase.Node.TakeTurn` | src/node/node_base.cpp:138-214 | one turn: count, delay, new session and interval |
| `NodeBase.RetriesAreDemands` | src/node/node_base.cpp:172-213 | Register calls since the last success count the demands, but for the one on which the loop gives up |
| `NodeBase.RetriesBounded` | src/node/node_base.cpp:174-175 | at most `maxAttempts` Register calls between successes, however they fare |
| `NodeBase.ReconnectedIffRetried` | src/node/node_base.cpp:156-163 | `OnReconnected` fires exactly on a success after at least one Register |
| `LidarStreams.Subscribe` | examples/lidar_emulator.cpp:71-113 | drops exactly at the first three failures in a row; sends exactly the frames written, in order; pauses 10 or 20 ms after each other failed frame; bounded backoff |
| `LidarStreams.PausesBounded` | examples/lidar_emulator.cpp:92-109 | total backoff is at most 30 ms per message sent plus 30 ms |
| `LidarStreams.PausedMeaning` | examples/lidar_emulator.cpp:92-105 | the loop pauses after every failed frame that does not end three failures in a row |
| `LidarStreams.PausesMeaning` | examples/lidar_emulator.cpp:101-105 | 10 ms after a first failure, 20 ms after a second, one pause each |
| `LidarStreams.DeliveredMeaning` | examples/lidar_emulator.cpp:75-112 | delivered frames are the successful writes in order; failed frames are not sent again |
| `LidarStreams.ControlStream` | examples/lidar_emulator.cpp:124-140 | nothing is ever pending or dropped; responses are the session ids up to the first failed write |
| `CoroAdapters.CoroAdapter.Suspend` | src/core/coro/coro_adapter.h:90-104 | queues the context, or frees it if the operation does not start |
| `CoroAdapters.CoroAdapter.ProcessTag` | src/core/coro/coro_adapter.cpp:43-83 | writes only live contexts; the whole life of the context is delivered, resumed at most once with the outcome, freed once if unary |
| `CoroAdapters.CoroAdapter.DrainRemainingTags` | src/core/coro/coro_adapter.cpp:85-105 | takes exactly the leading looks that are offered a queued tag |
| `CoroAdapters.CoroAdapter.PollLoop` | src/core/coro/coro_adapter.cpp:107-128 | looks until stopped or shut down, then drains, and ownership holds throughout |
| `CoroAdapters.BeginStarts` | src/core/coro/coro_adapter.h:90-104 | an operation is queued, or freed at once if it fails to start |
| `CoroAdapters.StartedOps` | src/core/coro/coro_adapter.h:90-104 | so is each of several, under its own address |
| `CoroAdapters.LookDelivers` | src/core/coro/coro_adapter.cpp:53-79 | an offered tag is delivered whatever its outcome: off the queue, resumed with that outcome, freed if unary |
| `CoroAdapters.PolledIsDelivered` | src/core/coro/coro_adapter.cpp:110-119 | over any run, every queued tag the poller is offered before a shutdown is delivered with its outcome, for good |
| `CoroAdapters.DrainedIsDelivered` | src/core/coro/coro_adapter.cpp:90-99 | so is every tag the drain is offered |
| `CoroAdapters.DrainStops` | src/core/coro/coro_adapter.cpp:97-99 | the drain ends at the first look that is offered none |
| `CoroAdapters.ShutDownDrains` | src/core/coro/coro_adapter.cpp:120-124 | a shutdown seen ends the poller with a drain |
| `CoroAdapters.BeginAllKeeps` | src/core/coro/coro_adapter.h:90-104 | operations started meanwhile leave the current context alive and unwritten |
| `CoroAdapters.DeliverKeeps` | src/core/coro/coro_adapter.cpp:43-83 | a delivery finishes its own context and disturbs no other, even if its coroutine starts more |
| `CoroAdapters.PollAllKeeps` | src/core/coro/coro_adapter.cpp:85-128 | ownership holds over every run of poller and drain |
| `CoroAdapters.LiveUnaryContexts` | src/core/coro/coro_adapter.cpp:36-42 | live unary contexts are exactly the queued ones and the one being processed |
| `CoroAdapters.DequeuedAreFinished` | src/core/coro/coro_adapter.cpp:53-79 | a dequeued unary context was freed exactly once, last of all; a stream context never; neither resumed twice |
| `CoroAdapters.QueueEmptyIff` | src/core/coro/coro_adapter.cpp:85-105 | the queue is empty exactly when every context ever started has been finished |
| `CoroAdapters.StopLeavesQueued` | src/core/coro/coro_adapter.cpp:110-127 | a stop request can leave a context queued, live, neither resumed nor freed |

## Left out

- Channels, stubs, deadlines and wire encoding of gRPC: a call is its registry steps, a request that may be
  lost or late, and an answer that may be lost or miss its deadline.
- Wall-clock time and `last_heartbeat`: silence is counted in increments, requested pauses are recorded as numbers.
- Log and error texts, `get_all_nodes` order, `has_node` (a lookup), metrics, transport manager, version.
- `active_connections`, which the table ignores; load figures are carried but not computed with.
- `HealthChecker::start` and `stop`, `Node::start` and `stop`: thread lifecycles. One checker with one threshold is assumed.
- The pause that `Node::heartbeat_loop` takes before it sees a stop request after its sleep (src/node/node_base.cpp:130-136).
- Recovery when every answer to an accepted Register is lost: the node is then held and beats no more, and the same
  `maxMissed` ticks apply again; that some answer arrives is up to the network.
- `cancel_with_timeout`, the `once_flag` of `shutdown`, contexts of an unknown kind, and addresses used again after a
  context is freed: fresh contexts have fresh addresses here.
- That all queued tags are processed when the poller stops: it need not be so when the loop ends on a stop request
  (`CoroAdapters.StopLeavesQueued`).
- `stream_awaiters.h` beyond the fact that a stream context belongs to its awaiter.
