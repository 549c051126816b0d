/** The background checker (src/registry/health_checker.cpp): sleep, increment all counters, remove the stale nodes. */
module HealthCheckers {
  import opened Words
  import opened NodeTypes
  import opened Protocol
  import opened NodeTables
  import opened RegistryServices
  import Detector

  /** What other threads do during one turn of the loop: while it sleeps, and between its two table operations. */
  datatype Turn = Turn(duringSleep: seq<Action>, midTick: seq<Action>)

  predicate OnlyRpcs(calls: seq<Action>) {
    forall a | a in calls :: IsRpc(a)
  }

  /** The steps of one turn in which the given nodes were removed. */
  function TurnSteps(turn: Turn, removed: seq<string>): seq<Action> {
    turn.duringSleep + [Bump] + turn.midTick + [Sweep(removed)]
  }

  /** The steps of all threads over some turns, given what each removed. */
  function Schedule(turns: seq<Turn>, removed: seq<seq<string>>): seq<Action>
    requires |turns| == |removed|
  {
    if turns == [] then []
    else
      var n := |turns| - 1;
      Schedule(turns[..n], removed[..n]) + TurnSteps(turns[n], removed[n])
  }

  lemma SingleStep(c: Config, s: State, a: Action)
    ensures Exec(c, s, [a]) == Step(c, s, a)
    ensures IsRun(c, s, [a]) <==> Enabled(c, s, a)
  {
    assert [a][1..] == [];
  }

  lemma {:induction false} RpcsRun(c: Config, s: State, calls: seq<Action>)
    requires OnlyRpcs(calls)
    ensures IsRun(c, s, calls) && Exec(c, s, calls).phase == s.phase
    decreases |calls|
  {
    if calls != [] {
      assert IsRpc(calls[0]);
      RpcsRun(c, Step(c, s, calls[0]), calls[1..]);
    }
  }

  /** Calls, increment, calls, removal: a run of the protocol that starts and ends between ticks. */
  lemma TurnIsRun(c: Config, s: State, turn: Turn, removed: seq<string>)
    requires s.phase == Idle && OnlyRpcs(turn.duringSleep) && OnlyRpcs(turn.midTick)
    requires var s2 := Exec(c, Step(c, Exec(c, s, turn.duringSleep), Bump), turn.midTick);
             Enumerates(removed, Stale(s2.nodes, c.maxMissed))
    ensures IsRun(c, s, TurnSteps(turn, removed))
    ensures Exec(c, s, TurnSteps(turn, removed)) ==
            Step(c, Exec(c, Step(c, Exec(c, s, turn.duringSleep), Bump), turn.midTick), Sweep(removed))
  {
    var s0 := Exec(c, s, turn.duringSleep);
    var s1 := Step(c, s0, Bump);
    var s2 := Exec(c, s1, turn.midTick);
    RpcsRun(c, s, turn.duringSleep);
    RpcsRun(c, s1, turn.midTick);
    SingleStep(c, s0, Bump);
    SingleStep(c, s2, Sweep(removed));
    RunsCompose(c, s, turn.duringSleep, [Bump]);
    RunsCompose(c, s, turn.duringSleep + [Bump], turn.midTick);
    RunsCompose(c, s, turn.duringSleep + [Bump] + turn.midTick, [Sweep(removed)]);
  }

  lemma {:induction false} SweepsCompose(a: seq<Action>, b: seq<Action>)
    ensures Detector.Sweeps(a + b) == Detector.Sweeps(a) + Detector.Sweeps(b)
    decreases |a|
  {
    if a == [] {
      assert a + b == b;
    } else {
      assert (a + b)[0] == a[0] && (a + b)[1..] == a[1..] + b;
      SweepsCompose(a[1..], b);
    }
  }

  lemma {:induction false} RpcsDoNotSweep(calls: seq<Action>)
    requires OnlyRpcs(calls)
    ensures Detector.Sweeps(calls) == 0
  {
    if calls != [] {
      assert IsRpc(calls[0]);
      RpcsDoNotSweep(calls[1..]);
    }
  }

  /** Each turn of the loop is one complete tick, so silence is measured in turns. */
  lemma {:induction false} TurnsAreTicks(turns: seq<Turn>, removed: seq<seq<string>>)
    requires |turns| == |removed|
    requires forall t | t in turns :: OnlyRpcs(t.duringSleep) && OnlyRpcs(t.midTick)
    ensures Detector.CompleteTicks(Idle, Schedule(turns, removed)) == |turns|
  {
    if turns != [] {
      var n := |turns| - 1;
      var turn := turns[n];
      assert turn in turns;
      TurnsAreTicks(turns[..n], removed[..n]);
      RpcsDoNotSweep(turn.duringSleep);
      RpcsDoNotSweep(turn.midTick);
      SweepsCompose(turn.duringSleep, [Bump]);
      SweepsCompose(turn.duringSleep + [Bump], turn.midTick);
      SweepsCompose(turn.duringSleep + [Bump] + turn.midTick, [Sweep(removed[n])]);
      SweepsCompose(Schedule(turns[..n], removed[..n]), TurnSteps(turn, removed[n]));
    }
  }

  /** Other threads neither beat for `id` nor register it. */
  ghost predicate Quiet(calls: seq<Action>, id: string) {
    Detector.NoHeartbeat(calls, id) && Detector.NoInsertion(calls, id)
  }

  ghost predicate QuietTurns(turns: seq<Turn>, lastSleep: seq<Action>, id: string) {
    && (forall t | t in turns :: Quiet(t.duringSleep, id) && Quiet(t.midTick, id))
    && Quiet(lastSleep, id)
  }

  lemma {:induction false} QuietSchedule(turns: seq<Turn>, removed: seq<seq<string>>, id: string)
    requires |turns| == |removed|
    requires forall t | t in turns :: Quiet(t.duringSleep, id) && Quiet(t.midTick, id)
    ensures Quiet(Schedule(turns, removed), id)
  {
    if turns != [] {
      var n := |turns| - 1;
      assert turns[n] in turns;
      QuietSchedule(turns[..n], removed[..n], id);
      assert Quiet(TurnSteps(turns[n], removed[n]), id);
    }
  }

  lemma SweepsOfRpcs(acts: seq<Action>, calls: seq<Action>)
    requires OnlyRpcs(calls)
    ensures Detector.CompleteTicks(Idle, acts + calls) == Detector.CompleteTicks(Idle, acts)
  {
    SweepsCompose(acts, calls);
    RpcsDoNotSweep(calls);
  }

  /** Completeness of the loop: as many turns as the threshold leave no node that nobody beats for or registers. */
  lemma TurnsEvictTheSilent(c: Config, s: State, turns: seq<Turn>, removed: seq<seq<string>>, lastSleep: seq<Action>,
                            id: string)
    requires c.Representable() && c.maxMissed >= 1 && DetectorInv(c, s) && s.phase == Idle
    requires |turns| == |removed| && |turns| >= c.maxMissed && OnlyRpcs(lastSleep)
    requires forall t | t in turns :: OnlyRpcs(t.duringSleep) && OnlyRpcs(t.midTick)
    requires IsRun(c, s, Schedule(turns, removed) + lastSleep) && QuietTurns(turns, lastSleep, id)
    ensures id !in Exec(c, s, Schedule(turns, removed) + lastSleep).nodes
  {
    TurnsAreTicks(turns, removed);
    SweepsOfRpcs(Schedule(turns, removed), lastSleep);
    QuietSchedule(turns, removed, id);
    Detector.SilentRunEmpties(c, s, Schedule(turns, removed) + lastSleep, id);
  }

  /** The calls of other threads in a run, and those that the turns are made of. */
  function Rpcs(acts: seq<Action>): seq<Action> {
    if acts == [] then [] else (if IsRpc(acts[0]) then [acts[0]] else []) + Rpcs(acts[1..])
  }

  function Calls(turns: seq<Turn>): seq<Action> {
    if turns == [] then []
    else Calls(turns[..|turns| - 1]) + turns[|turns| - 1].duringSleep + turns[|turns| - 1].midTick
  }

  lemma {:induction false} RpcsCompose(a: seq<Action>, b: seq<Action>)
    ensures Rpcs(a + b) == Rpcs(a) + Rpcs(b)
    decreases |a|
  {
    if a == [] {
      assert a + b == b;
    } else {
      assert (a + b)[0] == a[0] && (a + b)[1..] == a[1..] + b;
      RpcsCompose(a[1..], b);
    }
  }

  lemma {:induction false} RpcsOfCalls(calls: seq<Action>)
    requires OnlyRpcs(calls)
    ensures Rpcs(calls) == calls
  {
    if calls != [] {
      assert IsRpc(calls[0]);
      RpcsOfCalls(calls[1..]);
    }
  }

  lemma NotCalls(a: Action)
    requires !IsRpc(a)
    ensures Rpcs([a]) == []
  {
    assert [a][1..] == [];
  }

  lemma OneHalf(calls: seq<Action>, a: Action)
    requires OnlyRpcs(calls) && !IsRpc(a)
    ensures Rpcs(calls + [a]) == calls
  {
    RpcsOfCalls(calls);
    RpcsCompose(calls, [a]);
    NotCalls(a);
  }

  /** A turn performs the calls of other threads that fall in it, all of them, once and in order. */
  lemma TurnKeepsCalls(turn: Turn, removed: seq<string>)
    requires OnlyRpcs(turn.duringSleep) && OnlyRpcs(turn.midTick)
    ensures Rpcs(TurnSteps(turn, removed)) == turn.duringSleep + turn.midTick
  {
    OneHalf(turn.duringSleep, Bump);
    OneHalf(turn.midTick, Sweep(removed));
    var first, second := turn.duringSleep + [Bump], turn.midTick + [Sweep(removed)];
    RpcsCompose(first, second);
    assert TurnSteps(turn, removed) == first + second;
  }

  /** The loop loses, repeats and reorders no call of another thread. */
  lemma {:induction false} ScheduleKeepsCalls(turns: seq<Turn>, removed: seq<seq<string>>)
    requires |turns| == |removed|
    requires forall t | t in turns :: OnlyRpcs(t.duringSleep) && OnlyRpcs(t.midTick)
    ensures Rpcs(Schedule(turns, removed)) == Calls(turns)
  {
    if turns != [] {
      var n := |turns| - 1;
      assert turns[n] in turns;
      ScheduleKeepsCalls(turns[..n], removed[..n]);
      TurnKeepsCalls(turns[n], removed[n]);
      RpcsCompose(Schedule(turns[..n], removed[..n]), TurnSteps(turns[n], removed[n]));
    }
  }

  class HealthChecker {
    const service: RegistryService
    const nodeTable: NodeTable
    const maxMissedHeartbeats: nat
    ghost var phase: Phase

    ghost predicate Valid()
      reads this, service, service.nodeTable
    {
      nodeTable == service.nodeTable && service.Valid()
    }

    ghost function View(): State
      reads this, service, service.nodeTable
    {
      service.View(phase)
    }

    ghost function Cfg(): Config {
      Config(service.nodeTable.maxNodes, maxMissedHeartbeats)
    }

    constructor (service: RegistryService, maxMissedHeartbeats: nat)
      requires service.Valid()
      ensures Valid() && phase == Idle && this.service == service && this.maxMissedHeartbeats == maxMissedHeartbeats
    {
      this.service := service;
      this.nodeTable := service.nodeTable;
      this.maxMissedHeartbeats := maxMissedHeartbeats;
      phase := Idle;
    }

    /** First half of a tick, and the calls that fall before the second. */
    method BeginTick(midTick: seq<Action>)
      requires Valid() && phase == Idle && OnlyRpcs(midTick)
      modifies this, service, service.nodeTable
      ensures Valid() && phase == MidTick
      ensures View() == Exec(Cfg(), Step(Cfg(), old(View()), Bump), midTick)
    {
      ghost var c, s := Cfg(), View();
      nodeTable.IncrementAllMissedHeartbeats();
      phase := MidTick;
      assert View() == Step(c, s, Bump);
      service.Serve(midTick, c, phase);
    }

    /** Second half of a tick. */
    method EndTick() returns (removed: seq<string>)
      requires Valid() && phase == MidTick
      modifies this, service.nodeTable
      ensures Valid() && phase == Idle
      ensures Enumerates(removed, Stale(old(View()).nodes, maxMissedHeartbeats))
      ensures View() == Step(Cfg(), old(View()), Sweep(removed))
      ensures forall id :: id in removed
                      <==> id in old(View()).nodes && old(View()).nodes[id].missedHeartbeats >= maxMissedHeartbeats
      ensures forall id :: id in View().nodes <==> id in old(View()).nodes && id !in removed
    {
      removed := nodeTable.RemoveStaleNodes(maxMissedHeartbeats);
      phase := Idle;
    }

    /** The loop body: sleep, increment, remove. */
    method TakeTurn(turn: Turn) returns (removed: seq<string>)
      requires Valid() && phase == Idle && OnlyRpcs(turn.duringSleep) && OnlyRpcs(turn.midTick)
      modifies this, service, service.nodeTable
      ensures Valid() && phase == Idle
      ensures var ticking := Exec(Cfg(), Step(Cfg(), Exec(Cfg(), old(View()), turn.duringSleep), Bump), turn.midTick);
              Enumerates(removed, Stale(ticking.nodes, maxMissedHeartbeats)) && View() == Step(Cfg(), ticking, Sweep(removed))
      ensures IsRun(Cfg(), old(View()), TurnSteps(turn, removed))
      ensures View() == Exec(Cfg(), old(View()), TurnSteps(turn, removed))
    {
      ghost var c, s := Cfg(), View();
      service.Serve(turn.duringSleep, c, phase);
      BeginTick(turn.midTick);
      removed := EndTick();
      TurnIsRun(c, s, turn, removed);
    }

    /** Whatever other threads do, the loop performs a run of the protocol: in every turn one increment and one removal,
        with exactly the steps of the other threads before and between them. The stop request comes after the given
        turns, either at the top of the loop or during one more sleep, which then ends without a tick. Once the turns
        reach the threshold, every node is gone that nobody beat for or registered meanwhile. */
    method RunLoop(turns: seq<Turn>, lastSleep: seq<Action>) returns (removed: seq<seq<string>>)
      requires Valid() && phase == Idle && OnlyRpcs(lastSleep)
      requires forall t | t in turns :: OnlyRpcs(t.duringSleep) && OnlyRpcs(t.midTick)
      modifies this, service, service.nodeTable
      ensures Valid() && phase == Idle && |removed| == |turns|
      ensures IsRun(Cfg(), old(View()), Schedule(turns, removed) + lastSleep)
      ensures View() == Exec(Cfg(), old(View()), Schedule(turns, removed) + lastSleep)
      ensures Cfg().Representable() && |turns| >= maxMissedHeartbeats >= 1 && DetectorInv(Cfg(), old(View())) ==>
                forall id | QuietTurns(turns, lastSleep, id) :: id !in View().nodes
    {
      ghost var c, start, now := Cfg(), View(), View();
      removed := [];
      for i := 0 to |turns|
        invariant Valid() && phase == Idle && now == View() && |removed| == i
        invariant IsRun(c, start, Schedule(turns[..i], removed))
        invariant now == Exec(c, start, Schedule(turns[..i], removed))
      {
        assert turns[i] in turns;
        var gone := TakeTurn(turns[i]);
        RunsCompose(c, start, Schedule(turns[..i], removed), TurnSteps(turns[i], gone));
        assert turns[..i + 1][..i] == turns[..i] && (removed + [gone])[..i] == removed;
        removed, now := removed + [gone], View();
      }
      assert turns[..|turns|] == turns;
      service.Serve(lastSleep, c, phase);
      RpcsRun(c, now, lastSleep);
      RunsCompose(c, start, Schedule(turns, removed), lastSleep);
      if c.Representable() && |turns| >= maxMissedHeartbeats >= 1 && DetectorInv(c, start) {
        forall id | QuietTurns(turns, lastSleep, id) ensures id !in View().nodes {
          TurnsEvictTheSilent(c, start, turns, removed, lastSleep, id);
        }
      }
    }
  }
}
