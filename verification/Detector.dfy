/** The registry as a failure detector: what holds of counters and evictions on every run, under every interleaving. */
module Detector {
  import opened Words
  import opened NodeTypes
  import opened History
  import opened Session
  import opened Protocol

  // --- Exactness -------------------------------------------------------------------------------

  lemma Reachable(c: Config, acts: seq<Action>)
    requires c.Representable() && c.maxMissed >= 1 && IsRun(c, INITIAL, acts)
    ensures DetectorInv(c, Exec(c, INITIAL, acts))
  {
    InitialInv(c);
    RunKeepsDetector(c, INITIAL, acts);
  }

  lemma CounterBound(c: Config, s: State, id: string)
    requires c.Representable() && DetectorInv(c, s) && id in s.nodes
    ensures s.nodes[id].missedHeartbeats == Silence(s.log, id) <= SilenceBound(c, s.phase)
  {
    CountersAreSilence(c, s);
  }

  /** On every run, a counter is the number of increments since the node last registered or beat; it stays below the
      threshold between ticks and at most reaches it within one, so the next increment never wraps. */
  lemma CounterExact(c: Config, acts: seq<Action>, id: string)
    requires c.Representable() && c.maxMissed >= 1
    requires IsRun(c, INITIAL, acts) && id in Exec(c, INITIAL, acts).nodes
    ensures var s := Exec(c, INITIAL, acts);
            && s.nodes[id].missedHeartbeats == Silence(s.log, id)
            && s.nodes[id].missedHeartbeats <= c.maxMissed
            && (s.phase == Idle ==>
                  && s.nodes[id].missedHeartbeats < c.maxMissed
                  && AfterIncrement(s.nodes)[id].missedHeartbeats == s.nodes[id].missedHeartbeats + 1 < UINT32_RANGE)
  {
    Reachable(c, acts);
    CounterBound(c, Exec(c, INITIAL, acts), id);
  }

  const SOLE: NodeInfo := NodeInfo("n", "", 0, [], 0)

  lemma SilenceOfOne(sid: string)
    ensures Silence([Registered(SOLE, sid), Incremented], "n") == 1
  {
    var log := [Registered(SOLE, sid)];
    assert [Registered(SOLE, sid), Incremented] == log + [Incremented];
    ExtendSilence(log, Incremented, "n");
  }

  /** With a threshold of zero a node is removed at its first sweep, after one increment rather than none. */
  lemma ZeroThresholdRun(c: Config) returns (acts: seq<Action>)
    requires c.maxMissed == 0 && c.maxNodes >= 1
    ensures IsRun(c, INITIAL, acts) && !EvictionsExact(Exec(c, INITIAL, acts).log, 0)
  {
    var sid := SessionId("n", 0);
    var s0 := INITIAL.(inFlight := multiset{SOLE});
    var s1 := State(map["n" := NewEntry(SOLE, sid)], true, multiset{}, Idle, [Registered(SOLE, sid)]);
    var s2 := State(map["n" := NewEntry(SOLE, sid).(missedHeartbeats := 1)], true, multiset{}, MidTick,
                    [Registered(SOLE, sid), Incremented]);
    var a0, a1, a3 := Admit(RegisterRequest(Some(SOLE))), Insert(SOLE, 0), Sweep(["n"]);
    assert Step(c, INITIAL, a0) == s0;
    assert Step(c, s0, a1) == s1 by {
      assert multiset{SOLE} - multiset{SOLE} == multiset{};
    }
    assert Step(c, s1, Bump) == s2;
    assert Enabled(c, s2, a3) by {
      assert Stale(s2.nodes, 0) == {"n"};
    }
    acts := [a0, a1, Bump, a3];
    var s3 := Step(c, s2, a3);
    assert [a3][1..] == [] && [Bump, a3][1..] == [a3] && [a1, Bump, a3][1..] == [Bump, a3] && acts[1..] == [a1, Bump, a3];
    assert Exec(c, s3, []) == s3 && Exec(c, s2, [a3]) == s3;
    assert Exec(c, s1, [Bump, a3]) == s3 && Exec(c, s0, [a1, Bump, a3]) == s3;
    assert IsRun(c, s3, []) && IsRun(c, s2, [a3]) && IsRun(c, s1, [Bump, a3]) && IsRun(c, s0, [a1, Bump, a3]);
    assert s3.log == s2.log + [Evicted(["n"])] && s3.log[..2] == s2.log;
    SilenceOfOne(sid);
    assert "n" in s3.log[2].ids;
    assert !EvictionExactAt(s3.log, 0, 2);
  }

  /** The detector is exact on all runs - every removal by age names precisely the held ids that were silent for
      `maxMissed` increments - if and only if the threshold is at least one (or nothing can be registered). */
  lemma DetectorExactIff(c: Config)
    requires c.Representable()
    ensures (c.maxMissed >= 1 || c.maxNodes == 0)
       <==> (forall acts | IsRun(c, INITIAL, acts) :: EvictionsExact(Exec(c, INITIAL, acts).log, c.maxMissed))
  {
    if c.maxMissed >= 1 {
      forall acts | IsRun(c, INITIAL, acts)
        ensures EvictionsExact(Exec(c, INITIAL, acts).log, c.maxMissed)
      {
        InitialInv(c);
        RunKeepsDetector(c, INITIAL, acts);
      }
    } else if c.maxNodes >= 1 {
      var acts := ZeroThresholdRun(c);
      assert !EvictionsExact(Exec(c, INITIAL, acts).log, c.maxMissed);
    } else {
      forall acts | IsRun(c, INITIAL, acts)
        ensures EvictionsExact(Exec(c, INITIAL, acts).log, c.maxMissed)
      {
        EmptyTableRun(c, INITIAL, acts);
      }
    }
  }

  lemma {:induction false} EmptyTableRun(c: Config, s: State, acts: seq<Action>)
    requires c.maxNodes == 0 && s.nodes == map[] && Represents(s.nodes, s.log) && EvictionsExact(s.log, c.maxMissed)
    requires IsRun(c, s, acts)
    ensures EvictionsExact(Exec(c, s, acts).log, c.maxMissed)
    decreases |acts|
  {
    if acts != [] {
      var a, s' := acts[0], Step(c, s, acts[0]);
      StepRepresents(c, s, a);
      StepLogs(c, s, a);
      StepIds(c, s, a);
      assert s'.nodes == map[];
      if Logged(c, s, a).Some? {
        forall id ensures LeaseStart(s.log, id) < 0 {
          assert RepresentsAt(s.nodes, s.log, id);
        }
        EvictionsExtend(s.log, Logged(c, s, a).value, c.maxMissed);
      }
      EmptyTableRun(c, s', acts[1..]);
    }
  }

  // --- Accuracy --------------------------------------------------------------------------------

  /** Increments strictly between events `i` and `j`. */
  function TicksBetween(log: seq<Event>, i: nat, j: nat): nat
    requires i < j <= |log|
  {
    TicksFrom(log[..j], i + 1)
  }

  /** While `id` is held, the next registration or heartbeat of it comes before `window` increments have passed since the
      previous one. */
  ghost predicate Punctual(log: seq<Event>, id: string, window: nat) {
    forall i: nat, j: nat |
      i < j <= |log| && Touches(log[i], id) && TicksBetween(log, i, j) >= window && LeaseStart(log[..j], id) >= 0 ::
      exists k :: i < k < j && Touches(log[k], id)
  }

  lemma PunctualIsSpared(log: seq<Event>, id: string, window: nat)
    requires Punctual(log, id, window)
    ensures !(LeaseStart(log, id) >= 0 && Silence(log, id) == window)
  {
    if LeaseStart(log, id) >= 0 && Silence(log, id) == window {
      var i := LastTouch(log, id);
      LastTouchMeaning(log, id, LeaseStart(log, id));
      SilenceMeaning(log, id);
      assert log[..|log|] == log;
      assert Touches(log[i], id) && TicksBetween(log, i, |log|) == window;
      var j :| i < j < |log| && Touches(log[j], id);
      LastTouchMeaning(log, id, j);
    }
  }

  /** Accuracy: a node that has beaten within the window while it was held, up to some removal by age, is not among the
      removed; what it does afterwards, or after leaving of its own accord, does not matter. */
  lemma PunctualNeverEvicted(c: Config, acts: seq<Action>, id: string, k: nat)
    requires c.Representable() && c.maxMissed >= 1 && IsRun(c, INITIAL, acts)
    requires var log := Exec(c, INITIAL, acts).log;
             k < |log| && log[k].Evicted? && Punctual(log[..k], id, c.maxMissed)
    ensures id !in Exec(c, INITIAL, acts).log[k].ids
  {
    Reachable(c, acts);
    var log := Exec(c, INITIAL, acts).log;
    assert EvictionExactAt(log, c.maxMissed, k);
    PunctualIsSpared(log[..k], id, c.maxMissed);
  }

  // --- Completeness ----------------------------------------------------------------------------

  function Bumps(acts: seq<Action>): nat {
    if acts == [] then 0 else (if acts[0].Bump? then 1 else 0) + Bumps(acts[1..])
  }

  function Sweeps(acts: seq<Action>): nat {
    if acts == [] then 0 else (if acts[0].Sweep? then 1 else 0) + Sweeps(acts[1..])
  }

  /** Ticks both begun and finished within the run; if it starts within a tick, the first sweep only ends that one. */
  function CompleteTicks(start: Phase, acts: seq<Action>): int {
    Sweeps(acts) - if start == MidTick then 1 else 0
  }

  ghost predicate NoHeartbeat(acts: seq<Action>, id: string) {
    forall a | a in acts && a.Heartbeat? :: a.id != id
  }

  /** Increments and sweeps alternate. */
  lemma {:induction false} PhasesBalance(c: Config, s: State, acts: seq<Action>)
    requires IsRun(c, s, acts)
    ensures Bumps(acts) + (if s.phase == MidTick then 1 else 0)
         == Sweeps(acts) + (if Exec(c, s, acts).phase == MidTick then 1 else 0)
    decreases |acts|
  {
    if acts != [] {
      PhasesBalance(c, Step(c, s, acts[0]), acts[1..]);
    }
  }

  lemma StepLease(c: Config, s: State, a: Action, id: string)
    ensures LeaseStart(Step(c, s, a).log, id) ==
            match Logged(c, s, a)
            case None => LeaseStart(s.log, id)
            case Some(e) => if Opens(e, id) then |s.log| else if Closes(e, id) then -1 else LeaseStart(s.log, id)
  {
    StepLogs(c, s, a);
    if Logged(c, s, a).Some? {
      ExtendLease(s.log, Logged(c, s, a).value, id);
    }
  }

  /** A lease that outlives a run without heartbeats has been silent for every increment of the run. Attempts to
      register the id again do not help it: they are refused while the lease lasts. */
  lemma {:induction false} LeaseAges(c: Config, s: State, acts: seq<Action>, id: string)
    requires NoHeartbeat(acts, id)
    requires 0 <= LeaseStart(Exec(c, s, acts).log, id) < |s.log|
    ensures LeaseStart(s.log, id) == LeaseStart(Exec(c, s, acts).log, id)
    ensures Silence(Exec(c, s, acts).log, id) == Silence(s.log, id) + Bumps(acts)
    decreases |acts|
  {
    if acts != [] {
      var a, s' := acts[0], Step(c, s, acts[0]);
      StepLogs(c, s, a);
      StepLease(c, s, a, id);
      StepSilence(c, s, a, id);
      assert a in acts;
      forall b | b in acts[1..] && b.Heartbeat? ensures b.id != id {
        assert b in acts;
      }
      LeaseAges(c, s', acts[1..], id);
    }
  }

  /** The ranking argument of recovery: whatever the interleaving, a lease present at the start of a run with no
      heartbeat and `maxMissed` complete ticks is gone at its end. If the id is held then, it was registered anew. */
  lemma SilentLeaseEnds(c: Config, s: State, acts: seq<Action>, id: string)
    requires c.Representable() && c.maxMissed >= 1
    requires DetectorInv(c, s) && IsRun(c, s, acts) && NoHeartbeat(acts, id)
    requires CompleteTicks(s.phase, acts) >= c.maxMissed
    ensures var e := Exec(c, s, acts); id in e.nodes ==> LeaseStart(e.log, id) >= |s.log|
  {
    var e := Exec(c, s, acts);
    RunKeepsDetector(c, s, acts);
    assert RepresentsAt(e.nodes, e.log, id);
    if id in e.nodes && LeaseStart(e.log, id) < |s.log| {
      LeaseAges(c, s, acts, id);
      PhasesBalance(c, s, acts);
      assert false;
    }
  }

  /** Every registration in the log of a run comes from an insertion in the run. */
  lemma {:induction false} OpeningsAreInsertions(c: Config, s: State, acts: seq<Action>, id: string, k: nat)
    requires |s.log| <= k < |Exec(c, s, acts).log| && Opens(Exec(c, s, acts).log[k], id)
    ensures exists a :: a in acts && a.Insert? && a.info.nodeId == id
    decreases |acts|
  {
    var a, s' := acts[0], Step(c, s, acts[0]);
    StepLogs(c, s, a);
    LogGrows(c, s', acts[1..]);
    if k < |s'.log| {
      assert s'.log[k] == Exec(c, s, acts).log[k];
      assert a in acts && a.Insert? && a.info.nodeId == id;
    } else {
      OpeningsAreInsertions(c, s', acts[1..], id, k);
      var b :| b in acts[1..] && b.Insert? && b.info.nodeId == id;
      assert b in acts;
    }
  }

  ghost predicate NoInsertion(acts: seq<Action>, id: string) {
    forall a | a in acts && a.Insert? :: a.info.nodeId != id
  }

  lemma SilentRunEmpties(c: Config, s: State, acts: seq<Action>, id: string)
    requires c.Representable() && c.maxMissed >= 1
    requires DetectorInv(c, s) && IsRun(c, s, acts) && NoHeartbeat(acts, id) && NoInsertion(acts, id)
    requires CompleteTicks(s.phase, acts) >= c.maxMissed
    ensures id !in Exec(c, s, acts).nodes
  {
    SilentLeaseEnds(c, s, acts, id);
    RunKeepsDetector(c, s, acts);
    var e := Exec(c, s, acts);
    assert RepresentsAt(e.nodes, e.log, id);
    if id in e.nodes {
      OpeningsAreInsertions(c, s, acts, id, LeaseStart(e.log, id));
    }
  }

  /** Completeness: a node that neither beats nor is registered again for `maxMissed` complete ticks is absent. */
  lemma SilentIsAbsent(c: Config, first: seq<Action>, acts: seq<Action>, id: string)
    requires c.Representable() && c.maxMissed >= 1
    requires IsRun(c, INITIAL, first + acts)
    requires NoHeartbeat(acts, id) && NoInsertion(acts, id)
    requires CompleteTicks(Exec(c, INITIAL, first).phase, acts) >= c.maxMissed
    ensures id !in Exec(c, INITIAL, first + acts).nodes
  {
    RunsCompose(c, INITIAL, first, acts);
    Reachable(c, first);
    SilentRunEmpties(c, Exec(c, INITIAL, first), acts, id);
  }

  ghost predicate NoDeregister(acts: seq<Action>, id: string) {
    forall a | a in acts && a.Deregister? :: a.id != id
  }

  lemma StepKeepsYoungLease(c: Config, s: State, a: Action, id: string)
    requires c.Representable() && DetectorInv(c, s) && Enabled(c, s, a)
    requires LeaseStart(s.log, id) >= 0 && (a.Deregister? ==> a.id != id)
    requires a.Sweep? ==> Silence(s.log, id) < c.maxMissed
    ensures LeaseStart(Step(c, s, a).log, id) == LeaseStart(s.log, id)
  {
    assert RepresentsAt(s.nodes, s.log, id);
    StepLogs(c, s, a);
    StepLease(c, s, a, id);
    if a.Sweep? {
      SweepIsExact(c, s, a.removed);
    }
  }

  /** A lease lasts for as long as its silence and the complete ticks that follow stay below `maxMissed`, unless its node
      deregisters. */
  lemma {:induction false} YoungLeaseLasts(c: Config, s: State, acts: seq<Action>, id: string)
    requires c.Representable() && c.maxMissed >= 1
    requires DetectorInv(c, s) && IsRun(c, s, acts) && NoDeregister(acts, id)
    requires LeaseStart(s.log, id) >= 0 && Silence(s.log, id) + CompleteTicks(s.phase, acts) < c.maxMissed
    ensures LeaseStart(Exec(c, s, acts).log, id) == LeaseStart(s.log, id)
    decreases |acts|
  {
    if acts != [] {
      var a, s' := acts[0], Step(c, s, acts[0]);
      assert a in acts;
      forall b | b in acts[1..] && b.Deregister? ensures b.id != id {
        assert b in acts;
      }
      StepKeepsYoungLease(c, s, a, id);
      StepSilence(c, s, a, id);
      StepKeepsDetector(c, s, a);
      YoungLeaseLasts(c, s', acts[1..], id);
    }
  }

  /** Without heartbeats that bound is exact: over a run with neither heartbeat nor deregistration of its node, a lease
      lasts if and only if its silence and the complete ticks of the run stay below `maxMissed`. */
  lemma SilentLeaseLastsIff(c: Config, s: State, acts: seq<Action>, id: string)
    requires c.Representable() && c.maxMissed >= 1
    requires DetectorInv(c, s) && IsRun(c, s, acts) && NoDeregister(acts, id) && NoHeartbeat(acts, id)
    requires LeaseStart(s.log, id) >= 0
    ensures LeaseStart(Exec(c, s, acts).log, id) == LeaseStart(s.log, id)
       <==> Silence(s.log, id) + CompleteTicks(s.phase, acts) < c.maxMissed
  {
    var e := Exec(c, s, acts);
    if LeaseStart(e.log, id) == LeaseStart(s.log, id) {
      LeaseAges(c, s, acts, id);
      PhasesBalance(c, s, acts);
      RunKeepsDetector(c, s, acts);
      assert RepresentsAt(e.nodes, e.log, id);
    }
    if Silence(s.log, id) + CompleteTicks(s.phase, acts) < c.maxMissed {
      YoungLeaseLasts(c, s, acts, id);
    }
  }

  // --- Accuracy and completeness in terms of calls ---------------------------------------------

  predicate IsBeat(a: Action, id: string) {
    a.Heartbeat? && a.id == id
  }

  /** A heartbeat call for a held node takes effect: its silence ends. */
  lemma BeatIsHeard(c: Config, s: State, cpu: Load, mem: Load, id: string)
    requires Inv(c, s) && id in s.nodes
    ensures var s' := Step(c, s, Heartbeat(id, cpu, mem));
            && s'.log == s.log + [Beat(id, cpu, mem)] && Silence(s'.log, id) == 0
            && id in s'.nodes && s'.nodes[id].missedHeartbeats == 0
  {
    assert id != "";
    ExtendSilence(s.log, Beat(id, cpu, mem), id);
  }

  /** What a step does to the silence of a held node, in terms of the call itself. */
  lemma HeldSilence(c: Config, s: State, a: Action, id: string)
    requires Inv(c, s) && id in s.nodes
    ensures Silence(Step(c, s, a).log, id) == if IsBeat(a, id) then 0 else Silence(s.log, id) + if a.Bump? then 1 else 0
  {
    StepLogs(c, s, a);
    StepSilence(c, s, a, id);
    if IsBeat(a, id) {
      BeatIsHeard(c, s, a.cpu, a.mem, id);
    }
  }

  /** Whenever stale nodes are removed, a heartbeat call for `id` came after the last `window` increments had begun: every
      stretch of calls that ends there with `window` increments or more contains one. A stretch from the very start counts
      with the silence there was before. */
  ghost predicate BeatsInTime(acts: seq<Action>, id: string, window: nat, silence: nat) {
    forall i, j | 0 <= i <= j < |acts| && acts[j].Sweep? && Bumps(acts[i..j]) + (if i == 0 then silence else 0) >= window ::
      exists k :: i <= k < j && IsBeat(acts[k], id)
  }

  lemma BumpsHead(acts: seq<Action>, j: nat)
    requires 0 < j <= |acts|
    ensures Bumps(acts[..j]) == Bumps(acts[1..][..j - 1]) + if acts[0].Bump? then 1 else 0
  {
    assert acts[..j][1..] == acts[1..][..j - 1];
  }

  lemma BeatsInTimeTail(acts: seq<Action>, id: string, window: nat, silence: nat, silence': nat)
    requires acts != [] && BeatsInTime(acts, id, window, silence)
    requires silence' == if IsBeat(acts[0], id) then 0 else silence + if acts[0].Bump? then 1 else 0
    ensures BeatsInTime(acts[1..], id, window, silence')
    ensures acts[0].Sweep? ==> silence < window
  {
    var rest := acts[1..];
    forall i, j | 0 <= i <= j < |rest| && rest[j].Sweep? && Bumps(rest[i..j]) + (if i == 0 then silence' else 0) >= window
      ensures exists k :: i <= k < j && IsBeat(rest[k], id)
    {
      assert acts[i + 1..j + 1] == rest[i..j] && acts[j + 1].Sweep?;
      BumpsHead(acts, j + 1);
      assert acts[0..j + 1] == acts[..j + 1] && rest[0..j] == rest[..j];
      var from := if i == 0 && !IsBeat(acts[0], id) then 0 else i + 1;
      var k :| from <= k < j + 1 && IsBeat(acts[k], id);
      assert rest[k - 1] == acts[k];
    }
    assert acts[0..0] == [];
  }

  lemma BeatsInTimeCons(acts: seq<Action>, id: string, window: nat, silence: nat, silence': nat)
    requires acts != [] && BeatsInTime(acts[1..], id, window, silence')
    requires silence' == if IsBeat(acts[0], id) then 0 else silence + if acts[0].Bump? then 1 else 0
    requires acts[0].Sweep? ==> silence < window
    ensures BeatsInTime(acts, id, window, silence)
  {
    var rest := acts[1..];
    assert acts[0..0] == [];
    forall i, j | 0 <= i <= j < |acts| && acts[j].Sweep? && Bumps(acts[i..j]) + (if i == 0 then silence else 0) >= window
      ensures exists k :: i <= k < j && IsBeat(acts[k], id)
    {
      if j > 0 && !(i == 0 && IsBeat(acts[0], id)) {
        var from := if i == 0 then 0 else i - 1;
        BumpsHead(acts, j);
        assert acts[0..j] == acts[..j] && rest[0..j - 1] == rest[..j - 1];
        assert i > 0 ==> rest[i - 1..j - 1] == acts[i..j];
        assert rest[j - 1].Sweep?;
        var k :| from <= k < j - 1 && IsBeat(rest[k], id);
        assert acts[k + 1] == rest[k];
      }
    }
  }

  /** A lease that outlives a run was held all along. */
  lemma {:induction false} LeaseWasHeld(c: Config, s: State, acts: seq<Action>, id: string)
    requires 0 <= LeaseStart(Exec(c, s, acts).log, id) < |s.log|
    ensures LeaseStart(s.log, id) == LeaseStart(Exec(c, s, acts).log, id)
    decreases |acts|
  {
    if acts != [] {
      StepLogs(c, s, acts[0]);
      StepLease(c, s, acts[0], id);
      LeaseWasHeld(c, Step(c, s, acts[0]), acts[1..], id);
    }
  }

  lemma SweepEndsOldLease(c: Config, s: State, removed: seq<string>, id: string)
    requires c.Representable() && DetectorInv(c, s) && Enabled(c, s, Sweep(removed))
    requires LeaseStart(s.log, id) >= 0
    ensures LeaseStart(Step(c, s, Sweep(removed)).log, id) == LeaseStart(s.log, id) <==> Silence(s.log, id) < c.maxMissed
  {
    assert RepresentsAt(s.nodes, s.log, id);
    SweepIsExact(c, s, removed);
    StepLease(c, s, Sweep(removed), id);
  }

  /** The detector in terms of calls: over any run in which a held node does not deregister, its lease lasts if and only if
      its heartbeat calls come in time. */
  lemma {:induction false} LeaseLastsIffBeatsInTime(c: Config, s: State, acts: seq<Action>, id: string)
    requires c.Representable() && c.maxMissed >= 1
    requires DetectorInv(c, s) && IsRun(c, s, acts) && NoDeregister(acts, id)
    requires LeaseStart(s.log, id) >= 0
    ensures LeaseStart(Exec(c, s, acts).log, id) == LeaseStart(s.log, id)
       <==> BeatsInTime(acts, id, c.maxMissed, Silence(s.log, id))
    decreases |acts|
  {
    if acts != [] {
      var a, s' := acts[0], Step(c, s, acts[0]);
      var silence, silence' := Silence(s.log, id), Silence(s'.log, id);
      assert a in acts;
      forall b | b in acts[1..] && b.Deregister? ensures b.id != id {
        assert b in acts;
      }
      assert RepresentsAt(s.nodes, s.log, id);
      HeldSilence(c, s, a, id);
      StepKeepsDetector(c, s, a);
      if a.Sweep? {
        SweepEndsOldLease(c, s, a.removed, id);
      } else {
        StepKeepsYoungLease(c, s, a, id);
      }
      StepLogs(c, s, a);
      if LeaseStart(Exec(c, s, acts).log, id) == LeaseStart(s.log, id) {
        LeaseWasHeld(c, s', acts[1..], id);
        LeaseLastsIffBeatsInTime(c, s', acts[1..], id);
        BeatsInTimeCons(acts, id, c.maxMissed, silence, silence');
      }
      if BeatsInTime(acts, id, c.maxMissed, silence) {
        BeatsInTimeTail(acts, id, c.maxMissed, silence, silence');
        LeaseLastsIffBeatsInTime(c, s', acts[1..], id);
      }
    }
  }

  /** Accuracy in terms of calls: a node that is held, and whose heartbeat calls come in time from then on, is in no list of
      removed nodes, and still held at the end. */
  lemma BeatingNodeIsNeverEvicted(c: Config, first: seq<Action>, acts: seq<Action>, id: string)
    requires c.Representable() && c.maxMissed >= 1 && IsRun(c, INITIAL, first + acts)
    requires var s := Exec(c, INITIAL, first);
             && id in s.nodes && NoDeregister(acts, id) && BeatsInTime(acts, id, c.maxMissed, Silence(s.log, id))
    ensures var s, e := Exec(c, INITIAL, first), Exec(c, INITIAL, first + acts);
            && id in e.nodes
            && forall k | |s.log| <= k < |e.log| && e.log[k].Evicted? :: id !in e.log[k].ids
  {
    RunsCompose(c, INITIAL, first, acts);
    Reachable(c, first);
    Reachable(c, first + acts);
    var s, e := Exec(c, INITIAL, first), Exec(c, INITIAL, first + acts);
    assert RepresentsAt(s.nodes, s.log, id) && RepresentsAt(e.nodes, e.log, id);
    LeaseLastsIffBeatsInTime(c, s, acts, id);
    LeaseStartMeaning(e.log, id, LeaseStart(e.log, id));
  }

  lemma {:induction false} AbsentStaysAbsent(c: Config, s: State, acts: seq<Action>, id: string)
    requires id !in s.nodes && NoInsertion(acts, id)
    ensures id !in Exec(c, s, acts).nodes
    decreases |acts|
  {
    if acts != [] {
      assert acts[0] in acts;
      StepIds(c, s, acts[0]);
      forall b | b in acts[1..] && b.Insert? ensures b.info.nodeId != id {
        assert b in acts;
      }
      AbsentStaysAbsent(c, Step(c, s, acts[0]), acts[1..], id);
    }
  }

  /** A Deregister call ends the lease of a held node at once, the log says so, and the node stays absent until it is
      registered again. */
  lemma DeregisteredIsGone(c: Config, s: State, acts: seq<Action>, id: string)
    requires Inv(c, s) && id in s.nodes && NoInsertion(acts, id)
    ensures var s' := Step(c, s, Deregister(id));
            && s'.log == s.log + [Deregistered(id)] && LeaseStart(s'.log, id) < 0
            && id !in s'.nodes && (forall x | x in s.nodes && x != id :: x in s'.nodes && s'.nodes[x] == s.nodes[x])
            && id !in Exec(c, s', acts).nodes
  {
    ExtendLease(s.log, Deregistered(id), id);
    AbsentStaysAbsent(c, Step(c, s, Deregister(id)), acts, id);
  }

  /** A lease held before a run and not after it was closed in the run, by deregistration or eviction. */
  lemma {:induction false} LostLeaseWasClosed(c: Config, s: State, acts: seq<Action>, id: string)
    requires Inv(c, s) && IsRun(c, s, acts)
    requires LeaseStart(s.log, id) >= 0 && LeaseStart(Exec(c, s, acts).log, id) != LeaseStart(s.log, id)
    ensures exists k :: |s.log| <= k < |Exec(c, s, acts).log| && Closes(Exec(c, s, acts).log[k], id)
    decreases |acts|
  {
    var a, s', e := acts[0], Step(c, s, acts[0]), Exec(c, s, acts);
    StepLogs(c, s, a);
    StepLease(c, s, a, id);
    StepKeepsInv(c, s, a);
    LogGrows(c, s', acts[1..]);
    if LeaseStart(s'.log, id) == LeaseStart(s.log, id) {
      LostLeaseWasClosed(c, s', acts[1..], id);
    } else {
      assert RepresentsAt(s.nodes, s.log, id);
      assert s'.log[|s.log|] == e.log[|s.log|];
      assert Closes(e.log[|s.log|], id);
    }
  }

  // --- Discovery -------------------------------------------------------------------------------

  lemma {:induction false} NoTicks(log: seq<Event>, from: nat, j: nat)
    requires TicksFrom(log, from) == 0 && from <= j < |log|
    ensures !log[j].Incremented?
  {
    if j < |log| - 1 {
      NoTicks(log[..|log| - 1], from, j);
    }
  }

  lemma FreshSinceTick(log: seq<Event>, id: string)
    requires LeaseStart(log, id) >= 0 && Silence(log, id) == 0
    ensures exists t :: 0 <= t < |log| && Touches(log[t], id) && forall j | t < j < |log| :: !log[j].Incremented?
  {
    var t := LastTouch(log, id);
    LastTouchMeaning(log, id, LeaseStart(log, id));
    SilenceMeaning(log, id);
    forall j | t < j < |log| ensures !log[j].Incremented? {
      NoTicks(log, t + 1, j);
    }
  }

  /** Whatever Discover returns has registered or beat since the latest increment. */
  lemma DiscoveredIsFresh(c: Config, acts: seq<Action>, filter: seq<string>, id: string)
    requires c.Representable() && c.maxMissed >= 1 && IsRun(c, INITIAL, acts)
    requires id in Discoverable(Exec(c, INITIAL, acts).nodes, filter)
    ensures var log := Exec(c, INITIAL, acts).log;
            exists t :: 0 <= t < |log| && Touches(log[t], id) && forall j | t < j < |log| :: !log[j].Incremented?
  {
    Reachable(c, acts);
    var s := Exec(c, INITIAL, acts);
    CounterBound(c, s, id);
    assert RepresentsAt(s.nodes, s.log, id);
    FreshSinceTick(s.log, id);
  }
}
