/** The node base class (src/node/node_base.cpp): backoff in `uint32_t` arithmetic and the bounded reconnection loop. */
module NodeBase {
  import opened Words

  datatype ReconnectStrategy = ReconnectStrategy(
    baseDelayMs: nat,
    maxDelayMs: nat,
    maxAttempts: nat,
    enableBackoff: bool)
  {
    predicate Representable() {
      baseDelayMs < UINT32_RANGE && maxDelayMs < UINT32_RANGE && maxAttempts < UINT32_RANGE
    }
  }

  const DEFAULTS := ReconnectStrategy(1000, 30000, 10, true)

  /** The doublings before an attempt: none before the first. */
  function Doublings(attempt: nat): nat {
    if attempt == 0 then 0 else attempt - 1
  }

  function Doubled(base: nat, times: nat): nat {
    if times == 0 then base else 2 * Doubled(base, times - 1)
  }

  /** The backoff that is intended, in unbounded arithmetic. */
  function IdealDelay(s: ReconnectStrategy, attempt: nat): int {
    if s.enableBackoff then Min(Doubled(s.baseDelayMs, Doublings(attempt)), s.maxDelayMs) else s.baseDelayMs
  }

  /** The backoff in `uint32_t` arithmetic: the product wraps before it is capped. */
  function BackoffDelay(s: ReconnectStrategy, attempt: nat): int {
    if s.enableBackoff then Min(Doubled(s.baseDelayMs, Doublings(attempt)) % UINT32_RANGE, s.maxDelayMs)
    else s.baseDelayMs
  }

  lemma DoubleWraps(x: nat)
    ensures (x % UINT32_RANGE) * 2 % UINT32_RANGE == 2 * x % UINT32_RANGE
  {
    var q := x / UINT32_RANGE;
    assert 2 * x == (x % UINT32_RANGE) * 2 + UINT32_RANGE * (2 * q);
  }

  method CalculateBackoffDelay(s: ReconnectStrategy, attempt: nat) returns (delay: int)
    requires s.Representable() && attempt < UINT32_RANGE
    ensures delay == BackoffDelay(s, attempt)
    ensures delay == if !s.enableBackoff then s.baseDelayMs
                     else Min(s.baseDelayMs * Pow2(Doublings(attempt)) % UINT32_RANGE, s.maxDelayMs)
    ensures 0 <= delay < UINT32_RANGE
    ensures s.enableBackoff ==> delay <= s.maxDelayMs
  {
    DoubledIsProduct(s.baseDelayMs, Doublings(attempt));
    if !s.enableBackoff {
      return s.baseDelayMs;
    }
    delay := s.baseDelayMs;
    var i := 1;
    while i < attempt
      invariant 1 <= i && (i <= attempt || (attempt == 0 && i == 1))
      invariant delay == Doubled(s.baseDelayMs, i - 1) % UINT32_RANGE
    {
      DoubleWraps(Doubled(s.baseDelayMs, i - 1));
      delay := delay * 2 % UINT32_RANGE;
      i := i + 1;
    }
    delay := Min(delay, s.maxDelayMs);
  }

  lemma {:induction false} DoubledIsProduct(base: nat, times: nat)
    ensures Doubled(base, times) == base * Pow2(times)
  {
    if times > 0 {
      DoubledIsProduct(base, times - 1);
      assert base * Pow2(times) == 2 * (base * Pow2(times - 1));
    }
  }

  /** The formula: base * 2^(attempt-1), reduced modulo 2^32 and then capped. */
  lemma BackoffFormula(s: ReconnectStrategy, attempt: nat)
    requires s.enableBackoff && attempt >= 1
    ensures BackoffDelay(s, attempt) == Min(s.baseDelayMs * Pow2(attempt - 1) % UINT32_RANGE, s.maxDelayMs)
  {
    DoubledIsProduct(s.baseDelayMs, attempt - 1);
  }

  lemma {:induction false} DoubledMonotone(base: nat, a: nat, b: nat)
    requires a <= b
    ensures Doubled(base, a) <= Doubled(base, b)
    decreases b - a
  {
    if a < b {
      DoubledMonotone(base, a, b - 1);
    }
  }

  /** Where the last doubling allowed still fits, the wrapped backoff is the intended one and never shrinks. */
  lemma BackoffWithinRange(s: ReconnectStrategy, a: nat, b: nat, last: nat)
    requires Doubled(s.baseDelayMs, Doublings(last)) < UINT32_RANGE
    requires a <= b <= last
    ensures BackoffDelay(s, b) == IdealDelay(s, b)
    ensures BackoffDelay(s, a) <= BackoffDelay(s, b)
  {
    DoubledMonotone(s.baseDelayMs, Doublings(a), Doublings(b));
    DoubledMonotone(s.baseDelayMs, Doublings(b), Doublings(last));
  }

  /** The wrapped backoff is the intended one exactly while the last doubling fits the word, or where what is left of it
      still exceeds the cap. */
  lemma BackoffIdealIff(s: ReconnectStrategy, attempt: nat)
    ensures BackoffDelay(s, attempt) == IdealDelay(s, attempt)
       <==> var x := Doubled(s.baseDelayMs, Doublings(attempt));
            !s.enableBackoff || x < UINT32_RANGE || x % UINT32_RANGE >= s.maxDelayMs
  {
  }

  lemma {:induction false} DoublingsAdd(base: nat, a: nat, b: nat)
    ensures Doubled(base, a + b) == Doubled(Doubled(base, a), b)
  {
    if b > 0 {
      DoublingsAdd(base, a, b - 1);
    }
  }

  /** A multiple of 2^32 stays one: once it has left the word, a delay does not come back. */
  lemma {:induction false} ZeroStays(base: nat, times: nat)
    requires base % UINT32_RANGE == 0
    ensures Doubled(base, times) % UINT32_RANGE == 0
  {
    if times > 0 {
      ZeroStays(base, times - 1);
    }
  }

  lemma WordIsPower()
    ensures Pow2(32) == UINT32_RANGE
  {
    assert Pow2(8) == 256;
    assert Pow2(16) == 65536;
    assert Pow2(24) == 16777216;
  }

  lemma WordMultiple(x: nat)
    ensures x * UINT32_RANGE % UINT32_RANGE == 0
  {
  }

  /** Whatever the strategy, all 32 bits of the base have left the word by attempt 33: there is no pause from then on. */
  lemma BackoffVanishes(s: ReconnectStrategy, attempt: nat)
    requires s.enableBackoff && attempt >= 33
    ensures BackoffDelay(s, attempt) == 0
  {
    var base := s.baseDelayMs;
    WordIsPower();
    DoubledIsProduct(base, 32);
    WordMultiple(base);
    ZeroStays(Doubled(base, 32), attempt - 33);
    DoublingsAdd(base, 32, attempt - 33);
  }

  /** So the backoff is the intended one on every attempt exactly if there is none, or nothing to wrap or to cap at. */
  lemma AlwaysIdealIff(s: ReconnectStrategy)
    ensures (forall attempt: nat :: BackoffDelay(s, attempt) == IdealDelay(s, attempt))
       <==> !s.enableBackoff || s.baseDelayMs == 0 || s.maxDelayMs == 0
  {
    if s.enableBackoff && s.baseDelayMs > 0 && s.maxDelayMs > 0 {
      BackoffVanishes(s, 33);
      DoubledMonotone(s.baseDelayMs, 0, 32);
      assert BackoffDelay(s, 33) != IdealDelay(s, 33);
    } else {
      forall attempt: nat ensures BackoffDelay(s, attempt) == IdealDelay(s, attempt) {
        DoubledIsProduct(s.baseDelayMs, Doublings(attempt));
        BackoffIdealIff(s, attempt);
      }
    }
  }

  /** 1000 doubled: from the fifth doubling on it exceeds the cap, from the 23rd on the word. */
  lemma DefaultDoublings()
    ensures Doubled(1000, 5) == 32000 && Doubled(1000, 9) == 512000
    ensures Doubled(1000, 22) == 4194304000 < UINT32_RANGE
    ensures Doubled(1000, 23) == 8388608000 && Doubled(1000, 24) == 16777216000 && Doubled(1000, 25) == 33554432000
    ensures Doubled(1000, 26) == 67108864000 && Doubled(1000, 27) == 134217728000
    ensures Doubled(1000, 28) == 268435456000 && Doubled(1000, 29) == 125 * UINT32_RANGE
  {
    assert Doubled(1000, 3) == 8000;
    assert Doubled(1000, 5) == 32000;
    assert Doubled(1000, 7) == 128000;
    assert Doubled(1000, 9) == 512000;
    assert Doubled(1000, 11) == 2048000;
    assert Doubled(1000, 13) == 8192000;
    assert Doubled(1000, 15) == 32768000;
    assert Doubled(1000, 17) == 131072000;
    assert Doubled(1000, 19) == 524288000;
    assert Doubled(1000, 21) == 2097152000;
    assert Doubled(1000, 23) == 8388608000;
    assert Doubled(1000, 25) == 33554432000;
    assert Doubled(1000, 27) == 134217728000;
    assert Doubled(1000, 29) == 536870912000;
  }

  /** With the default strategy the backoff is the intended one up to attempt 29, and nothing at all from attempt 30 on:
      by then every bit of 1000 * 2^(attempt-1) has left the 32-bit word. */
  lemma DefaultBackoff(attempt: nat)
    requires attempt >= 1
    ensures BackoffDelay(DEFAULTS, attempt) == if attempt <= 29 then IdealDelay(DEFAULTS, attempt) else 0
    ensures BackoffDelay(DEFAULTS, attempt) == IdealDelay(DEFAULTS, attempt) <==> attempt <= 29
  {
    DefaultDoublings();
    BackoffIdealIff(DEFAULTS, attempt);
    if attempt <= 23 {
      DoubledMonotone(1000, attempt - 1, 22);
    } else if attempt >= 30 {
      DoublingsAdd(1000, 29, attempt - 30);
      ZeroStays(Doubled(1000, 29), attempt - 30);
      DoubledMonotone(1000, 5, attempt - 1);
    }
  }

  /** The default backoff is nondecreasing between two attempts exactly when it has not wrapped to zero in between; on
      the attempts the loop makes, at most ten, it never wraps at all. */
  lemma DefaultBackoffMonotone(a: nat, b: nat)
    requires 1 <= a <= b
    ensures BackoffDelay(DEFAULTS, a) <= BackoffDelay(DEFAULTS, b) <==> b <= 29 || a >= 30
    ensures b <= DEFAULTS.maxAttempts ==> Doubled(1000, b - 1) < UINT32_RANGE
  {
    DefaultBackoff(a);
    DefaultBackoff(b);
    DoubledMonotone(1000, a - 1, b - 1);
    DoubledMonotone(1000, 0, a - 1);
    DefaultDoublings();
    if b <= 10 {
      DoubledMonotone(1000, b - 1, 9);
    }
  }

  // --- The heartbeat loop ----------------------------------------------------------------------

  datatype Grant = Grant(sessionId: string, heartbeatInterval: nat)

  /** The answers during one turn of the loop: to the heartbeat, and to the Register if one is made. */
  datatype Answers = Answers(heartbeatOk: bool, shouldReconnect: bool, register: Option<Grant>)

  datatype Turn =
    | Alive(onReconnected: bool)
    | Missed
    | Retried(attempt: nat, delayMs: int, register: Option<Grant>)
    | GaveUp

  predicate Demand(a: Answers) {
    !a.heartbeatOk && a.shouldReconnect
  }

  /** Failed heartbeats that asked for a reconnection, in the first `n` answers, since the last success. What the
      Register calls achieved does not matter. */
  function Demands(answers: seq<Answers>, n: nat): nat
    requires n <= |answers|
  {
    if n == 0 || answers[n - 1].heartbeatOk then 0
    else Demands(answers, n - 1) + if Demand(answers[n - 1]) then 1 else 0
  }

  lemma OneMoreDemand(answers: seq<Answers>, from: nat, n: nat)
    requires from < n <= |answers|
    ensures |set i | from <= i < n && answers[i].shouldReconnect| ==
            |set i | from <= i < n - 1 && answers[i].shouldReconnect| + if answers[n - 1].shouldReconnect then 1 else 0
  {
    var before := set i | from <= i < n - 1 && answers[i].shouldReconnect;
    var after := set i | from <= i < n && answers[i].shouldReconnect;
    assert after == before + if answers[n - 1].shouldReconnect then {n - 1} else {};
  }

  /** The demands are those after the last success: from `from` on, if that is the start or follows a success, and none
      has come since. */
  lemma {:induction false} DemandsMeaning(answers: seq<Answers>, from: nat, n: nat)
    requires from <= n <= |answers|
    requires from == 0 || answers[from - 1].heartbeatOk
    requires forall i | from <= i < n :: !answers[i].heartbeatOk
    ensures Demands(answers, n) == |set i | from <= i < n && answers[i].shouldReconnect|
    decreases n
  {
    var demands := set i | from <= i < n && answers[i].shouldReconnect;
    if from == n {
      assert demands == {};
    } else {
      DemandsMeaning(answers, from, n - 1);
      OneMoreDemand(answers, from, n);
    }
  }

  /** What a turn must do, given the demands before it. */
  function TurnOf(s: ReconnectStrategy, demands: nat, a: Answers): Turn {
    if a.heartbeatOk then Alive(demands > 0)
    else if !a.shouldReconnect then Missed
    else if demands < s.maxAttempts then Retried(demands + 1, BackoffDelay(s, demands + 1), a.register)
    else GaveUp
  }

  /** The session and interval in force after some turns: those of the latest successful Register. */
  function InForce(turns: seq<Turn>, initial: Grant): Grant {
    if turns == [] then initial
    else
      var last := turns[|turns| - 1];
      if last.Retried? && last.register.Some? then last.register.value else InForce(turns[..|turns| - 1], initial)
  }

  predicate Renews(turn: Turn) {
    turn.Retried? && turn.register.Some?
  }

  /** In force is the grant of the last Register that succeeded, or the initial one if none did. */
  lemma {:induction false} InForceMeaning(turns: seq<Turn>, initial: Grant)
    ensures (forall i | 0 <= i < |turns| :: !Renews(turns[i])) ==> InForce(turns, initial) == initial
    ensures forall i | 0 <= i < |turns| && Renews(turns[i]) && (forall j | i < j < |turns| :: !Renews(turns[j])) ::
              turns[i].register == Some(InForce(turns, initial))
  {
    if turns != [] && !Renews(turns[|turns| - 1]) {
      var init := turns[..|turns| - 1];
      InForceMeaning(init, initial);
      assert forall i | 0 <= i < |init| :: init[i] == turns[i];
    }
  }

  /** The first pause is the initial interval; each later one the interval just granted, or the one before. */
  lemma {:induction false} NapsMeaning(turns: seq<Turn>, initial: Grant)
    ensures |Naps(turns, initial)| == |turns|
    ensures turns != [] ==> Naps(turns, initial)[0] == initial.heartbeatInterval
    ensures forall i {:trigger Naps(turns, initial)[i]} | 0 < i < |turns| ::
              Naps(turns, initial)[i] ==
              if Renews(turns[i - 1]) then turns[i - 1].register.value.heartbeatInterval else Naps(turns, initial)[i - 1]
  {
    if turns != [] {
      var init := turns[..|turns| - 1];
      NapsMeaning(init, initial);
      if init != [] {
        assert Naps(init, initial)[|init| - 1] == InForce(init[..|init| - 1], initial).heartbeatInterval;
      }
    }
  }

  /** The pause before each heartbeat: the interval in force by then. */
  function Naps(turns: seq<Turn>, initial: Grant): seq<nat> {
    if turns == [] then []
    else
      var init := turns[..|turns| - 1];
      Naps(init, initial) + [InForce(init, initial).heartbeatInterval]
  }

  /** Register calls in a stretch of turns. */
  function Retries(turns: seq<Turn>): nat {
    if turns == [] then 0
    else Retries(turns[..|turns| - 1]) + if turns[|turns| - 1].Retried? then 1 else 0
  }

  /** The loop that `turns` records did, at every turn, what the answers so far demand. */
  ghost predicate Follows(s: ReconnectStrategy, answers: seq<Answers>, turns: seq<Turn>) {
    && |turns| <= |answers|
    && (forall i {:trigger turns[i]} | 0 <= i < |turns| :: turns[i] == TurnOf(s, Demands(answers, i), answers[i]))
    && (forall i | 0 <= i < |turns| - 1 :: !turns[i].GaveUp?)
  }

  lemma FollowsMeaning(s: ReconnectStrategy, answers: seq<Answers>, turns: seq<Turn>)
    requires Follows(s, answers, turns)
    ensures forall i {:trigger turns[i]} | 0 <= i < |turns| ::
              var attempts := Demands(answers, i);
              && (answers[i].heartbeatOk ==> turns[i] == Alive(attempts > 0))
              && (!answers[i].heartbeatOk && !answers[i].shouldReconnect ==> turns[i] == Missed)
              && (!answers[i].heartbeatOk && answers[i].shouldReconnect ==>
                    if attempts < s.maxAttempts then
                      && turns[i].Retried? && turns[i].attempt == attempts + 1 && turns[i].register == answers[i].register
                      && turns[i].delayMs == if !s.enableBackoff then s.baseDelayMs
                                             else Min(s.baseDelayMs * Pow2(attempts) % UINT32_RANGE, s.maxDelayMs)
                    else turns[i] == GaveUp)
  {
    forall i {:trigger turns[i]} | 0 <= i < |turns|
      ensures turns[i].Retried? ==>
                turns[i].delayMs == if !s.enableBackoff then s.baseDelayMs
                                    else Min(s.baseDelayMs * Pow2(Demands(answers, i)) % UINT32_RANGE, s.maxDelayMs)
    {
      DoubledIsProduct(s.baseDelayMs, Demands(answers, i));
    }
  }

  class Node {
    var sessionId: string
    var heartbeatIntervalMs: nat
    const reconnectStrategy: ReconnectStrategy

    constructor (strategy: ReconnectStrategy, sessionId: string, interval: nat)
      ensures reconnectStrategy == strategy && this.sessionId == sessionId && heartbeatIntervalMs == interval
    {
      reconnectStrategy := strategy;
      this.sessionId := sessionId;
      heartbeatIntervalMs := interval;
    }

    /** The loop body after the pause: one heartbeat, and what its answer leads to. */
    method TakeTurn(a: Answers, attempts: nat) returns (attempts': nat, turn: Turn)
      requires reconnectStrategy.Representable() && attempts <= reconnectStrategy.maxAttempts
      modifies this
      ensures turn == TurnOf(reconnectStrategy, attempts, a)
      ensures a.heartbeatOk ==> turn == Alive(attempts > 0)
      ensures !a.heartbeatOk && !a.shouldReconnect ==> turn == Missed
      ensures !a.heartbeatOk && a.shouldReconnect ==>
                if attempts < reconnectStrategy.maxAttempts then
                  && turn.Retried? && turn.attempt == attempts + 1 && turn.register == a.register
                  && turn.delayMs == if !reconnectStrategy.enableBackoff then reconnectStrategy.baseDelayMs
                                     else Min(reconnectStrategy.baseDelayMs * Pow2(attempts) % UINT32_RANGE,
                                              reconnectStrategy.maxDelayMs)
                else turn == GaveUp
      ensures !turn.GaveUp? ==>
                && attempts' == (if a.heartbeatOk then 0 else attempts + if Demand(a) then 1 else 0)
                && attempts' <= reconnectStrategy.maxAttempts
      ensures Grant(sessionId, heartbeatIntervalMs) ==
              if turn.Retried? && turn.register.Some? then turn.register.value
              else old(Grant(sessionId, heartbeatIntervalMs))
    {
      if a.heartbeatOk {
        return 0, Alive(attempts > 0);
      }
      if !a.shouldReconnect {
        return attempts, Missed;
      }
      if attempts >= reconnectStrategy.maxAttempts {
        return attempts, GaveUp;
      }
      attempts' := attempts + 1;
      var delayMs := CalculateBackoffDelay(reconnectStrategy, attempts');
      turn := Retried(attempts', delayMs, a.register);
      if a.register.Some? {
        sessionId := a.register.value.sessionId;
        heartbeatIntervalMs := a.register.value.heartbeatInterval;
      }
    }

    /** The loop, until it gives up or is told to stop after the given answers. It gives up exactly when the demands
        since the last success first exceed the allowed attempts. */
    method HeartbeatLoop(answers: seq<Answers>) returns (turns: seq<Turn>, naps: seq<nat>)
      requires reconnectStrategy.Representable()
      modifies this
      ensures Follows(reconnectStrategy, answers, turns)
      ensures forall i {:trigger turns[i]} | 0 <= i < |turns| ::
                var attempts := Demands(answers, i);
                && (answers[i].heartbeatOk ==> turns[i] == Alive(attempts > 0))
                && (!answers[i].heartbeatOk && !answers[i].shouldReconnect ==> turns[i] == Missed)
                && (!answers[i].heartbeatOk && answers[i].shouldReconnect ==>
                      if attempts < reconnectStrategy.maxAttempts then
                        && turns[i].Retried? && turns[i].attempt == attempts + 1 && turns[i].register == answers[i].register
                        && turns[i].delayMs == if !reconnectStrategy.enableBackoff then reconnectStrategy.baseDelayMs
                                               else Min(reconnectStrategy.baseDelayMs * Pow2(attempts) % UINT32_RANGE,
                                                        reconnectStrategy.maxDelayMs)
                      else turns[i] == GaveUp)
      ensures turns != [] && turns[|turns| - 1].GaveUp? <==> Demands(answers, |turns|) > reconnectStrategy.maxAttempts
      ensures Demands(answers, |turns|) <= reconnectStrategy.maxAttempts ==> |turns| == |answers|
      ensures forall n: nat | n < |turns| :: Demands(answers, n) <= reconnectStrategy.maxAttempts
      ensures Grant(sessionId, heartbeatIntervalMs) == InForce(turns, old(Grant(sessionId, heartbeatIntervalMs)))
      ensures naps == Naps(turns, old(Grant(sessionId, heartbeatIntervalMs)))
      ensures |naps| == |turns| && (naps != [] ==> naps[0] == old(heartbeatIntervalMs))
      ensures forall i {:trigger naps[i]} | 0 < i < |naps| ::
                naps[i] == if turns[i - 1].Retried? && turns[i - 1].register.Some?
                           then turns[i - 1].register.value.heartbeatInterval else naps[i - 1]
      ensures (forall i | 0 <= i < |turns| :: !Renews(turns[i])) ==>
                sessionId == old(sessionId) && heartbeatIntervalMs == old(heartbeatIntervalMs)
      ensures forall i | 0 <= i < |turns| && Renews(turns[i]) && (forall j | i < j < |turns| :: !Renews(turns[j])) ::
                turns[i].register == Some(Grant(sessionId, heartbeatIntervalMs))
    {
      ghost var s, initial := reconnectStrategy, Grant(sessionId, heartbeatIntervalMs);
      var reconnectAttempts := 0;
      turns, naps := [], [];
      var i := 0;
      while i < |answers|
        invariant i == |turns| <= |answers|
        invariant reconnectAttempts == Demands(answers, i) <= s.maxAttempts
        invariant forall n: nat | n <= i :: Demands(answers, n) <= s.maxAttempts
        invariant forall j {:trigger turns[j]} | 0 <= j < i ::
                    turns[j] == TurnOf(s, Demands(answers, j), answers[j]) && !turns[j].GaveUp?
        invariant Grant(sessionId, heartbeatIntervalMs) == InForce(turns, initial)
        invariant naps == Naps(turns, initial)
      {
        ghost var before := turns;
        naps := naps + [heartbeatIntervalMs];
        var attempts, turn := TakeTurn(answers[i], reconnectAttempts);
        turns := turns + [turn];
        assert turns[..|turns| - 1] == before;
        if turn.GaveUp? {
          break;
        }
        reconnectAttempts := attempts;
        i := i + 1;
      }
      FollowsMeaning(s, answers, turns);
      InForceMeaning(turns, initial);
      NapsMeaning(turns, initial);
    }
  }

  lemma RetriesStep(turns: seq<Turn>, i: nat, j: nat)
    requires i <= j < |turns|
    ensures Retries(turns[i..j + 1]) == Retries(turns[i..j]) + if turns[j].Retried? then 1 else 0
  {
    assert turns[i..j + 1][..j - i] == turns[i..j];
  }

  /** Between two successes - in any stretch of turns without one - at most `maxAttempts` Register calls are made,
      however the calls themselves fare. */
  lemma {:induction false} RetriesBounded(s: ReconnectStrategy, answers: seq<Answers>, turns: seq<Turn>, i: nat, j: nat)
    requires Follows(s, answers, turns) && i <= j <= |turns|
    requires forall k | i <= k < j :: !turns[k].Alive?
    ensures Retries(turns[i..j]) <= s.maxAttempts
    decreases j - i
  {
    if i < j {
      RetriesStep(turns, i, j - 1);
      if turns[j - 1].Retried? {
        RetriesAreDemands(s, answers, turns, i, j - 1);
      } else {
        RetriesBounded(s, answers, turns, i, j - 1);
      }
    }
  }

  /** Every demand is answered by a Register call, but for the one on which the loop gives up. */
  lemma {:induction false} RetriesAreDemands(s: ReconnectStrategy, answers: seq<Answers>, turns: seq<Turn>, i: nat, j: nat)
    requires Follows(s, answers, turns) && i <= j <= |turns|
    requires forall k | i <= k < j :: !turns[k].Alive?
    ensures Demands(answers, i) + Retries(turns[i..j]) + (if i < j && turns[j - 1].GaveUp? then 1 else 0)
         == Demands(answers, j)
    decreases j - i
  {
    if i < j {
      RetriesAreDemands(s, answers, turns, i, j - 1);
      RetriesStep(turns, i, j - 1);
      assert turns[j - 1] == TurnOf(s, Demands(answers, j - 1), answers[j - 1]);
    } else {
      assert turns[i..j] == [];
    }
  }

  /** `OnReconnected` fires on a success exactly if a Register was sent since the success before it, or since the start. */
  lemma ReconnectedIffRetried(s: ReconnectStrategy, answers: seq<Answers>, turns: seq<Turn>, i: nat, j: nat)
    requires Follows(s, answers, turns) && i <= j < |turns| && turns[j].Alive?
    requires i == 0 || turns[i - 1].Alive?
    requires forall k | i <= k < j :: !turns[k].Alive?
    ensures turns[j].onReconnected <==> Retries(turns[i..j]) > 0
  {
    RetriesAreDemands(s, answers, turns, i, j);
    assert turns[j] == TurnOf(s, Demands(answers, j), answers[j]);
    if i > 0 {
      assert turns[i - 1] == TurnOf(s, Demands(answers, i - 1), answers[i - 1]);
    }
  }
}
