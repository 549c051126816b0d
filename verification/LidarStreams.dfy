/** The streaming RPCs of the lidar emulator (examples/lidar_emulator.cpp): `Subscribe` under backpressure, and
    `ControlStream`. */
module LidarStreams {
  import opened Words

  const MAX_BACKPRESSURE_RETRIES := 3
  const MAX_PENDING := 5

  /** Writes `k`, `k + 1` and `k + 2` all failed. */
  predicate ThreeFailures(writes: seq<bool>, k: nat) {
    k + 3 <= |writes| && !writes[k] && !writes[k + 1] && !writes[k + 2]
  }

  /** Failed writes at the end of the first `n`. */
  function Streak(writes: seq<bool>, n: nat): (k: nat)
    requires n <= |writes|
    ensures k <= n
  {
    if n == 0 || writes[n - 1] then 0 else Streak(writes, n - 1) + 1
  }

  /** Frames among the first `n` whose write succeeded, in order: a frame that fails is lost, not sent again. */
  function Delivered(writes: seq<bool>, n: nat): seq<nat>
    requires n <= |writes|
  {
    if n == 0 then [] else Delivered(writes, n - 1) + if writes[n - 1] then [n - 1] else []
  }

  /** The pause after the k-th failure in a row: 10 ms, 20 ms, and none after the third. */
  function PauseAfter(streak: nat): seq<int> {
    if streak == 1 then [10] else if streak == 2 then [20] else []
  }

  /** Pauses taken in the first `n` writes. */
  function Pauses(writes: seq<bool>, n: nat): seq<int>
    requires n <= |writes|
  {
    if n == 0 then [] else Pauses(writes, n - 1) + PauseAfter(Streak(writes, n))
  }

  function Sum(xs: seq<int>): int {
    if xs == [] then 0 else Sum(xs[..|xs| - 1]) + xs[|xs| - 1]
  }

  lemma SumExtends(xs: seq<int>, streak: nat)
    ensures Sum(xs + PauseAfter(streak)) == Sum(xs) + if streak == 1 then 10 else if streak == 2 then 20 else 0
  {
    var ys := xs + PauseAfter(streak);
    if streak == 1 || streak == 2 {
      assert ys[..|ys| - 1] == xs;
    } else {
      assert ys == xs;
    }
  }

  /** What a streak has cost so far. */
  function StreakCost(streak: nat): int {
    if streak == 0 then 0 else if streak == 1 then 10 else 30
  }

  /** Failed frames among the first `n` after which the loop pauses: all but the third failure in a row and later ones. */
  function Paused(writes: seq<bool>, n: nat): seq<nat>
    requires n <= |writes|
  {
    if n == 0 then [] else Paused(writes, n - 1) + if 1 <= Streak(writes, n) <= 2 then [n - 1] else []
  }

  /** The loop pauses after every failed frame that does not end three failures in a row. */
  lemma {:induction false} PausedMeaning(writes: seq<bool>, n: nat, i: int)
    requires n <= |writes|
    requires forall k: nat | k + 3 < n :: !ThreeFailures(writes, k)
    ensures i in Paused(writes, n) <==> 0 <= i < n && !writes[i] && !(i >= 2 && !writes[i - 1] && !writes[i - 2])
  {
    if n > 0 {
      PausedMeaning(writes, n - 1, i);
      StreakOfThree(writes, n);
      assert n >= 3 ==> (ThreeFailures(writes, n - 3) <==> !writes[n - 1] && !writes[n - 2] && !writes[n - 3]);
    }
  }

  lemma LastPause(writes: seq<bool>, n: nat)
    requires 0 < n <= |writes| && 1 <= Streak(writes, n) <= 2
    ensures PauseAfter(Streak(writes, n)) == [if n == 1 || writes[n - 2] then 10 else 20]
  {
    assert Streak(writes, n) == Streak(writes, n - 1) + 1;
    if n >= 2 {
      assert Streak(writes, n - 1) == if writes[n - 2] then 0 else Streak(writes, n - 2) + 1;
    }
  }

  lemma {:induction false} PausedAscend(writes: seq<bool>, n: nat)
    requires n <= |writes|
    ensures forall a | 0 <= a < |Paused(writes, n)| :: Paused(writes, n)[a] < n
    ensures forall a, b | 0 <= a < b < |Paused(writes, n)| :: Paused(writes, n)[a] < Paused(writes, n)[b]
  {
    if n > 0 {
      PausedAscend(writes, n - 1);
    }
  }

  /** There is one pause for each such frame, in order: 10 ms if the frame before it went through, or it is the first, and
      20 ms otherwise. */
  lemma {:induction false} PausesMeaning(writes: seq<bool>, n: nat, a: nat)
    requires n <= |writes|
    ensures |Pauses(writes, n)| == |Paused(writes, n)|
    ensures a < |Paused(writes, n)| ==>
              var i := Paused(writes, n)[a];
              i < n && Pauses(writes, n)[a] == if i == 0 || writes[i - 1] then 10 else 20
  {
    if n > 0 {
      PausesMeaning(writes, n - 1, a);
      if 1 <= Streak(writes, n) <= 2 {
        LastPause(writes, n);
      }
    }
  }

  /** Total backoff is paid for by the successes: at most 30 ms each, and the cost of the streak at the end. */
  lemma {:induction false} PausesBounded(writes: seq<bool>, n: nat)
    requires n <= |writes|
    ensures Sum(Pauses(writes, n)) <= 30 * |Delivered(writes, n)| + StreakCost(Streak(writes, n))
  {
    if n > 0 {
      PausesBounded(writes, n - 1);
      SumExtends(Pauses(writes, n - 1), Streak(writes, n));
      assert Streak(writes, n) == if writes[n - 1] then 0 else Streak(writes, n - 1) + 1;
    }
  }

  lemma {:induction false} PausesShort(writes: seq<bool>, n: nat)
    requires n <= |writes|
    ensures forall a | 0 <= a < |Pauses(writes, n)| :: Pauses(writes, n)[a] == 10 || Pauses(writes, n)[a] == 20
  {
    if n > 0 {
      PausesShort(writes, n - 1);
    }
  }

  /** The delivered frames are exactly the indices of the successful writes, ascending: none twice, none reordered. */
  lemma {:induction false} DeliveredMeaning(writes: seq<bool>, n: nat)
    requires n <= |writes|
    ensures forall i :: i in Delivered(writes, n) <==> 0 <= i < n && writes[i]
    ensures forall a, b | 0 <= a < b < |Delivered(writes, n)| :: Delivered(writes, n)[a] < Delivered(writes, n)[b]
  {
    if n > 0 {
      DeliveredMeaning(writes, n - 1);
      var before := Delivered(writes, n - 1);
      assert forall a | 0 <= a < |before| :: before[a] in before;
    }
  }

  /** A streak of three or more ends in three failures, and three failures at the end make one. */
  lemma StreakOfThree(writes: seq<bool>, n: nat)
    requires n <= |writes|
    ensures Streak(writes, n) >= 3 <==> n >= 3 && ThreeFailures(writes, n - 3)
  {
    if n >= 3 {
      assert Streak(writes, n) == if writes[n - 1] then 0 else Streak(writes, n - 1) + 1;
      assert Streak(writes, n - 1) == if writes[n - 2] then 0 else Streak(writes, n - 2) + 1;
      assert Streak(writes, n - 2) == if writes[n - 3] then 0 else Streak(writes, n - 3) + 1;
    }
  }

  lemma PausesInOrder(writes: seq<bool>, n: nat)
    requires n <= |writes|
    ensures |Pauses(writes, n)| == |Paused(writes, n)|
    ensures forall a {:trigger Paused(writes, n)[a]} | 0 <= a < |Paused(writes, n)| ::
              && 0 <= Paused(writes, n)[a] < n
              && Pauses(writes, n)[a] == if Paused(writes, n)[a] == 0 || writes[Paused(writes, n)[a] - 1] then 10 else 20
  {
    PausesMeaning(writes, n, 0);
    forall a {:trigger Paused(writes, n)[a]} | 0 <= a < |Paused(writes, n)|
      ensures 0 <= Paused(writes, n)[a] < n
      ensures Pauses(writes, n)[a] == if Paused(writes, n)[a] == 0 || writes[Paused(writes, n)[a] - 1] then 10 else 20
    {
      PausesMeaning(writes, n, a);
    }
  }

  /** A failed write that is not the third in a row. */
  predicate PauseDue(writes: seq<bool>, i: nat)
    requires i < |writes|
  {
    !writes[i] && !(i >= 2 && !writes[i - 1] && !writes[i - 2])
  }

  lemma PausedExactly(writes: seq<bool>, n: nat)
    requires n <= |writes| && (forall k: nat | k + 3 < n :: !ThreeFailures(writes, k))
    ensures forall i {:trigger i in Paused(writes, n)} :: i in Paused(writes, n)
                   <==> 0 <= i < n && PauseDue(writes, i)
  {
    forall i {:trigger i in Paused(writes, n)}
      ensures i in Paused(writes, n) <==> 0 <= i < n && PauseDue(writes, i)
    {
      PausedMeaning(writes, n, i);
    }
  }

  lemma FramesAndPauses(writes: seq<bool>, n: nat, frames: seq<nat>, sleeps: seq<int>) returns (pausedAt: seq<nat>)
    requires n <= |writes| && frames == Delivered(writes, n) && sleeps == Pauses(writes, n)
    requires forall k: nat | k + 3 < n :: !ThreeFailures(writes, k)
    ensures forall i {:trigger i in frames} :: i in frames <==> 0 <= i < n && writes[i]
    ensures forall a, b | 0 <= a < b < |frames| :: frames[a] < frames[b]
    ensures |pausedAt| == |sleeps| && forall a, b | 0 <= a < b < |pausedAt| :: pausedAt[a] < pausedAt[b]
    ensures forall i {:trigger i in pausedAt} :: i in pausedAt
                   <==> 0 <= i < n && PauseDue(writes, i)
    ensures forall a {:trigger pausedAt[a]} | 0 <= a < |pausedAt| ::
              && 0 <= pausedAt[a] < n
              && sleeps[a] == if pausedAt[a] == 0 || writes[pausedAt[a] - 1] then 10 else 20
  {
    pausedAt := Paused(writes, n);
    PausedAscend(writes, n);
    PausesInOrder(writes, n);
    DeliveredMeaning(writes, n);
    PausedExactly(writes, n);
  }

  /** `10 << (failures - 1)`; the third failure never gets this far. */
  method BackoffMs(failures: int) returns (ms: int)
    requires 1 <= failures <= 2
    ensures ms == if failures == 1 then 10 else 20
  {
    assert Pow2(0) == 1 && Pow2(1) == 2;
    ms := 10 * Pow2(failures - 1);
  }

  /** The data loop, given what each Write returns until the process stops. It drops the subscriber exactly at the first
      three consecutive failures, and counts each successful write once. */
  method Subscribe(writes: seq<bool>)
    returns (consumed: nat, messagesSent: nat, frames: seq<nat>, sleeps: seq<int>, ghost pausedAt: seq<nat>)
    ensures consumed <= |writes|
    ensures forall k: nat | k + 3 < consumed :: !ThreeFailures(writes, k)
    ensures consumed < |writes| ==> consumed >= 3 && ThreeFailures(writes, consumed - 3)
    ensures frames == Delivered(writes, consumed) && messagesSent == |frames|
    ensures forall i {:trigger i in frames} :: i in frames <==> 0 <= i < consumed && writes[i]
    ensures forall a, b | 0 <= a < b < |frames| :: frames[a] < frames[b]
    ensures sleeps == Pauses(writes, consumed)
    ensures |pausedAt| == |sleeps| && forall a, b | 0 <= a < b < |pausedAt| :: pausedAt[a] < pausedAt[b]
    ensures forall i {:trigger i in pausedAt} :: i in pausedAt
                   <==> 0 <= i < consumed && PauseDue(writes, i)
    ensures forall a {:trigger pausedAt[a]} | 0 <= a < |pausedAt| ::
              && 0 <= pausedAt[a] < consumed
              && sleeps[a] == if pausedAt[a] == 0 || writes[pausedAt[a] - 1] then 10 else 20
    ensures Sum(sleeps) <= 30 * (messagesSent + 1)
    ensures forall a | 0 <= a < |sleeps| :: sleeps[a] == 10 || sleeps[a] == 20
  {
    var consecutiveFailures := 0;
    messagesSent, frames, sleeps := 0, [], [];
    var i := 0;
    while i < |writes|
      invariant 0 <= i <= |writes|
      invariant consecutiveFailures == Streak(writes, i) < 3
      invariant forall k: nat | k + 3 <= i :: !ThreeFailures(writes, k)
      invariant frames == Delivered(writes, i) && messagesSent == |frames|
      invariant sleeps == Pauses(writes, i)
    {
      StreakOfThree(writes, i + 1);
      if !writes[i] {
        consecutiveFailures := consecutiveFailures + 1;
        if consecutiveFailures >= MAX_BACKPRESSURE_RETRIES {
          i := i + 1;
          break;
        }
        var backoff := BackoffMs(consecutiveFailures);
        sleeps := sleeps + [backoff];
      } else {
        consecutiveFailures := 0;
        messagesSent := messagesSent + 1;
        frames := frames + [i];
      }
      i := i + 1;
    }
    PausesBounded(writes, i);
    PausesShort(writes, i);
    pausedAt := FramesAndPauses(writes, i, frames, sleeps);
    consumed := i;
  }

  // --- ControlStream ---------------------------------------------------------------------------

  /** A request read from the stream, and whether the response to it, if written, goes through. */
  datatype Exchange = Exchange(sessionId: string, written: bool)

  /** Requests before the first failed write. */
  function Answered(exchanges: seq<Exchange>): (n: nat)
    ensures n <= |exchanges|
    ensures forall i | 0 <= i < n :: exchanges[i].written
    ensures n < |exchanges| ==> !exchanges[n].written
  {
    if exchanges == [] || !exchanges[0].written then 0 else 1 + Answered(exchanges[1..])
  }

  /** No command is ever pending at the loop head, so nothing is ever dropped: the responses are, in order, the session
      ids of the requests up to the first failed write. */
  method ControlStream(exchanges: seq<Exchange>) returns (responses: seq<string>)
    ensures |responses| == Answered(exchanges)
    ensures forall i | 0 <= i < |responses| :: responses[i] == exchanges[i].sessionId
  {
    var pending := 0;
    responses := [];
    var i := 0;
    while i < |exchanges|
      invariant 0 <= i <= |exchanges|
      invariant pending == 0
      invariant |responses| == i && Answered(exchanges) == i + Answered(exchanges[i..])
      invariant forall k | 0 <= k < i :: responses[k] == exchanges[k].sessionId
    {
      if pending >= MAX_PENDING {
        assert false;  // the branch that drops the request
      }
      pending := pending + 1;
      assert exchanges[i..][1..] == exchanges[i + 1..];
      if !exchanges[i].written {
        break;
      }
      responses := responses + [exchanges[i].sessionId];
      pending := pending - 1;
      i := i + 1;
    }
  }
}
