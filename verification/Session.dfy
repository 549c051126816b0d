/** Session ids: the node id, an underscore and a random number in decimal (src/registry/registry_service.cpp). */
module Session {

  function Digit(d: nat): (ch: char)
    requires d < 10
    ensures '0' <= ch <= '9'
  {
    "0123456789"[d]
  }

  function DigitValue(ch: char): int {
    ch as int - '0' as int
  }

  lemma DigitRoundTrip(d: nat)
    requires d < 10
    ensures DigitValue(Digit(d)) == d
  {
  }

  /** `std::to_string` of a non-negative number. */
  function Decimal(n: nat): (s: string)
    ensures s != []
    ensures '_' !in s
  {
    if n < 10 then [Digit(n)] else Decimal(n / 10) + [Digit(n % 10)]
  }

  function ParseDecimal(s: string): int {
    if s == [] then 0 else 10 * ParseDecimal(s[..|s| - 1]) + DigitValue(s[|s| - 1])
  }

  /** Decimal text is read digit by digit, the last one least. */
  lemma ParseIsPositional(s: string, ch: char)
    ensures ParseDecimal([]) == 0
    ensures ParseDecimal(s + [ch]) == 10 * ParseDecimal(s) + (ch as int - '0' as int)
  {
    assert (s + [ch])[..|s|] == s;
  }

  /** Only digits, and no leading zero but in zero itself. */
  lemma {:induction false} DecimalIsPlain(n: nat)
    ensures forall i | 0 <= i < |Decimal(n)| :: '0' <= Decimal(n)[i] <= '9'
    ensures Decimal(n)[0] == '0' <==> n == 0
    ensures n == 0 ==> |Decimal(n)| == 1
  {
    if n >= 10 {
      DecimalIsPlain(n / 10);
    }
  }

  lemma {:induction false} DecimalRoundTrip(n: nat)
    ensures ParseDecimal(Decimal(n)) == n
  {
    DigitRoundTrip(n % 10);
    if n >= 10 {
      var s := Decimal(n);
      assert s[..|s| - 1] == Decimal(n / 10) && s[|s| - 1] == Digit(n % 10);
      DecimalRoundTrip(n / 10);
    } else {
      assert [Digit(n)][..0] == [];
    }
  }

  function SessionId(nodeId: string, random: nat): string {
    nodeId + "_" + Decimal(random)
  }

  /** Index of the last underscore, or -1. */
  function LastUnderscore(s: string): (k: int)
    ensures -1 <= k < |s|
  {
    if s == [] then -1
    else if s[|s| - 1] == '_' then |s| - 1
    else LastUnderscore(s[..|s| - 1])
  }

  lemma {:induction false} LastUnderscoreSkips(s: string, tail: string)
    requires s != [] && s[|s| - 1] == '_' && '_' !in tail
    ensures LastUnderscore(s + tail) == |s| - 1
    decreases |tail|
  {
    if tail == [] {
      assert s + tail == s;
    } else {
      var init := tail[..|tail| - 1];
      assert (s + tail)[..|s + tail| - 1] == s + init;
      assert (s + tail)[|s + tail| - 1] == tail[|tail| - 1] && tail[|tail| - 1] in tail;
      LastUnderscoreSkips(s, init);
    }
  }

  /** The last underscore splits a session id back into the node id and the number, even when the node id
      itself contains underscores. */
  lemma SessionIdSplits(nodeId: string, random: nat)
    ensures var s, k := SessionId(nodeId, random), LastUnderscore(SessionId(nodeId, random));
            k >= 0 && s[..k] == nodeId && ParseDecimal(s[k + 1..]) == random
  {
    var s := SessionId(nodeId, random);
    var k := |nodeId|;
    assert s == (nodeId + "_") + Decimal(random);
    LastUnderscoreSkips(nodeId + "_", Decimal(random));
    assert s[..k] == nodeId;
    assert s[k + 1..] == Decimal(random);
    DecimalRoundTrip(random);
  }

  /** Two registrations share a session id exactly when they agree on the node id and on the random number:
      different nodes never do, and one node does again whenever the generator repeats. */
  lemma SessionIdInjective(a: string, p: nat, b: string, q: nat)
    ensures SessionId(a, p) == SessionId(b, q) <==> a == b && p == q
  {
    SessionIdSplits(a, p);
    SessionIdSplits(b, q);
  }

  ghost predicate IsSessionOf(sessionId: string, nodeId: string) {
    exists random: nat :: sessionId == SessionId(nodeId, random)
  }
}
