/** Fixed-width arithmetic and the small helpers shared by every component. */
module Words {

  datatype Option<+T> = None | Some(value: T)

  /** One past the largest `uint32_t`. */
  const UINT32_RANGE: nat := 0x1_0000_0000

  /** One past the largest 32-bit signed `int`. */
  const INT32_LIMIT: int := 0x8000_0000

  /** The value a `uint32_t` holds after `++`. */
  function Increment32(x: nat): (r: nat)
    ensures r < UINT32_RANGE
    ensures x < UINT32_RANGE - 1 ==> r == x + 1
  {
    (x + 1) % UINT32_RANGE
  }

  function Min(a: int, b: int): int {
    if a <= b then a else b
  }

  function Pow2(n: nat): (p: nat)
    ensures p >= 1
  {
    if n == 0 then 1 else 2 * Pow2(n - 1)
  }

  /** `xs` names each element of `ids` once, in some order: what a walk over an unordered container yields. */
  ghost predicate Enumerates(xs: seq<string>, ids: set<string>) {
    && (forall i, j | 0 <= i < j < |xs| :: xs[i] != xs[j])
    && (forall x :: x in xs <==> x in ids)
  }

  lemma EnumerateOneMore(xs: seq<string>, ids: set<string>, x: string)
    requires Enumerates(xs, ids) && x !in ids
    ensures Enumerates(xs + [x], ids + {x})
  {
  }

  lemma {:induction false} EnumerationLength(xs: seq<string>, ids: set<string>)
    requires Enumerates(xs, ids)
    ensures |xs| == |ids|
    decreases |xs|
  {
    if xs != [] {
      var init, last := xs[..|xs| - 1], xs[|xs| - 1];
      assert xs == init + [last];
      EnumerationLength(init, ids - {last});
    }
  }
}
