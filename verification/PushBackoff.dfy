/** The waits between push attempts. */
module PushBackoff {

  const MAX_ATTEMPTS: nat := 5

  function Pow2(n: nat): (r: nat)
    ensures r > 0
  {
    if n == 0 then 1 else 2 * Pow2(n - 1)
  }

  /** The base delay in milliseconds: 100 at attempt 2, doubling; lower attempts clamp. */
  function Base(attempt: int): nat {
    100 * Pow2(if attempt < 2 then 0 else attempt - 2)
  }

  /** A wait is the base plus a jitter that is at least zero and below the base. */
  predicate IsWait(attempt: int, wait: int) { Base(attempt) <= wait < 2 * Base(attempt) }

  function Total(waits: seq<int>): int {
    if |waits| == 0 then 0 else Total(waits[..|waits| - 1]) + waits[|waits| - 1]
  }

  /** The waits before attempts 2, 3, ..., n. */
  predicate AreWaits(waits: seq<int>) { forall i | 0 <= i < |waits| :: IsWait(i + 2, waits[i]) }

  /** The closed form of all waits up to attempt n, whatever the jitters were. */
  lemma {:induction false} TotalWait(waits: seq<int>)
    requires AreWaits(waits)
    ensures 100 * (Pow2(|waits|) - 1) <= Total(waits)
    ensures |waits| > 0 ==> Total(waits) < 200 * (Pow2(|waits|) - 1)
  {
    if |waits| > 0 {
      var rest := waits[..|waits| - 1];
      assert AreWaits(rest) by { assert forall i | 0 <= i < |rest| :: rest[i] == waits[i]; }
      TotalWait(rest);
      assert IsWait(|rest| + 2, waits[|waits| - 1]);
    }
  }

  /** Five attempts wait between 1.5 and 3 seconds in all. */
  lemma FiveAttempts(waits: seq<int>)
    requires AreWaits(waits) && |waits| == MAX_ATTEMPTS - 1
    ensures 1500 <= Total(waits) < 3000
  {
    TotalWait(waits);
    assert Pow2(4) == 2 * Pow2(3) == 4 * Pow2(2) == 8 * Pow2(1) == 16;
  }
}
