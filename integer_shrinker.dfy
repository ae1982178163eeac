/** `reduce_integer`: shrink a non-negative integer test case by a biased binary search. */
module IntegerShrinker {

  /** The interestingness test, deterministic. */
  type Oracle = nat -> bool

  /** How the search ended: `0` was interesting, `lo + 1` was, or the bounds met. */
  datatype Exit = ZeroInteresting | LowerNeighbour | Converged

  /** `n` is interesting and the value just below it, if any, is not. */
  ghost predicate LocallyMinimal(oracle: Oracle, n: nat) {
    oracle(n) && (n == 0 || !oracle(n - 1))
  }

  /** Interestingness is preserved by going up by one. */
  ghost predicate UpwardClosed(oracle: Oracle) {
    forall n: nat :: oracle(n) ==> oracle(n + 1)
  }

  /**
   * The search, starting from the interesting value `start`. `found` is where the test case
   * ends (the least interesting value probed), and `probes` lists the oracle's arguments in the
   * order they were asked.
   */
  method ReduceInteger(start: nat, oracle: Oracle) returns (found: nat, exit: Exit, probes: seq<nat>)
    requires oracle(start)
    ensures found <= start && LocallyMinimal(oracle, found)
    ensures exit == ZeroInteresting <==> oracle(0)
    ensures exit == ZeroInteresting ==> found == 0 && probes == [0]
    ensures |probes| > 0 && probes[0] == 0
    ensures exit == LowerNeighbour ==> probes[|probes| - 1] == found
    ensures found == start || found in probes
    ensures forall k :: 0 <= k < |probes| && oracle(probes[k]) ==> found <= probes[k]
    ensures forall k :: 0 <= k < |probes| ==> probes[k] <= start
  {
    probes := [0];
    if oracle(0) {
      return 0, ZeroInteresting, probes;
    }
    var lo: nat := 0;
    var hi: nat := start;
    while lo + 1 < hi
      invariant lo < hi <= start
      invariant !oracle(lo) && oracle(hi)
      invariant |probes| > 0 && probes[0] == 0
      invariant hi == start || hi in probes
      invariant forall k :: 0 <= k < |probes| && oracle(probes[k]) ==> hi <= probes[k]
      invariant forall k :: 0 <= k < |probes| ==> probes[k] <= start
      decreases hi - lo
    {
      var mid := (lo + hi) / 2;
      probes := probes + [mid];
      if oracle(mid) {
        hi := mid;
      } else {
        lo := mid;
      }
      probes := probes + [hi - 1];
      if oracle(hi - 1) {
        hi := hi - 1;
      }
      probes := probes + [lo + 1];
      if oracle(lo + 1) {
        return lo + 1, LowerNeighbour, probes;
      }
      lo := lo + 1;
    }
    return hi, Converged, probes;
  }

  /**
   * For an upward-closed test, such as "at least 42", a locally minimal value is the least
   * interesting one, so the search finds the true minimum.
   */
  lemma {:induction false} LocalMinimumIsLeast(oracle: Oracle, n: nat, m: nat)
    requires UpwardClosed(oracle) && LocallyMinimal(oracle, n) && m < n
    ensures !oracle(m)
    decreases n - m
  {
    if m + 1 < n {
      LocalMinimumIsLeast(oracle, n, m + 1);
    }
  }
}
