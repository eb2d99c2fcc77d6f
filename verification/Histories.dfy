/** Logs that only grow, one entry at a time. */
module Histories {
  /** From one state to the next the log stays or gets one more entry. */
  ghost predicate Grows<T(!new)>(logs: seq<seq<T>>) {
    forall k {:trigger logs[k]} | 0 <= k < |logs| - 1 :: logs[k] <= logs[k + 1] && |logs[k + 1]| <= |logs[k]| + 1
  }

  lemma {:induction false} Earlier<T(!new)>(logs: seq<seq<T>>, a: nat, b: nat)
    requires Grows(logs) && a <= b < |logs|
    ensures logs[a] <= logs[b]
    decreases b
  {
    if a < b {
      Earlier(logs, a, b - 1);
      assert logs[b - 1] <= logs[b - 1 + 1];
    }
  }

  /** Every entry made between two states was the last one at some state between them. */
  lemma {:induction false} WasLast<T(!new)>(logs: seq<seq<T>>, a: nat, b: nat, j: nat) returns (k: nat)
    requires Grows(logs) && a <= b < |logs| && |logs[a]| > 0 && |logs[a]| - 1 <= j < |logs[b]|
    ensures a <= k <= b && |logs[k]| == j + 1 && logs[k][j] == logs[b][j]
    decreases b
  {
    if |logs[b]| == j + 1 {
      k := b;
    } else {
      assert a < b ==> logs[b - 1] <= logs[b - 1 + 1];
      k := WasLast(logs, a, b - 1, j);
    }
  }
}
