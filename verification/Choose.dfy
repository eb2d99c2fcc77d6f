/** Choosing k out of n, and pruning until there are few enough choices (common/graph/choose.go and
    the pruning loop of common/graph/perm.go). */
module Choose {
  import opened Basics

  /** `big.Int.Binomial`, by Pascal's rule. */
  function Binomial(n: nat, k: nat): nat {
    if k == 0 then 1
    else if n == 0 then 0
    else Binomial(n - 1, k - 1) + Binomial(n - 1, k)
  }

  lemma {:induction false} BinomialBounds(n: nat, k: nat)
    ensures k > n ==> Binomial(n, k) == 0
    ensures k == n ==> Binomial(n, k) == 1
    ensures k <= n ==> Binomial(n, k) >= 1
    decreases n
  {
    if n > 0 && k > 0 {
      BinomialBounds(n - 1, k - 1);
      BinomialBounds(n - 1, k);
    }
  }

  /** `CombinationsExceed`. */
  predicate CombinationsExceed(n: nat, k: nat, threshold: int) {
    n >= k && Binomial(n, k) > threshold
  }

  /** Strictly increasing, and within [lo, hi). */
  predicate Increasing(s: seq<nat>, lo: nat, hi: nat) {
    && (forall j | 0 <= j < |s| :: lo <= s[j] < hi)
    && (forall i, j | 0 <= i < j < |s| :: s[i] < s[j])
  }

  lemma {:induction false} IncreasingFits(s: seq<nat>, lo: nat, hi: nat)
    requires Increasing(s, lo, hi) && lo <= hi
    ensures |s| <= hi - lo
    decreases |s|
  {
    if s != [] { IncreasingFits(s[1..], s[0] + 1, hi); }
  }

  /** The groups that `choose` adds, in order. */
  function Groups(n: nat, k: nat, i: nat, current: seq<nat>): seq<seq<nat>>
    requires i <= n && |current| <= k
    decreases n - i
  {
    if |current| == k then [current]
    else if k - |current| > n - i then []
    else Groups(n, k, i + 1, current + [i]) + Groups(n, k, i + 1, current)
  }

  /** `choose`, appending to the shared accumulator. */
  method ChooseInto(n: nat, k: nat, i: nat, current: seq<nat>, subGroups: seq<seq<nat>>)
    returns (subGroups': seq<seq<nat>>)
    requires i <= n && |current| <= k
    ensures subGroups' == subGroups + Groups(n, k, i, current)
    decreases n - i
  {
    if |current| == k { return subGroups + [current]; }
    if k - |current| > n - i { return subGroups; }
    subGroups' := ChooseInto(n, k, i + 1, current + [i], subGroups);
    subGroups' := ChooseInto(n, k, i + 1, current, subGroups');
    GroupsSplit(n, k, i, current);
    hide Groups;
    AppendTwice(subGroups, Groups(n, k, i + 1, current + [i]), Groups(n, k, i + 1, current));
  }

  lemma AppendTwice<T>(a: seq<T>, b: seq<T>, c: seq<T>)
    ensures a + b + c == a + (b + c)
  {
  }

  lemma GroupsSplit(n: nat, k: nat, i: nat, current: seq<nat>)
    requires i <= n && |current| < k && k - |current| <= n - i
    ensures Groups(n, k, i, current) == Groups(n, k, i + 1, current + [i]) + Groups(n, k, i + 1, current)
  {
  }

  /** `chooseKoutOfN`. */
  method ChooseKoutOfN(n: nat, k: nat) returns (groups: seq<seq<nat>>)
    ensures groups == Groups(n, k, 0, [])
  {
    groups := ChooseInto(n, k, 0, [], []);
  }

  /** A group continues `current` with an increasing choice from i..n-1. */
  predicate Continues(s: seq<nat>, n: nat, k: nat, i: nat, current: seq<nat>) {
    |s| == k && current <= s && Increasing(s[|current|..], i, n)
  }

  /** `choose` lists exactly the increasing continuations of its argument. */
  lemma {:induction false} GroupsExact(n: nat, k: nat, i: nat, current: seq<nat>, s: seq<nat>)
    requires i <= n && |current| <= k
    ensures s in Groups(n, k, i, current) <==> Continues(s, n, k, i, current)
    decreases n - i
  {
    if |current| == k {
      if Continues(s, n, k, i, current) { assert s == current; }
      assert s == current ==> s[|current|..] == [];
    } else if k - |current| > n - i {
      if Continues(s, n, k, i, current) { IncreasingFits(s[|current|..], i, n); }
    } else {
      GroupsExact(n, k, i + 1, current + [i], s);
      GroupsExact(n, k, i + 1, current, s);
      ContinuesStep(s, n, k, i, current);
    }
  }

  lemma ContinuesStep(s: seq<nat>, n: nat, k: nat, i: nat, current: seq<nat>)
    requires |current| < k && i < n
    ensures Continues(s, n, k, i, current) <==>
            Continues(s, n, k, i + 1, current + [i]) || Continues(s, n, k, i + 1, current)
  {
    if |s| == k && current <= s {
      var t, c := s[|current|..], |current|;
      assert t[1..] == s[c + 1..];
      assert t[0] == s[c];
      if s[c] == i {
        assert current + [i] == s[..c + 1];
        if Increasing(t, i, n) { assert Increasing(t[1..], i + 1, n); }
        if Increasing(t[1..], i + 1, n) {
          assert forall j | 0 < j < |t| :: t[j] == t[1..][j - 1];
        }
      } else {
        assert !(current + [i] <= s);
      }
    }
  }

  /** Lexicographic order of sequences of one length. */
  predicate LexLess(a: seq<nat>, b: seq<nat>) {
    exists p | 0 <= p < |a| && p < |b| :: a[..p] == b[..p] && a[p] < b[p]
  }

  lemma WithComesFirst(n: nat, k: nat, i: nat, current: seq<nat>, a: seq<nat>, b: seq<nat>)
    requires |current| < k && Continues(a, n, k, i + 1, current + [i]) && Continues(b, n, k, i + 1, current)
    ensures LexLess(a, b)
  {
    var c := |current|;
    assert (current + [i])[c] == i && a[c] == i;
    assert b[c] == b[c..][0];
    assert a[..c] == current && b[..c] == current;
  }

  /** `choose` lists the groups in strict lexicographic order, so none comes twice. */
  lemma {:induction false} GroupsOrdered(n: nat, k: nat, i: nat, current: seq<nat>, x: nat, y: nat)
    requires i <= n && |current| <= k
    requires x < y < |Groups(n, k, i, current)|
    ensures LexLess(Groups(n, k, i, current)[x], Groups(n, k, i, current)[y])
    decreases n - i
  {
    if |current| < k && k - |current| <= n - i {
      GroupsSplit(n, k, i, current);
      hide Groups, LexLess, Continues;
      var with, without := Groups(n, k, i + 1, current + [i]), Groups(n, k, i + 1, current);
      if y < |with| {
        GroupsOrdered(n, k, i + 1, current + [i], x, y);
      } else if x >= |with| {
        GroupsOrdered(n, k, i + 1, current, x - |with|, y - |with|);
      } else {
        var a, b := with[x], without[y - |with|];
        GroupsExact(n, k, i + 1, current + [i], a);
        GroupsExact(n, k, i + 1, current, b);
        WithComesFirst(n, k, i, current, a, b);
      }
    }
  }

  lemma LexLessDiffers(a: seq<nat>, b: seq<nat>)
    requires LexLess(a, b)
    ensures a != b
  {
  }

  lemma {:induction false} GroupsCount(n: nat, k: nat, i: nat, current: seq<nat>)
    requires i <= n && |current| <= k
    ensures |Groups(n, k, i, current)| == Binomial(n - i, k - |current|)
    decreases n - i
  {
    if |current| < k {
      if k - |current| > n - i {
        BinomialBounds(n - i, k - |current|);
      } else {
        GroupsCount(n, k, i + 1, current + [i]);
        GroupsCount(n, k, i + 1, current);
      }
    }
  }

  /** `chooseKoutOfN(n, k)` lists every increasing k-sequence over 0..n-1 exactly once, in
      lexicographic order; there are C(n, k) of them. */
  lemma ChooseExact(n: nat, k: nat)
    ensures var groups := Groups(n, k, 0, []);
            && (forall s :: s in groups <==> |s| == k && Increasing(s, 0, n))
            && (forall x, y | 0 <= x < y < |groups| :: LexLess(groups[x], groups[y]) && groups[x] != groups[y])
            && |groups| == Binomial(n, k)
  {
    hide Groups, LexLess, Binomial, Increasing;
    var groups := Groups(n, k, 0, []);
    forall s
      ensures s in groups <==> |s| == k && Increasing(s, 0, n)
    {
      GroupsExact(n, k, 0, [], s);
      assert s[0..] == s;
    }
    forall x, y | 0 <= x < y < |groups|
      ensures LexLess(groups[x], groups[y]) && groups[x] != groups[y]
    {
      GroupsOrdered(n, k, 0, [], x, y);
      LexLessDiffers(groups[x], groups[y]);
    }
    GroupsCount(n, k, 0, []);
  }

  // ----- Pruning -----

  /** The elements at the given positions. */
  function Select<T>(s: seq<T>, at: seq<nat>): (r: seq<T>)
    requires forall j | 0 <= j < |at| :: at[j] < |s|
    ensures |r| == |at|
  {
    seq(|at|, j requires 0 <= j < |at| => s[at[j]])
  }

  /** `r` is what is left of `s` after removing elements. */
  ghost predicate Subsequence<T>(r: seq<T>, s: seq<T>) {
    exists at :: Increasing(at, 0, |s|) && r == Select(s, at)
  }

  /** How far the pruning loop goes: it stops at the first length that has few enough choices. */
  predicate PrunedLength(n: nat, m: nat, k: nat, bound: int) {
    && m <= n && !CombinationsExceed(m, k, bound)
    && forall l | m < l <= n :: CombinationsExceed(l, k, bound)
  }

  lemma RemoveKeepsSubsequence<T>(s: seq<T>, at: seq<nat>, victim: nat)
    requires Increasing(at, 0, |s|) && victim < |at|
    ensures var r := Select(s, at);
            Subsequence(r[..victim] + r[victim + 1..], s)
  {
    var r, less := Select(s, at), at[..victim] + at[victim + 1..];
    assert Increasing(less, 0, |s|);
    assert r[..victim] + r[victim + 1..] == Select(s, less);
  }

  /** The pruning loop of `computeDescendantPermutations`, with any choice of victims. Removing from an
      empty list panics, which happens exactly for a threshold of zero and a bound below one. */
  method Prune<T>(descendants: seq<T>, k: nat, bound: int) returns (left: Option<seq<T>>)
    ensures left.None? <==> k == 0 && bound < 1
    ensures left.Some? ==> Subsequence(left.value, descendants)
    ensures left.Some? ==> PrunedLength(|descendants|, |left.value|, k, bound)
  {
    var kids := descendants;
    ghost var at: seq<nat> := seq(|kids|, i => i);
    assert kids == Select(descendants, at);
    assert Subsequence(kids, descendants);
    while CombinationsExceed(|kids|, k, bound)
      invariant |kids| <= |descendants| && Subsequence(kids, descendants)
      invariant forall l | |kids| < l <= |descendants| :: CombinationsExceed(l, k, bound)
      decreases |kids|
    {
      if |kids| == 0 {
        assert k == 0 && bound < 1;
        return None;
      }
      var victim: nat :| victim < |kids|;
      at :| Increasing(at, 0, |descendants|) && kids == Select(descendants, at);
      RemoveKeepsSubsequence(descendants, at, victim);
      kids := kids[..victim] + kids[victim + 1..];
    }
    return Some(kids);
  }

  /** More elements have more choices. */
  lemma {:induction false} BinomialGrows(n: nat, m: nat, k: nat)
    requires m <= n
    ensures Binomial(m, k) <= Binomial(n, k)
    decreases n - m
  {
    if m < n { BinomialGrows(n, m + 1, k); }
  }

  /** Pruning stops as soon as it may and no sooner. Nothing is removed exactly when there are few enough choices
      from the start; otherwise what is left has few enough, and with one element more there would be too many.
      So it keeps the longest length that will do. */
  lemma PruningStopsInTime(n: nat, m: nat, k: nat, bound: int)
    requires PrunedLength(n, m, k, bound)
    ensures m == n <==> n < k || Binomial(n, k) <= bound
    ensures m < k || Binomial(m, k) <= bound
    ensures m < n ==> m + 1 >= k && Binomial(m + 1, k) > bound
    ensures forall l | l <= n && (l < k || Binomial(l, k) <= bound) :: l <= m
  {
    if m < n {
      assert CombinationsExceed(n, k, bound) && CombinationsExceed(m + 1, k, bound);
    }
    forall l | m < l <= n
      ensures l >= k && Binomial(l, k) > bound
    {
      assert CombinationsExceed(l, k, bound);
    }
  }

  /** With a bound of at least one, pruning ends with at most that many choices and never goes below the
      threshold when it starts at or above it. */
  lemma PruningKeepsThreshold(n: nat, m: nat, k: nat, bound: int)
    requires PrunedLength(n, m, k, bound) && bound >= 1
    ensures Binomial(m, k) <= bound
    ensures n >= k ==> m >= k
    ensures n < k ==> m == n
  {
    BinomialBounds(m, k);
    BinomialBounds(k, k);
    assert m < k <= n ==> CombinationsExceed(k, k, bound);
    assert m < n ==> CombinationsExceed(n, k, bound);
  }

  /** With a smaller bound it always goes one below the threshold. */
  lemma SmallBoundLosesThreshold(n: nat, m: nat, k: nat, bound: int)
    requires PrunedLength(n, m, k, bound) && bound < 1 && n >= k >= 1
    ensures m == k - 1
  {
    BinomialBounds(m, k);
    assert m < k - 1 ==> CombinationsExceed(k - 1, k, bound);
  }
}
