/** A used identity acts like an absent one: evaluating a rule on a partly used array is evaluating it for the
    identities that are still free (common/cauthdsl/cauthdsl.go). */
module AbsentSigners {
  import opened Basics
  import opened SignaturePolicy
  import opened GreedyMonotone
  import opened MonotoneExactly

  /** `few` are the identities of `ids` at the positions `at`, used alike; everybody else is used. */
  ghost predicate Mirrors(at: seq<nat>, few: seq<Identity>, u: seq<bool>, ids: seq<Identity>, used: seq<bool>) {
    && Embeds(at, few, ids) && |u| == |few| && |used| == |ids|
    && (forall j | 0 <= j < |few| :: u[j] == used[at[j]])
    && (forall i {:trigger i in at} | 0 <= i < |ids| && !used[i] :: i in at)
  }

  lemma PickIs(sat: Satisfies, p: Principal, ids: seq<Identity>, used: seq<bool>, r: Option<nat>)
    requires |used| == |ids| && (r.Some? ==> r.value < |ids| && !used[r.value] && sat(ids[r.value], p))
    requires forall i | 0 <= i < (if r.Some? then r.value else |ids|) :: used[i] || !sat(ids[i], p)
    ensures Pick(sat, p, ids, used, 0) == r
  {
  }

  /** Whoever is free stands at one of the positions. */
  lemma FreeIsMirrored(at: seq<nat>, few: seq<Identity>, u: seq<bool>, ids: seq<Identity>, used: seq<bool>, i: nat)
    returns (k: nat)
    requires Mirrors(at, few, u, ids, used) && i < |ids| && !used[i]
    ensures k < |few| == |at| == |u| && at[k] == i && few[k] == ids[i] && !u[k]
  {
    assert i in at;
    k :| 0 <= k < |at| && at[k] == i;
  }

  lemma MirroredAt(at: seq<nat>, few: seq<Identity>, u: seq<bool>, ids: seq<Identity>, used: seq<bool>, j: nat)
    requires Mirrors(at, few, u, ids, used) && j < |few|
    ensures |at| == |few| == |u| && |used| == |ids| && at[j] < |ids| && ids[at[j]] == few[j] && used[at[j]] == u[j]
    ensures forall k | 0 <= k < |at| && at[k] < at[j] :: k < j
  {
  }

  lemma LeafMirrors(p: Principal, sat: Satisfies, at: seq<nat>, few: seq<Identity>, u: seq<bool>, ids: seq<Identity>,
                    used: seq<bool>)
    requires Mirrors(at, few, u, ids, used)
    ensures Pick(sat, p, ids, used, 0) ==
            match Pick(sat, p, few, u, 0) case Some(j) => Some(at[j]) case None => None
  {
    MirrorsSizes(at, few, u, ids, used);
    hide Mirrors;
    var j := Pick(sat, p, few, u, 0);
    if j.Some? { MirroredAt(at, few, u, ids, used, j.value); }
    hide Pick;
    var r := match j case Some(k) => Some(at[k]) case None => None;
    forall i | 0 <= i < if r.Some? then r.value else |ids|
      ensures used[i] || !sat(ids[i], p)
    {
      if !used[i] {
        var k := FreeIsMirrored(at, few, u, ids, used, i);
      }
    }
    PickIs(sat, p, ids, used, r);
  }

  lemma MirrorsUpdate(at: seq<nat>, few: seq<Identity>, u: seq<bool>, ids: seq<Identity>, used: seq<bool>, j: nat)
    requires Mirrors(at, few, u, ids, used) && j < |few|
    ensures Mirrors(at, few, u[j := true], ids, used[at[j] := true])
  {
  }

  lemma {:induction false} UsedIsAbsent(rule: Rule, sat: Satisfies, at: seq<nat>,
                                        few: seq<Identity>, u: seq<bool>, ids: seq<Identity>, used: seq<bool>)
    requires Mirrors(at, few, u, ids, used)
    ensures Eval(rule, sat, few, u).0 == Eval(rule, sat, ids, used).0
    ensures Mirrors(at, few, Eval(rule, sat, few, u).1, ids, Eval(rule, sat, ids, used).1)
    decreases rule, 1
  {
    hide Mirrors;
    match rule
    case Leaf(p) =>
      assert |u| == |few| && |used| == |ids| by { MirrorsSizes(at, few, u, ids, used); }
      LeafMirrors(p, sat, at, few, u, ids, used);
      var j := Pick(sat, p, few, u, 0);
      if j.Some? { MirrorsUpdate(at, few, u, ids, used, j.value); }
    case Gate(_, rules) =>
      UsedAreAbsent(rules, sat, at, few, u, ids, used);
  }

  lemma MirrorsSizes(at: seq<nat>, few: seq<Identity>, u: seq<bool>, ids: seq<Identity>, used: seq<bool>)
    requires Mirrors(at, few, u, ids, used)
    ensures |u| == |few| == |at| && |used| == |ids|
  {
  }

  lemma {:induction false} UsedAreAbsent(rules: seq<Rule>, sat: Satisfies, at: seq<nat>,
                                         few: seq<Identity>, u: seq<bool>, ids: seq<Identity>, used: seq<bool>)
    requires Mirrors(at, few, u, ids, used)
    ensures EvalRules(rules, sat, few, u).0 == EvalRules(rules, sat, ids, used).0
    ensures Mirrors(at, few, EvalRules(rules, sat, few, u).1, ids, EvalRules(rules, sat, ids, used).1)
    decreases rules, 0
  {
    MirrorsSizes(at, few, u, ids, used);
    hide Mirrors, Eval;
    if rules != [] {
      UsedIsAbsent(rules[0], sat, at, few, u, ids, used);
      UsedAreAbsent(rules[1..], sat, at, few, After(rules[0], sat, few, u), ids, After(rules[0], sat, ids, used));
    }
  }

  /** The identities that are free, in order. */
  lemma {:induction false} FreeOnes(ids: seq<Identity>, used: seq<bool>, n: nat)
    returns (at: seq<nat>, few: seq<Identity>)
    requires |used| == |ids| && n <= |ids|
    ensures Embeds(at, few, ids) && forall i | 0 <= i < n :: !used[i] <==> i in at
    ensures forall j | 0 <= j < |at| :: at[j] < n
    decreases n
  {
    if n == 0 {
      at, few := [], [];
    } else {
      at, few := FreeOnes(ids, used, n - 1);
      if !used[n - 1] { at, few := at + [n - 1], few + [ids[n - 1]]; }
    }
  }

  lemma FreeMirrors(ids: seq<Identity>, used: seq<bool>) returns (at: seq<nat>, few: seq<Identity>)
    requires |used| == |ids|
    ensures Mirrors(at, few, Fresh(|few|), ids, used) && forall i | 0 <= i < |ids| && !used[i] :: i in at
  {
    at, few := FreeOnes(ids, used, |ids|);
    forall j | 0 <= j < |few| ensures !used[at[j]] { assert at[j] in at; }
  }

  // ----- Monotone rules are those that a fresh array never hurts -----

  ghost predicate FreshNeverHurts(rule: Rule, sat: Satisfies) {
    forall ids, used | |used| == |ids| && Eval(rule, sat, ids, used).0 :: Accepts(rule, sat, ids)
  }

  /** Everybody but those at the given positions has been used. */
  function AllBut(n: nat, at: seq<nat>): (used: seq<bool>)
    ensures |used| == n && forall i | 0 <= i < n :: used[i] <==> i !in at
  {
    seq(n, i requires 0 <= i < n => i !in at)
  }

  lemma AllButMirrors(at: seq<nat>, few: seq<Identity>, ids: seq<Identity>)
    requires Embeds(at, few, ids)
    ensures Mirrors(at, few, Fresh(|few|), ids, AllBut(|ids|, at))
  {
    hide AllBut;
  }

  /** Adding signers never hurts exactly when starting from a fresh array never does. */
  lemma MonotoneMeansFreshNeverHurts(rule: Rule, sat: Satisfies)
    ensures MonotoneFor(rule, sat) <==> FreshNeverHurts(rule, sat)
  {
    hide Eval;
    if MonotoneFor(rule, sat) {
      forall ids, used | |used| == |ids| && Eval(rule, sat, ids, used).0
        ensures Accepts(rule, sat, ids)
      {
        var at, few := FreeMirrors(ids, used);
        UsedIsAbsent(rule, sat, at, few, Fresh(|few|), ids, used);
        assert Embeds(at, few, ids) && Accepts(rule, sat, few);
      }
    }
    if FreshNeverHurts(rule, sat) {
      forall at, ids, more | Embeds(at, ids, more) && Accepts(rule, sat, ids)
        ensures Accepts(rule, sat, more)
      {
        AllButMirrors(at, ids, more);
        UsedIsAbsent(rule, sat, at, ids, Fresh(|ids|), more, AllBut(|more|, at));
      }
    }
  }

  // ----- One signer is enough to show a rule non-monotone -----

  /** Freeing the used identities one by one, some single one turns accept into reject. */
  lemma {:induction false} OneTurns(rule: Rule, sat: Satisfies, ids: seq<Identity>, used: seq<bool>, n: nat)
    returns (u: seq<bool>, i: nat)
    requires |used| == |ids| && n <= |ids| && (forall k | n <= k < |ids| :: !used[k])
    requires Eval(rule, sat, ids, used).0 && !Accepts(rule, sat, ids)
    ensures |u| == |ids| && i < |ids| && !u[i]
    ensures Eval(rule, sat, ids, u[i := true]).0 && !Eval(rule, sat, ids, u).0
    decreases n
  {
    hide Eval;
    var free := Fresh(|ids|);
    assert n == 0 ==> used == free;
    var next := used[n - 1 := false];
    if !used[n - 1] {
      u, i := OneTurns(rule, sat, ids, used, n - 1);
    } else if Eval(rule, sat, ids, next).0 {
      u, i := OneTurns(rule, sat, ids, next, n - 1);
    } else {
      u, i := next, n - 1;
      assert u[i := true] == used;
    }
  }

  /** A rule that is not monotone accepts some list with one identity used that it rejects afresh. */
  lemma OneSignerHurts(rule: Rule, sat: Satisfies) returns (ids: seq<Identity>, i: nat)
    requires !MonotoneFor(rule, sat)
    ensures i < |ids| && Eval(rule, sat, ids, Fresh(|ids|)[i := true]).0 && !Accepts(rule, sat, ids)
  {
    hide Eval;
    MonotoneMeansFreshNeverHurts(rule, sat);
    var all, used :| |used| == |all| && Eval(rule, sat, all, used).0 && !Accepts(rule, sat, all);
    var u, k := OneTurns(rule, sat, all, used, |all|);
    var at, few := FreeMirrors(all, u);
    assert k in at;
    i :| 0 <= i < |at| && at[i] == k;
    ids := few;
    UsedIsAbsent(rule, sat, at, few, Fresh(|few|), all, u);
    MirrorsUpdate(at, few, Fresh(|few|), all, u, i);
    UsedIsAbsent(rule, sat, at, few, Fresh(|few|)[i := true], all, u[k := true]);
  }

  // ----- Only the answers about the rule's own principals matter -----

  predicate Mentions(rule: Rule, p: Principal) {
    match rule
    case Leaf(q) => q == p
    case Gate(_, rules) => exists r | r in rules :: Mentions(r, p)
  }

  ghost predicate SameAnswers(rules: seq<Rule>, sat: Satisfies, ids: seq<Identity>, sat': Satisfies,
                              ids': seq<Identity>)
  {
    && |ids'| == |ids|
    && forall r, p, i | r in rules && Mentions(r, p) && 0 <= i < |ids| :: sat'(ids'[i], p) == sat(ids[i], p)
  }

  lemma {:induction false} SameVerdict(rule: Rule, sat: Satisfies, ids: seq<Identity>, sat': Satisfies,
                                       ids': seq<Identity>, used: seq<bool>)
    requires SameAnswers([rule], sat, ids, sat', ids') && |used| == |ids|
    ensures Eval(rule, sat', ids', used) == Eval(rule, sat, ids, used)
    decreases rule, 1
  {
    assert rule in [rule];
    match rule
    case Leaf(p) =>
      assert Mentions(rule, p);
      assert forall i | 0 <= i < |ids| :: sat'(ids'[i], p) == sat(ids[i], p);
    case Gate(_, rules) =>
      assert forall r, p | r in rules && Mentions(r, p) :: Mentions(rule, p);
      SameVerdicts(rules, sat, ids, sat', ids', used);
  }

  lemma {:induction false} SameVerdicts(rules: seq<Rule>, sat: Satisfies, ids: seq<Identity>, sat': Satisfies,
                                        ids': seq<Identity>, used: seq<bool>)
    requires SameAnswers(rules, sat, ids, sat', ids') && |used| == |ids|
    ensures EvalRules(rules, sat', ids', used) == EvalRules(rules, sat, ids, used)
    decreases rules, 0
  {
    hide Eval, Mentions;
    if rules != [] {
      SameVerdict(rules[0], sat, ids, sat', ids', used);
      SameVerdicts(rules[1..], sat, ids, sat', ids', After(rules[0], sat, ids, used));
    }
  }
}
