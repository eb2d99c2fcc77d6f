/** When the converted policy is stricter than the implicit meta policy it was made from, and when it is the same
    (common/policies/convert.go). */
module ConversionMeaning {
  import opened Basics
  import opened SignaturePolicy
  import opened GreedyMonotone
  import opened Policies
  import opened PolicyConvert
  import opened ConversionLaxer

  // ----- Whom a rule looks at -----

  /** The identity satisfies some leaf of the rule. */
  predicate Relevant(rule: Rule, sat: Satisfies, id: Identity) {
    match rule
    case Leaf(p) => sat(id, p)
    case Gate(_, rules) => exists r | r in rules :: Relevant(r, sat, id)
  }

  predicate RelevantToSome(rules: seq<Rule>, sat: Satisfies, id: Identity) {
    exists r | r in rules :: Relevant(r, sat, id)
  }

  /** The arrays agree on everybody watched. */
  ghost predicate AgreeOn(watched: Identity -> bool, ids: seq<Identity>, used: seq<bool>, used': seq<bool>) {
    |used| == |ids| == |used'| && forall i | 0 <= i < |ids| && watched(ids[i]) :: used[i] == used'[i]
  }

  lemma {:induction false} TouchesOnlyRelevant(rule: Rule, sat: Satisfies, ids: seq<Identity>, used: seq<bool>, i: nat)
    requires |used| == |ids| && i < |ids| && !Relevant(rule, sat, ids[i])
    ensures Eval(rule, sat, ids, used).1[i] == used[i]
    decreases rule, 1
  {
    if rule.Gate? { RulesTouchOnlyRelevant(rule.rules, sat, ids, used, i); }
  }

  lemma {:induction false} RulesTouchOnlyRelevant(rules: seq<Rule>, sat: Satisfies, ids: seq<Identity>,
                                                  used: seq<bool>, i: nat)
    requires |used| == |ids| && i < |ids| && !RelevantToSome(rules, sat, ids[i])
    ensures EvalRules(rules, sat, ids, used).1[i] == used[i]
    decreases rules, 0
  {
    hide Eval, Relevant;
    if rules != [] {
      TouchesOnlyRelevant(rules[0], sat, ids, used, i);
      RulesTouchOnlyRelevant(rules[1..], sat, ids, After(rules[0], sat, ids, used), i);
    }
  }

  lemma {:induction false} LooksOnlyAtRelevant(rule: Rule, sat: Satisfies, watched: Identity -> bool,
                                               ids: seq<Identity>,
                                               used: seq<bool>, used': seq<bool>)
    requires AgreeOn(watched, ids, used, used')
    requires forall i | 0 <= i < |ids| && Relevant(rule, sat, ids[i]) :: watched(ids[i])
    ensures Eval(rule, sat, ids, used).0 == Eval(rule, sat, ids, used').0
    ensures AgreeOn(watched, ids, Eval(rule, sat, ids, used).1, Eval(rule, sat, ids, used').1)
    decreases rule, 1
  {
    if rule.Gate? { RulesLookOnlyAtRelevant(rule.rules, sat, watched, ids, used, used'); }
  }

  lemma {:induction false} RulesLookOnlyAtRelevant(rules: seq<Rule>, sat: Satisfies, watched: Identity -> bool,
                                                   ids: seq<Identity>, used: seq<bool>, used': seq<bool>)
    requires AgreeOn(watched, ids, used, used')
    requires forall i | 0 <= i < |ids| && RelevantToSome(rules, sat, ids[i]) :: watched(ids[i])
    ensures EvalRules(rules, sat, ids, used).0 == EvalRules(rules, sat, ids, used').0
    ensures AgreeOn(watched, ids, EvalRules(rules, sat, ids, used).1, EvalRules(rules, sat, ids, used').1)
    decreases rules, 0
  {
    hide Eval, Relevant;
    if rules != [] {
      assert forall i | 0 <= i < |ids| && Relevant(rules[0], sat, ids[i]) :: RelevantToSome(rules, sat, ids[i]);
      assert forall i | 0 <= i < |ids| && RelevantToSome(rules[1..], sat, ids[i]) :: RelevantToSome(rules, sat, ids[i]);
      LooksOnlyAtRelevant(rules[0], sat, watched, ids, used, used');
      RulesLookOnlyAtRelevant(rules[1..], sat, watched, ids, After(rules[0], sat, ids, used),
        After(rules[0], sat, ids, used'));
    }
  }

  // ----- Where the conversion agrees -----

  /** No identity is relevant to two of the rules. */
  ghost predicate Separate(rules: seq<Rule>, sat: Satisfies, ids: seq<Identity>) {
    forall i, j, k | 0 <= i < |ids| && 0 <= j < k < |rules| ::
      !(Relevant(rules[j], sat, ids[i]) && Relevant(rules[k], sat, ids[i]))
  }

  /** Implicit meta policies, nested in any way, each of which either is met by one sub-policy or has no
      identity that can serve two of them. */
  ghost predicate ServedOnce(p: Policy, sat: Satisfies, ids: seq<Identity>)
    requires WellFormed(p) && Convertible(p)
    decreases p
  {
    match p
    case Signature(env) => true
    case ImplicitMeta(threshold, subs) =>
      && Proper(threshold, subs) && (threshold == 1 || Separate(RulesOf(subs), sat, ids))
      && forall i | 0 <= i < |subs| :: ServedOnce(subs[i], sat, ids)
  }

  /** Nobody relevant to the rule has been used. */
  ghost predicate Untouched(rule: Rule, sat: Satisfies, ids: seq<Identity>, used: seq<bool>) {
    |used| == |ids| && forall i | 0 <= i < |ids| && Relevant(rule, sat, ids[i]) :: !used[i]
  }

  /** A conversion whose sub-policies are served once accepts exactly what the original accepts, for
      signature policies of any kind. */
  lemma {:induction false} ConversionAgrees(p: Policy, sat: Satisfies, ids: seq<Identity>)
    requires WellFormed(p) && Convertible(p) && ServedOnce(p, sat, ids)
    ensures Accepts(RuleOf(p), sat, ids) <==> Evaluated(p, sat, ids)
    decreases p, 1
  {
    if p.ImplicitMeta? {
      if p.threshold == 1 {
        FirstMetAgrees(p.subPolicies, sat, ids);
      } else {
        SeparateCountsAgree(p.subPolicies, sat, ids, Fresh(|ids|));
      }
    }
  }

  /** The first sub-policy met is met on a fresh array. */
  lemma {:induction false} FirstMetAgrees(subs: seq<Policy>, sat: Satisfies, ids: seq<Identity>)
    requires AllUsable(subs) && forall j | 0 <= j < |subs| :: ServedOnce(subs[j], sat, ids)
    ensures EvalRules(RulesOf(subs), sat, ids, Fresh(|ids|)).0 >= 1 <==> Satisfied(subs, sat, ids) >= 1
    decreases subs, 0
  {
    hide Eval;
    if subs != [] {
      RulesOfTail(subs);
      ConversionAgrees(subs[0], sat, ids);
      FirstMetAgrees(subs[1..], sat, ids);
    }
  }

  /** A sub-policy that shares nobody with the earlier ones might as well have a fresh array. */
  lemma {:induction false} SeparateCountsAgree(subs: seq<Policy>, sat: Satisfies, ids: seq<Identity>, used: seq<bool>)
    requires AllUsable(subs) && Separate(RulesOf(subs), sat, ids) && |used| == |ids|
    requires forall j | 0 <= j < |subs| :: ServedOnce(subs[j], sat, ids)
    requires forall j | 0 <= j < |subs| :: Untouched(RulesOf(subs)[j], sat, ids, used)
    ensures EvalRules(RulesOf(subs), sat, ids, used).0 == Satisfied(subs, sat, ids)
    decreases subs, 0
  {
    hide Eval, Relevant;
    if subs != [] {
      RulesOfTail(subs);
      var rules, rest := RulesOf(subs), RulesOf(subs[1..]);
      LooksOnlyAtRelevant(rules[0], sat, id => Relevant(rules[0], sat, id), ids, used, Fresh(|ids|));
      ConversionAgrees(subs[0], sat, ids);
      var next := After(rules[0], sat, ids, used);
      assert forall j | 0 <= j < |rest| :: rest[j] == rules[j + 1];
      forall j | 0 <= j < |rest|
        ensures Untouched(rest[j], sat, ids, next)
      {
        assert Untouched(rules[j + 1], sat, ids, used);
        forall i | 0 <= i < |ids| && Relevant(rest[j], sat, ids[i])
          ensures !next[i]
        {
          TouchesOnlyRelevant(rules[0], sat, ids, used, i);
        }
      }
      SeparateCountsAgree(subs[1..], sat, ids, next);
    }
  }

  // ----- Exactly when the conversion agrees, for sub-policies that one signer can meet -----

  /** A leaf, or a gate that asks for one of such rules. */
  predicate MetByOne(rule: Rule) {
    rule.Leaf? || (rule.n == 1 && forall r | r in rule.rules :: MetByOne(r))
  }

  ghost function Free(used: seq<bool>): set<nat> { set i | 0 <= i < |used| && !used[i] }

  /** Somebody free is relevant to the rule. */
  ghost predicate Available(rule: Rule, sat: Satisfies, ids: seq<Identity>, used: seq<bool>) {
    |used| == |ids| && exists i | 0 <= i < |ids| :: !used[i] && Relevant(rule, sat, ids[i])
  }

  /** Such a rule is met exactly when somebody free is relevant to it, and then uses somebody. */
  lemma {:induction false} MetByOneExact(rule: Rule, sat: Satisfies, ids: seq<Identity>, used: seq<bool>)
    requires MetByOne(rule) && |used| == |ids|
    ensures Eval(rule, sat, ids, used).0 <==> Available(rule, sat, ids, used)
    ensures |Free(After(rule, sat, ids, used))| + One(Eval(rule, sat, ids, used).0) <= |Free(used)|
    decreases rule, 1
  {
    if rule.Leaf? {
      var i := Pick(sat, rule.principal, ids, used, 0);
      if i.Some? { assert Free(used[i.value := true]) == Free(used) - {i.value}; }
    } else {
      EachUsesSomebody(rule.rules, sat, ids, used);
      assert Available(rule, sat, ids, used) <==> exists r | r in rule.rules :: Available(r, sat, ids, used);
    }
  }

  lemma {:induction false} EachUsesSomebody(rules: seq<Rule>, sat: Satisfies, ids: seq<Identity>, used: seq<bool>)
    requires (forall r | r in rules :: MetByOne(r)) && |used| == |ids|
    ensures EvalRules(rules, sat, ids, used).0 >= 1 <==> exists r | r in rules :: Available(r, sat, ids, used)
    ensures |Free(EvalRules(rules, sat, ids, used).1)| + EvalRules(rules, sat, ids, used).0 <= |Free(used)|
    decreases rules, 0
  {
    hide Eval, MetByOne, Available, Free;
    if rules != [] {
      MetByOneExact(rules[0], sat, ids, used);
      EachUsesSomebody(rules[1..], sat, ids, After(rules[0], sat, ids, used));
      assert rules == [rules[0]] + rules[1..];
    }
  }

  lemma {:induction false} MetByOneIsPlain(rule: Rule)
    requires MetByOne(rule)
    ensures Plain(rule)
  {
    if rule.Gate? {
      forall r | r in rule.rules ensures Plain(r) { MetByOneIsPlain(r); }
    }
  }

  lemma {:induction false} MetByOneIsServedOnce(p: Policy, sat: Satisfies, ids: seq<Identity>)
    requires WellFormed(p) && Convertible(p) && MetByOne(RuleOf(p))
    ensures ServedOnce(p, sat, ids) && SteadyAfter(p, false)
    decreases p
  {
    MetByOneIsPlain(RuleOf(p));
    if p.ImplicitMeta? {
      forall i | 0 <= i < |p.subPolicies|
        ensures ServedOnce(p.subPolicies[i], sat, ids) && SteadyAfter(p.subPolicies[i], false)
      {
        RulesOfAt(p.subPolicies, i);
        assert RulesOf(p.subPolicies)[i] in RuleOf(p).rules;
        MetByOneIsServedOnce(p.subPolicies[i], sat, ids);
      }
    }
  }

  ghost predicate AllMetByOne(subs: seq<Policy>) {
    AllUsable(subs) && forall i | 0 <= i < |subs| :: MetByOne(RuleOf(subs[i]))
  }

  /** Such a sub-policy is satisfied exactly when somebody is relevant to it. */
  lemma OneIsEnough(p: Policy, sat: Satisfies, ids: seq<Identity>)
    requires WellFormed(p) && Convertible(p) && MetByOne(RuleOf(p))
    ensures Evaluated(p, sat, ids) <==> exists i | 0 <= i < |ids| :: Relevant(RuleOf(p), sat, ids[i])
  {
    MetByOneIsServedOnce(p, sat, ids);
    ConversionAgrees(p, sat, ids);
    MetByOneExact(RuleOf(p), sat, ids, Fresh(|ids|));
  }

  ghost function SatisfiedSet(subs: seq<Policy>, sat: Satisfies, ids: seq<Identity>): set<nat>
    requires AllUsable(subs)
  {
    set i | 0 <= i < |subs| && Evaluated(subs[i], sat, ids)
  }

  lemma {:induction false} SatisfiedCounts(subs: seq<Policy>, sat: Satisfies, ids: seq<Identity>)
    requires AllUsable(subs)
    ensures Satisfied(subs, sat, ids) == |SatisfiedSet(subs, sat, ids)|
    decreases |subs|
  {
    hide Evaluated, WellFormed, Convertible;
    if subs == [] {
      assert SatisfiedSet(subs, sat, ids) == {};
    } else {
      var n := |subs| - 1;
      var front := subs[..n];
      assert subs == front + [subs[n]];
      SatisfiedSnoc(front, subs[n], sat, ids);
      SatisfiedCounts(front, sat, ids);
      var before := SatisfiedSet(front, sat, ids);
      assert SatisfiedSet(subs, sat, ids) == if Evaluated(subs[n], sat, ids) then before + {n} else before;
    }
  }

  /** The sub-policies that somebody could meet. */
  ghost function Satisfiable(subs: seq<Policy>, sat: Satisfies): set<nat>
    requires AllUsable(subs)
  {
    set i | 0 <= i < |subs| && exists id :: Relevant(RuleOf(subs[i]), sat, id)
  }

  /** The identity could serve both sub-policies. */
  ghost predicate ServesBoth(id: Identity, subs: seq<Policy>, sat: Satisfies, i: nat, j: nat)
    requires AllUsable(subs) && i < |subs| && j < |subs|
  {
    Relevant(RuleOf(subs[i]), sat, id) && Relevant(RuleOf(subs[j]), sat, id)
  }

  ghost predicate Disjoint(subs: seq<Policy>, sat: Satisfies)
    requires AllUsable(subs)
  {
    forall id, i: nat, j: nat | i < j < |subs| :: !ServesBoth(id, subs, sat, i, j)
  }

  /** Whoever signs, the conversion gives the verdict of the original. */
  ghost predicate AlwaysAgrees(p: Policy, sat: Satisfies)
    requires WellFormed(p) && Convertible(p)
  {
    forall ids :: Accepts(RuleOf(p), sat, ids) <==> Evaluated(p, sat, ids)
  }

  /** One representative for each of `n` satisfiable sub-policies. */
  lemma {:induction false} Representatives(subs: seq<Policy>, sat: Satisfies, from: set<nat>, n: nat)
    returns (some: set<nat>, ids: seq<Identity>)
    requires AllUsable(subs) && from <= Satisfiable(subs, sat) && n <= |from|
    ensures some <= from && |some| == n == |ids|
    ensures forall i | i in some :: exists e | 0 <= e < |ids| :: Relevant(RuleOf(subs[i]), sat, ids[e])
    decreases n
  {
    if n == 0 {
      some, ids := {}, [];
    } else {
      var i :| i in from;
      var id :| Relevant(RuleOf(subs[i]), sat, id);
      var rest, others := Representatives(subs, sat, from - {i}, n - 1);
      some, ids := rest + {i}, [id] + others;
      forall k | k in some
        ensures exists e | 0 <= e < |ids| :: Relevant(RuleOf(subs[k]), sat, ids[e])
      {
        if k == i {
          assert Relevant(RuleOf(subs[k]), sat, ids[0]);
        } else {
          var e :| 0 <= e < |others| && Relevant(RuleOf(subs[k]), sat, others[e]);
          assert ids[e + 1] == others[e];
        }
      }
    }
  }

  lemma {:induction false} AllFree(n: nat)
    ensures |Free(Fresh(n))| == n
  {
    if n == 0 {
      assert Free(Fresh(0)) == {};
    } else {
      AllFree(n - 1);
      assert Free(Fresh(n)) == Free(Fresh(n - 1)) + {n - 1};
    }
  }

  /** No more sub-policies are met in the conversion than there are signers. */
  lemma SignersBoundTheCount(subs: seq<Policy>, sat: Satisfies, ids: seq<Identity>)
    requires AllMetByOne(subs)
    ensures EvalRules(RulesOf(subs), sat, ids, Fresh(|ids|)).0 <= |ids|
  {
    var rules := RulesOf(subs);
    forall r | r in rules
      ensures MetByOne(r)
    {
      var i :| 0 <= i < |rules| && rules[i] == r;
      RulesOfAt(subs, i);
    }
    EachUsesSomebody(rules, sat, ids, Fresh(|ids|));
    AllFree(|ids|);
  }

  /** One signer who serves two sub-policies makes the conversion stricter at every threshold from two to the
      number of satisfiable sub-policies. */
  lemma SharedSignerMakesStricter(threshold: nat, subs: seq<Policy>, sat: Satisfies, x: Identity, i: nat, j: nat)
    returns (ids: seq<Identity>)
    requires AllMetByOne(subs) && 2 <= threshold <= |Satisfiable(subs, sat)|
    requires i < j < |subs| && ServesBoth(x, subs, sat, i, j)
    ensures Evaluated(ImplicitMeta(threshold, subs), sat, ids) &&
            !Accepts(RuleOf(ImplicitMeta(threshold, subs)), sat, ids)
  {
    hide Eval, EvalRules, RuleOf, Evaluated, MetByOne;
    var all := Satisfiable(subs, sat);
    var some, others := Representatives(subs, sat, all - {i, j}, threshold - 2);
    ids := [x] + others;
    var met := some + {i, j};
    forall k | k in met
      ensures k in SatisfiedSet(subs, sat, ids)
    {
      if k == i || k == j {
        assert ids[0] == x;
      } else {
        var e :| 0 <= e < |others| && Relevant(RuleOf(subs[k]), sat, others[e]);
        assert ids[e + 1] == others[e];
      }
      OneIsEnough(subs[k], sat, ids);
    }
    SubsetSize(met, SatisfiedSet(subs, sat, ids));
    SatisfiedCounts(subs, sat, ids);
    SignersBoundTheCount(subs, sat, ids);
    MetaVerdicts(threshold, subs, sat, ids);
  }

  lemma MetaVerdicts(threshold: nat, subs: seq<Policy>, sat: Satisfies, ids: seq<Identity>)
    requires AllUsable(subs) && threshold >= 1
    ensures Evaluated(ImplicitMeta(threshold, subs), sat, ids) <==> Satisfied(subs, sat, ids) >= threshold
    ensures Accepts(RuleOf(ImplicitMeta(threshold, subs)), sat, ids) <==>
            EvalRules(RulesOf(subs), sat, ids, Fresh(|ids|)).0 >= threshold
  {
  }

  /** For sub-policies that one signer can meet, the conversion always agrees with the original exactly when one
      sub-policy is enough, or more are asked for than can be met, or nobody could serve two of them. */
  lemma AgreesExactly(threshold: nat, subs: seq<Policy>, sat: Satisfies)
    requires AllMetByOne(subs) && threshold >= 1
    ensures AlwaysAgrees(ImplicitMeta(threshold, subs), sat) <==>
            threshold == 1 || threshold > |Satisfiable(subs, sat)| || Disjoint(subs, sat)
  {
    hide RuleOf, RulesOf, Evaluated, Eval, EvalRules, MetByOne, Satisfiable, ServesBoth;
    if threshold == 1 || Disjoint(subs, sat) {
      forall ids
        ensures Accepts(RuleOf(ImplicitMeta(threshold, subs)), sat, ids) <==>
                Evaluated(ImplicitMeta(threshold, subs), sat, ids)
      {
        AgreesWhenServedOnce(threshold, subs, sat, ids);
      }
    } else if threshold > |Satisfiable(subs, sat)| {
      forall ids
        ensures Accepts(RuleOf(ImplicitMeta(threshold, subs)), sat, ids) <==>
                Evaluated(ImplicitMeta(threshold, subs), sat, ids)
      {
        NeitherAccepts(threshold, subs, sat, ids);
      }
    } else {
      var x, i: nat, j: nat :| i < j < |subs| && ServesBoth(x, subs, sat, i, j);
      var ids := SharedSignerMakesStricter(threshold, subs, sat, x, i, j);
    }
  }

  lemma AgreesWhenServedOnce(threshold: nat, subs: seq<Policy>, sat: Satisfies, ids: seq<Identity>)
    requires AllMetByOne(subs) && threshold >= 1 && (threshold == 1 || Disjoint(subs, sat))
    ensures Accepts(RuleOf(ImplicitMeta(threshold, subs)), sat, ids) <==>
            Evaluated(ImplicitMeta(threshold, subs), sat, ids)
  {
    forall i | 0 <= i < |subs|
      ensures ServedOnce(subs[i], sat, ids)
    {
      MetByOneIsServedOnce(subs[i], sat, ids);
    }
    hide Relevant, RuleOf, RulesOf, MetByOne;
    if Disjoint(subs, sat) { DisjointIsSeparate(subs, sat, ids); }
    ConversionAgrees(ImplicitMeta(threshold, subs), sat, ids);
  }

  lemma DisjointIsSeparate(subs: seq<Policy>, sat: Satisfies, ids: seq<Identity>)
    requires AllUsable(subs) && Disjoint(subs, sat)
    ensures Separate(RulesOf(subs), sat, ids)
  {
    forall e, j: nat, k: nat | 0 <= e < |ids| && j < k < |subs|
      ensures !(Relevant(RulesOf(subs)[j], sat, ids[e]) && Relevant(RulesOf(subs)[k], sat, ids[e]))
    {
      RulesOfAt(subs, j);
      RulesOfAt(subs, k);
      assert !ServesBoth(ids[e], subs, sat, j, k);
    }
  }

  lemma NeitherAccepts(threshold: nat, subs: seq<Policy>, sat: Satisfies, ids: seq<Identity>)
    requires AllMetByOne(subs) && threshold >= 1 && threshold > |Satisfiable(subs, sat)|
    ensures !Accepts(RuleOf(ImplicitMeta(threshold, subs)), sat, ids)
    ensures !Evaluated(ImplicitMeta(threshold, subs), sat, ids)
  {
    forall i | 0 <= i < |subs|
      ensures MonotoneAfter(subs[i], sat, false)
      ensures i in SatisfiedSet(subs, sat, ids) ==> i in Satisfiable(subs, sat)
    {
      MetByOneIsServedOnce(subs[i], sat, ids);
      SteadyAfterIsMonotone(subs[i], sat, false);
      OneIsEnough(subs[i], sat, ids);
    }
    hide RuleOf, RulesOf, Evaluated, Eval, EvalRules, MetByOne, MonotoneAfter;
    SubsetSize(SatisfiedSet(subs, sat, ids), Satisfiable(subs, sat));
    SatisfiedCounts(subs, sat, ids);
    SharedCountsNoMore(subs, sat, ids, Fresh(|ids|), false);
    MetaVerdicts(threshold, subs, sat, ids);
  }

  // ----- An example -----

  /** It can be stricter: one signer counts for both sub-policies of the original, but only once in
      the conversion. */
  lemma ConvertedCanBeStricter()
    ensures var q := Signature(Envelope(0, SignedBy(0), [Principal(IDENTITY, "q")]));
            var meta := ImplicitMeta(2, [q, q]);
            && WellFormed(meta) && Convertible(meta)
            && Evaluated(meta, Is, [Identity("m", "q")])
            && !Accepts(RuleOf(meta), Is, [Identity("m", "q")])
  {
    var q := Signature(Envelope(0, SignedBy(0), [Principal(IDENTITY, "q")]));
    var subs, ids, free := [q, q], [Identity("m", "q")], Fresh(1);
    assert subs[1..] == [q] && [q][1..] == [];
    assert free == [false];
    assert RuleOf(q) == LeafFor("q");
    LeafFinds("q", Is, ids, free, 0);
    assert Evaluated(q, Is, ids);
    assert free[0 := true] == [true];
    LeafMisses("q", Is, ids, [true]);
    var rules := RulesOf(subs);
    assert RulesOf([q]) == [RuleOf(q)];
    assert rules == [RuleOf(q), RuleOf(q)];
    RulesStep(rules, Is, ids, free);
    assert rules[1..] == [RuleOf(q)];
    RulesStep([RuleOf(q)], Is, ids, [true]);
    assert [RuleOf(q)][1..] == [];
    NoRules(Is, ids, [true]);
  }
}
