/** When the converted policy is laxer than the implicit meta policy it was made from: its gate shares one array of
    used identities among its rules, the sub-policies are evaluated each by itself (common/policies/convert.go). */
module ConversionLaxer {
  import opened Basics
  import opened SignaturePolicy
  import opened GreedyMonotone
  import opened MonotoneExactly
  import opened AbsentSigners
  import opened Policies
  import opened PolicyConvert

  ghost predicate AllUsable(subs: seq<Policy>) {
    forall i | 0 <= i < |subs| :: WellFormed(subs[i]) && Convertible(subs[i])
  }

  /** A threshold that the countdown compares with, as the rules ANY, ALL and MAJORITY choose it. */
  predicate Proper(threshold: int, subs: seq<Policy>) { threshold >= 1 || (threshold == 0 && subs == []) }

  lemma RulesOfTail(subs: seq<Policy>)
    requires AllUsable(subs) && subs != []
    ensures RulesOf(subs)[0] == RuleOf(subs[0]) && RulesOf(subs)[1..] == RulesOf(subs[1..])
  {
  }

  lemma {:induction false} RulesOfAt(subs: seq<Policy>, i: nat)
    requires AllUsable(subs) && i < |subs|
    ensures RulesOf(subs)[i] == RuleOf(subs[i])
    decreases |subs|
  {
    RulesOfTail(subs);
    if i > 0 { RulesOfAt(subs[1..], i - 1); }
  }

  // ----- Never laxer -----

  /** Implicit meta policies, nested in any way, over signature policies that adding signers never hurts. The one
      evaluated first may be any: it has a fresh array in the conversion too. */
  ghost predicate MonotoneAfter(p: Policy, sat: Satisfies, first: bool)
    requires WellFormed(p)
    decreases p
  {
    match p
    case Signature(env) => first || MonotoneFor(Compile(env.rule, env.identities).value, sat)
    case ImplicitMeta(threshold, subs) =>
      Proper(threshold, subs) && forall i | 0 <= i < |subs| :: MonotoneAfter(subs[i], sat, first && i == 0)
    case Reject => true
  }

  /** The same with a condition on the shape of the policies. */
  predicate SteadyAfter(p: Policy, first: bool)
    requires WellFormed(p)
    decreases p
  {
    match p
    case Signature(env) => first || Steady(Compile(env.rule, env.identities).value)
    case ImplicitMeta(threshold, subs) =>
      Proper(threshold, subs) && forall i | 0 <= i < |subs| :: SteadyAfter(subs[i], first && i == 0)
    case Reject => true
  }

  lemma {:induction false} SteadyAfterIsMonotone(p: Policy, sat: Satisfies, first: bool)
    requires WellFormed(p) && SteadyAfter(p, first)
    ensures MonotoneAfter(p, sat, first)
    decreases p
  {
    hide Steady, MonotoneFor;
    match p
    case Signature(env) =>
      if !first { SteadyIsAlwaysMonotone(Compile(env.rule, env.identities).value); }
    case ImplicitMeta(_, subs) =>
      forall i | 0 <= i < |subs|
        ensures MonotoneAfter(subs[i], sat, first && i == 0)
      {
        SteadyAfterIsMonotone(subs[i], sat, first && i == 0);
      }
    case Reject =>
  }

  lemma {:induction false} MetMeansEvaluated(p: Policy, sat: Satisfies, ids: seq<Identity>, used: seq<bool>,
                                             first: bool)
    requires WellFormed(p) && Convertible(p) && MonotoneAfter(p, sat, first)
    requires |used| == |ids| && (first ==> used == Fresh(|ids|)) && Eval(RuleOf(p), sat, ids, used).0
    ensures Evaluated(p, sat, ids)
    decreases p, 1
  {
    hide MonotoneFor;
    match p
    case Signature(env) =>
      if !first { MonotoneMeansFreshNeverHurts(RuleOf(p), sat); }
    case ImplicitMeta(threshold, subs) =>
      SharedCountsNoMore(subs, sat, ids, used, first);
  }

  lemma {:induction false} SharedCountsNoMore(subs: seq<Policy>, sat: Satisfies, ids: seq<Identity>, used: seq<bool>,
                                              first: bool)
    requires |used| == |ids| && AllUsable(subs) && (first ==> used == Fresh(|ids|))
    requires forall i | 0 <= i < |subs| :: MonotoneAfter(subs[i], sat, first && i == 0)
    ensures EvalRules(RulesOf(subs), sat, ids, used).0 <= Satisfied(subs, sat, ids)
    decreases subs, 0
  {
    hide Eval, MonotoneAfter;
    if subs != [] {
      RulesOfTail(subs);
      var rule := RuleOf(subs[0]);
      if Eval(rule, sat, ids, used).0 { MetMeansEvaluated(subs[0], sat, ids, used, first); }
      forall i | 0 <= i < |subs[1..]|
        ensures MonotoneAfter(subs[1..][i], sat, false)
      {
        assert subs[1..][i] == subs[i + 1];
      }
      SharedCountsNoMore(subs[1..], sat, ids, After(rule, sat, ids, used), false);
    }
  }

  /** When adding signers hurts none of the signature policies but perhaps the first, whatever identities the
      converted policy accepts the implicit meta policy accepts too, through any nesting. */
  lemma ConvertedIsNoLaxer(p: Policy, sat: Satisfies, ids: seq<Identity>)
    requires WellFormed(p) && Convertible(p) && MonotoneAfter(p, sat, true)
    requires Accepts(RuleOf(p), sat, ids)
    ensures Evaluated(p, sat, ids)
  {
    MetMeansEvaluated(p, sat, ids, Fresh(|ids|), true);
  }

  // ----- Exactly when it is never laxer -----

  /** Whatever the membership service says and whoever signs, the original accepts what the conversion accepts. */
  ghost predicate NeverLaxer(p: Policy)
    requires WellFormed(p) && Convertible(p)
  {
    forall sat: Satisfies, ids | Accepts(RuleOf(p), sat, ids) :: Evaluated(p, sat, ids)
  }

  /** The signer at each position under a name of its own, which satisfies what the signer satisfied, and `p` only
      at position `k`. */
  function Renamed(n: nat): (ids: seq<Identity>)
    ensures |ids| == n && forall i | 0 <= i < n :: |ids[i].id| == i
  {
    seq(n, i requires 0 <= i < n => Identity("", Tally(i)))
  }

  predicate Answers(sat: Satisfies, ids: seq<Identity>, p: Principal, k: nat, id: Identity, q: Principal) {
    if q == p then |id.id| == k else |id.id| < |ids| && sat(ids[|id.id|], q)
  }

  function AnswersIn(sat: Satisfies, ids: seq<Identity>, p: Principal, k: nat): Satisfies {
    (id: Identity, q: Principal) => Answers(sat, ids, p, k, id, q)
  }

  /** The two sub-policies, one after the other. */
  lemma PairRun(a: Rule, b: Rule, sat: Satisfies, ids: seq<Identity>)
    ensures Accepts(Gate(2, [a, b]), sat, ids) <==>
            Accepts(a, sat, ids) && Eval(b, sat, ids, After(a, sat, ids, Fresh(|ids|))).0
  {
    hide Eval, EvalRules;
    var free := Fresh(|ids|);
    RulesStep([a, b], sat, ids, free);
    assert [a, b][1..] == [b];
    RulesStep([b], sat, ids, After(a, sat, ids, free));
    assert [b][1..] == [];
    NoRules(sat, ids, After(b, sat, ids, After(a, sat, ids, free)));
    GateResult(2, [a, b], sat, ids, free);
  }

  lemma PairVerdicts(a: Policy, b: Policy, sat: Satisfies, ids: seq<Identity>)
    requires a.Signature? && b.Signature? && WellFormed(a) && WellFormed(b)
    ensures var p := ImplicitMeta(2, [a, b]);
            && WellFormed(p) && Convertible(p) && RuleOf(p) == Gate(2, [RuleOf(a), RuleOf(b)])
            && (Evaluated(p, sat, ids) <==> Accepts(RuleOf(a), sat, ids) && Accepts(RuleOf(b), sat, ids))
  {
    hide Accepts;
    assert [a, b][1..] == [b] && [b][1..] == [];
    assert RulesOf([b]) == [RuleOf(b)] && RulesOf([a, b]) == [RuleOf(a), RuleOf(b)];
    assert Satisfied([], sat, ids) == 0;
    assert Satisfied([b], sat, ids) == One(Evaluated(b, sat, ids));
    assert Satisfied([a, b], sat, ids) == One(Evaluated(a, sat, ids)) + One(Evaluated(b, sat, ids));
    assert Evaluated(a, sat, ids) <==> Accepts(RuleOf(a), sat, ids);
    assert Evaluated(b, sat, ids) <==> Accepts(RuleOf(b), sat, ids);
  }

  lemma LeafTakes(p: Principal, sat: Satisfies, ids: seq<Identity>, k: nat)
    requires k < |ids| && forall i | 0 <= i < |ids| :: sat(ids[i], p) <==> i == k
    ensures Accepts(Leaf(p), sat, ids) && After(Leaf(p), sat, ids, Fresh(|ids|)) == Fresh(|ids|)[k := true]
  {
    var i := Pick(sat, p, ids, Fresh(|ids|), 0);
    assert sat(ids[k], p) && !Fresh(|ids|)[k];
    assert i == Some(k);
  }

  /** One signer who satisfies the leaf and hurts the other sub-policy makes the conversion laxer. */
  lemma HurtMakesLaxer(rule: Rule, p: Principal, sat: Satisfies) returns (sat': Satisfies, ids: seq<Identity>)
    requires !Mentions(rule, p) && !MonotoneFor(rule, sat)
    ensures Accepts(Gate(2, [Leaf(p), rule]), sat', ids) && !Accepts(rule, sat', ids)
  {
    hide Mentions, MonotoneFor, Renamed;
    var signers, k := OneSignerHurts(rule, sat);
    ids, sat' := Renamed(|signers|), AnswersIn(sat, signers, p, k);
    assert SameAnswers([rule], sat, signers, sat', ids);
    SameVerdict(rule, sat, signers, sat', ids, Fresh(|ids|)[k := true]);
    SameVerdict(rule, sat, signers, sat', ids, Fresh(|ids|));
    assert forall i | 0 <= i < |ids| :: sat'(ids[i], p) <==> i == k;
    LeafTakes(p, sat', ids, k);
    PairRun(Leaf(p), rule, sat', ids);
  }

  /** Over a leaf and any other signature policy, the conversion is never laxer exactly when adding signers never
      hurts that policy. */
  lemma NeverLaxerExactly(a: Policy, b: Policy, p: Principal)
    requires a.Signature? && b.Signature? && WellFormed(a) && WellFormed(b)
    requires RuleOf(a) == Leaf(p) && !Mentions(RuleOf(b), p)
    ensures var q := ImplicitMeta(2, [a, b]);
            WellFormed(q) && Convertible(q) && (NeverLaxer(q) <==> AlwaysMonotone(RuleOf(b)))
  {
    hide Mentions, MonotoneFor, Accepts, Eval, RuleOf, Evaluated;
    var q := ImplicitMeta(2, [a, b]);
    PairVerdicts(a, b, (_, _) => true, []);
    if AlwaysMonotone(RuleOf(b)) {
      forall sat: Satisfies, ids | Accepts(RuleOf(q), sat, ids)
        ensures Evaluated(q, sat, ids)
      {
        PairIsMonotone(a, b, sat);
        ConvertedIsNoLaxer(q, sat, ids);
      }
    } else {
      var sat: Satisfies :| !MonotoneFor(RuleOf(b), sat);
      var sat', ids := HurtMakesLaxer(RuleOf(b), p, sat);
      PairVerdicts(a, b, sat', ids);
    }
  }

  lemma PairIsMonotone(a: Policy, b: Policy, sat: Satisfies)
    requires a.Signature? && b.Signature? && WellFormed(a) && WellFormed(b) && MonotoneFor(RuleOf(b), sat)
    ensures WellFormed(ImplicitMeta(2, [a, b])) && MonotoneAfter(ImplicitMeta(2, [a, b]), sat, true)
  {
    hide MonotoneFor;
  }

  /** So over a leaf and a policy of two levels in which no principal occurs twice, it can be told from the policy. */
  lemma NeverLaxerTwoLevel(a: Policy, b: Policy, p: Principal, t: int, rules: seq<Rule>)
    requires a.Signature? && b.Signature? && WellFormed(a) && WellFormed(b)
    requires RuleOf(a) == Leaf(p) && RuleOf(b) == Gate(t, rules) && !Mentions(RuleOf(b), p)
    requires AllShallow(rules) && NoRepeats(rules)
    ensures var q := ImplicitMeta(2, [a, b]);
            && WellFormed(q) && Convertible(q)
            && (NeverLaxer(q) <==> t <= 1 || t >= |rules| || forall i | 0 <= i < |rules| - 2 :: Need(rules[i]) <= 2)
  {
    hide Mentions, NoRepeats, AllShallow, AlwaysMonotone, NeverLaxer, RuleOf;
    NeverLaxerExactly(a, b, p);
    TwoLevelMonotoneExactly(t, rules);
  }

  // ----- An example -----

  /** Over nested gates it can be laxer: the first sub-policy uses up p, and only without p is the second
      one met, since with p its inner gate takes everybody. */
  lemma ConvertedCanBeLaxer()
    ensures var p := Signature(Envelope(0, SignedBy(0), [Principal(IDENTITY, "p")]));
            var nested := Signature(NestedEnvelope());
            var meta := ImplicitMeta(2, [p, nested]);
            var ids := [Identity("m", "p"), Identity("m", "q"), Identity("m", "s")];
            && WellFormed(meta) && Convertible(meta)
            && Accepts(RuleOf(meta), Is, ids)
            && !Evaluated(meta, Is, ids)
  {
    hide Eval, EvalRules, NestedRule, Compile, NestedEnvelope;
    var p, nested := Signature(Envelope(0, SignedBy(0), [Principal(IDENTITY, "p")])), Signature(NestedEnvelope());
    var subs, ids, f := [p, nested], [Identity("m", "p"), Identity("m", "q"), Identity("m", "s")], Fresh(3);
    NestedCompiles();
    LeafCompiles("p");
    assert f == [false, false, false];
    assert subs[1..] == [nested] && [nested][1..] == [];
    NestedOnFresh(f);
    assert !Evaluated(nested, Is, ids);
    assert Satisfied([nested], Is, ids) == 0;
    assert Satisfied(subs, Is, ids) <= 1;

    var u1 := [true, false, false];
    assert f[0 := true] == u1;
    LeafFinds("p", Is, ids, f, 0);
    NestedWithoutP();
    var rules := RulesOf(subs);
    assert RuleOf(p) == LeafFor("p") && RuleOf(nested) == NestedRule();
    assert RulesOf([nested]) == [NestedRule()];
    assert rules == [RuleOf(p)] + RulesOf([nested]);
    RulesStep(rules, Is, ids, f);
    assert rules[1..] == [NestedRule()];
    RulesStep([NestedRule()], Is, ids, u1);
    assert [NestedRule()][1..] == [];
    NoRules(Is, ids, Eval(NestedRule(), Is, ids, u1).1);
    GateResult(2, rules, Is, ids, f);
  }

  function NestedRule(): Rule {
    Gate(2, [Gate(3, [LeafFor("p"), LeafFor("q"), LeafFor("s")]),
             LeafFor("q"), LeafFor("s")])
  }

  function NestedEnvelope(): Envelope {
    Envelope(0,
             NOutOf(2, [NOutOf(3, [SignedBy(0), SignedBy(1), SignedBy(2)]), SignedBy(1), SignedBy(2)]),
             [Principal(IDENTITY, "p"), Principal(IDENTITY, "q"), Principal(IDENTITY, "s")])
  }

  lemma LeafCompiles(who: string)
    ensures Compile(SignedBy(0), [Principal(IDENTITY, who)]) == Some(LeafFor(who))
  {
  }

  lemma CompileThree(a: SigPolicy, b: SigPolicy, c: SigPolicy, ids: seq<Principal>)
    requires Compile(a, ids).Some? && Compile(b, ids).Some? && Compile(c, ids).Some?
    ensures CompileAll([a, b, c], ids) == Some([Compile(a, ids).value, Compile(b, ids).value, Compile(c, ids).value])
  {
    assert [a, b, c][1..] == [b, c] && [b, c][1..] == [c] && [c][1..] == [];
    var x, y, z := Compile(a, ids).value, Compile(b, ids).value, Compile(c, ids).value;
    assert [z] + [] == [z];
    assert CompileAll([], ids) == Some([]);
    assert CompileAll([c], ids) == Some([z]);
    assert [y] + [z] == [y, z];
    assert CompileAll([b, c], ids) == Some([y, z]);
    assert [x] + [y, z] == [x, y, z];
  }

  lemma NestedCompiles()
    ensures Compile(NestedEnvelope().rule, NestedEnvelope().identities) == Some(NestedRule())
  {
    var ids := NestedEnvelope().identities;
    CompileThree(SignedBy(0), SignedBy(1), SignedBy(2), ids);
    CompileThree(NOutOf(3, [SignedBy(0), SignedBy(1), SignedBy(2)]), SignedBy(1), SignedBy(2), ids);
  }

  lemma NestedOnFresh(f: seq<bool>)
    requires f == [false, false, false]
    ensures !Eval(NestedRule(), Is, [Identity("m", "p"), Identity("m", "q"), Identity("m", "s")], f).0
  {
    assert f == Fresh(3);
    NestedGatesAreNotMonotone();
  }

  lemma NestedWithoutP()
    ensures Eval(NestedRule(), Is, [Identity("m", "p"), Identity("m", "q"), Identity("m", "s")], [true, false, false]).0
  {
    hide Eval, EvalRules;
    var ids := [Identity("m", "p"), Identity("m", "q"), Identity("m", "s")];
    var u1, u2, u3 := [true, false, false], [true, true, false], [true, true, true];
    var ps, qs, ss := LeafFor("p"), LeafFor("q"), LeafFor("s");
    assert u1[1 := true] == u2 && u2[2 := true] == u3;
    LeafMisses("p", Is, ids, u1);
    LeafFinds("q", Is, ids, u1, 1);
    LeafFinds("s", Is, ids, u2, 2);
    ThreeRules(ps, qs, ss, Is, ids, u1, u1, u2, u3, false, true, true);
    GateResult(3, [ps, qs, ss], Is, ids, u1);
    ThreeRules(Gate(3, [ps, qs, ss]), qs, ss, Is, ids, u1, u1, u2, u3, false, true, true);
    GateResult(2, [Gate(3, [ps, qs, ss]), qs, ss], Is, ids, u1);
  }
}
