/** Where adding signers never hurts: the rules whose greedy evaluation is monotone
    (common/cauthdsl/cauthdsl.go). */
module GreedyMonotone {
  import opened Basics
  import opened SignaturePolicy

  predicate AllLeaves(rules: seq<Rule>) {
    forall j | 0 <= j < |rules| :: rules[j].Leaf?
  }

  /** `more` is `ids` with identities added anywhere: `at[i]` is where `ids[i]` now stands. */
  ghost predicate Embeds(at: seq<nat>, ids: seq<Identity>, more: seq<Identity>) {
    && |at| == |ids|
    && (forall i | 0 <= i < |at| :: at[i] < |more| && more[at[i]] == ids[i])
    && (forall i, j | 0 <= i < j < |at| :: at[i] < at[j])
  }

  /** Two runs over the same rules: the left one with `ids`, the right one with identities added. */
  ghost predicate Paired(at: seq<nat>, ids: seq<Identity>, used: seq<bool>, more: seq<Identity>, used': seq<bool>) {
    |used| == |ids| && |used'| == |more| && Embeds(at, ids, more)
  }

  /** Who is free on the left but used on the right. */
  ghost function Debt(at: seq<nat>, used: seq<bool>, used': seq<bool>): set<nat>
    requires |at| == |used| && forall i | 0 <= i < |at| :: at[i] < |used'|
  {
    set i | 0 <= i < |at| && !used[i] && used'[at[i]]
  }

  /** The array that goes on after a rule: a rule that is not met has used nobody. */
  function After(rule: Rule, sat: Satisfies, ids: seq<Identity>, used: seq<bool>): (r: seq<bool>)
    requires |used| == |ids|
    ensures |r| == |ids|
  {
    var e := Eval(rule, sat, ids, used);
    if e.0 then e.1 else used
  }

  /** Whoever is free on the left is free on the right. */
  ghost predicate SideBySide(at: seq<nat>, ids: seq<Identity>, used: seq<bool>, more: seq<Identity>, used': seq<bool>) {
    Paired(at, ids, used, more, used') && Debt(at, used, used') == {}
  }

  function One(b: bool): nat { if b then 1 else 0 }

  /** Rules that never add to the debt: leaves, gates over such rules that one of them is enough for, and
      gates that ask for more rules than they have. */
  predicate Plain(rule: Rule) {
    rule.Leaf? || rule.n > |rule.rules| || (rule.n <= 1 && forall r | r in rule.rules :: Plain(r))
  }

  /** Rules that add to the debt only by one, and only when they are met on the right alone: gates that ask
      for two leaves fail with at most one identity spent. */
  predicate Light(rule: Rule) { Plain(rule) || (rule.n == 2 && AllLeaves(rule.rules)) }

  /** Plain rules and gates over plain rules: they add to the debt only when they are met on the right alone. */
  predicate Flat(rule: Rule) { Plain(rule) || forall r | r in rule.rules :: Plain(r) }

  /** Rules that add nothing to the debt once they are met on the left: any gate over plain rules, and gates
      that ask for all of their rules, which are firm. */
  predicate Firm(rule: Rule) {
    Flat(rule) || (rule.n >= |rule.rules| && forall r | r in rule.rules :: Firm(r))
  }

  predicate AllPlain(rules: seq<Rule>) { forall r | r in rules :: Plain(r) }

  predicate AllLight(rules: seq<Rule>) { forall r | r in rules :: Light(r) }

  predicate AllFirm(rules: seq<Rule>) { forall r | r in rules :: Firm(r) }

  /** Light rules, but for the last one, which may be flat: one rule after it can lose no more than it has won. */
  predicate LightThenFlat(rules: seq<Rule>) {
    rules == [] || (AllLight(rules[..|rules| - 1]) && Flat(rules[|rules| - 1]))
  }

  /** Rules that are met on the right whenever they are met on the left. What the last rule of a gate uses
      does not matter, nor what any rule uses of a gate that one of them is enough for. */
  predicate Steady(rule: Rule) {
    || Firm(rule)
    || (rule.n <= 1 && forall r | r in rule.rules :: Steady(r))
    || (rule.rules != [] && Steady(rule.rules[|rule.rules| - 1]) &&
        var front := rule.rules[..|rule.rules| - 1];
        LightThenFlat(front) || (rule.n >= |rule.rules| && AllFirm(front)))
  }

  lemma LeftUses(at: seq<nat>, used: seq<bool>, used': seq<bool>, i: nat)
    requires |at| == |used| && (forall j | 0 <= j < |at| :: at[j] < |used'|) && i < |used|
    ensures Debt(at, used[i := true], used') == Debt(at, used, used') - {i}
  {
  }

  lemma RightUses(at: seq<nat>, used: seq<bool>, used': seq<bool>, k: nat)
    requires |at| == |used| && (forall j | 0 <= j < |at| :: at[j] < |used'|) && k < |used'|
    requires forall i, j | 0 <= i < j < |at| :: at[i] < at[j]
    ensures forall j | 0 <= j < |at| && at[j] == k && !used[j] ::
              Debt(at, used, used'[k := true]) == Debt(at, used, used') + {j}
    ensures (forall j | 0 <= j < |at| && at[j] == k :: used[j]) ==>
              Debt(at, used, used'[k := true]) == Debt(at, used, used')
  {
  }

  /** A leaf that is met on one side only changes the debt by as much as it changes the count. */
  lemma LeafDebt(p: Principal, sat: Satisfies, at: seq<nat>,
                 ids: seq<Identity>, used: seq<bool>, more: seq<Identity>, used': seq<bool>)
    requires Paired(at, ids, used, more, used')
    ensures var a, b := Eval(Leaf(p), sat, ids, used), Eval(Leaf(p), sat, more, used');
            var before, after := Debt(at, used, used'), Debt(at, a.1, b.1);
            |after| <= |before| && |after| + One(a.0) <= |before| + One(b.0)
  {
    var i, k := Pick(sat, p, ids, used, 0), Pick(sat, p, more, used', 0);
    var before := Debt(at, used, used');
    if i.Some? {
      assert sat(more[at[i.value]], p);
      LeftUses(at, used, used', i.value);
      if k.None? {
        assert i.value in before;
      } else {
        LeafOnBothSides(p, sat, at, ids, used, more, used', i.value, k.value);
      }
    } else if k.Some? {
      RightUses(at, used, used', k.value);
      assert forall j | 0 <= j < |at| && at[j] == k.value :: sat(more[at[j]], p);
    }
  }

  /** When both sides meet a leaf, the right one takes somebody free on the left only in exchange for
      somebody already in debt. */
  lemma LeafOnBothSides(p: Principal, sat: Satisfies, at: seq<nat>,
                        ids: seq<Identity>, used: seq<bool>, more: seq<Identity>, used': seq<bool>, i: nat, k: nat)
    requires Paired(at, ids, used, more, used')
    requires Pick(sat, p, ids, used, 0) == Some(i) && Pick(sat, p, more, used', 0) == Some(k)
    ensures |Debt(at, used[i := true], used'[k := true])| <= |Debt(at, used, used')|
  {
    var before, next := Debt(at, used, used'), used[i := true];
    LeftUses(at, used, used', i);
    RightUses(at, next, used', k);
    if j :| 0 <= j < |at| && at[j] == k && !next[j] {
      assert sat(ids[j], p);
      assert i < j && sat(more[at[i]], p);
      assert i in before;
      hide Debt, Pick;
      assert |before - {i}| == |before| - 1;
    } else {
      hide Debt, Pick;
      SubsetSize(before - {i}, before);
    }
  }

  lemma {:induction false} NoneMetUsesNobody(rules: seq<Rule>, sat: Satisfies, ids: seq<Identity>, used: seq<bool>)
    requires |used| == |ids| && EvalRules(rules, sat, ids, used).0 == 0
    ensures EvalRules(rules, sat, ids, used).1 == used
    decreases |rules|
  {
    if rules != [] { NoneMetUsesNobody(rules[1..], sat, ids, used); }
  }

  lemma {:induction false} PlainDebt(rule: Rule, sat: Satisfies, at: seq<nat>,
                                     ids: seq<Identity>, used: seq<bool>, more: seq<Identity>, used': seq<bool>)
    requires Plain(rule) && Paired(at, ids, used, more, used')
    ensures var before := Debt(at, used, used');
            var after := Debt(at, After(rule, sat, ids, used), After(rule, sat, more, used'));
            && |after| <= |before|
            && |after| + One(Eval(rule, sat, ids, used).0) <= |before| + One(Eval(rule, sat, more, used').0)
    decreases rule, 1
  {
    if rule.Leaf? {
      LeafDebt(rule.principal, sat, at, ids, used, more, used');
    } else if rule.n <= |rule.rules| {
      PlainRulesDebt(rule.rules, sat, at, ids, used, more, used');
      if EvalRules(rule.rules, sat, ids, used).0 == 0 { NoneMetUsesNobody(rule.rules, sat, ids, used); }
      if EvalRules(rule.rules, sat, more, used').0 == 0 { NoneMetUsesNobody(rule.rules, sat, more, used'); }
    }
  }

  lemma {:induction false} PlainRulesDebt(rules: seq<Rule>, sat: Satisfies, at: seq<nat>,
                                          ids: seq<Identity>, used: seq<bool>, more: seq<Identity>, used': seq<bool>)
    requires AllPlain(rules) && Paired(at, ids, used, more, used')
    ensures var a, b := EvalRules(rules, sat, ids, used), EvalRules(rules, sat, more, used');
            var before, after := Debt(at, used, used'), Debt(at, a.1, b.1);
            |after| <= |before| && |after| + a.0 <= |before| + b.0
    decreases rules, 0
  {
    hide Eval, Plain, Debt;
    if rules != [] {
      PlainDebt(rules[0], sat, at, ids, used, more, used');
      PlainRulesDebt(rules[1..], sat, at, ids, After(rules[0], sat, ids, used), more,
        After(rules[0], sat, more, used'));
    }
  }

  /** Whom a run of rules has used. */
  ghost function Spent(used: seq<bool>, used': seq<bool>): set<nat>
    requires |used| == |used'|
  {
    set i | 0 <= i < |used| && !used[i] && used'[i]
  }

  lemma {:induction false} LeavesSpend(rules: seq<Rule>, sat: Satisfies, ids: seq<Identity>, used: seq<bool>)
    requires AllLeaves(rules) && |used| == |ids|
    ensures var r := EvalRules(rules, sat, ids, used);
            |Spent(used, r.1)| == r.0 && forall i | 0 <= i < |used| && used[i] :: r.1[i]
    decreases |rules|
  {
    if rules == [] {
      assert Spent(used, used) == {};
    } else {
      var i := Pick(sat, rules[0].principal, ids, used, 0);
      if i.Some? {
        var next := used[i.value := true];
        LeavesSpend(rules[1..], sat, ids, next);
        var end := EvalRules(rules[1..], sat, ids, next).1;
        assert Spent(used, end) == Spent(next, end) + {i.value};
      } else {
        LeavesSpend(rules[1..], sat, ids, used);
      }
    }
  }

  lemma LightDebt(rule: Rule, sat: Satisfies, at: seq<nat>,
                  ids: seq<Identity>, used: seq<bool>, more: seq<Identity>, used': seq<bool>)
    requires Light(rule) && Paired(at, ids, used, more, used')
    ensures |Debt(at, After(rule, sat, ids, used), After(rule, sat, more, used'))| + One(Eval(rule, sat, ids, used).0)
            <= |Debt(at, used, used')| + One(Eval(rule, sat, more, used').0)
  {
    if Plain(rule) {
      PlainDebt(rule, sat, at, ids, used, more, used');
    } else {
      PlainRulesDebt(rule.rules, sat, at, ids, used, more, used');
      LeavesSpend(rule.rules, sat, ids, used);
      LeavesSpend(rule.rules, sat, more, used');
      var a, b := EvalRules(rule.rules, sat, ids, used), EvalRules(rule.rules, sat, more, used');
      var both := Debt(at, a.1, b.1);
      if a.0 >= 2 && b.0 < 2 {
        SubsetSize(Debt(at, a.1, used'), both);
      } else if a.0 < 2 && b.0 >= 2 {
        assert Debt(at, used, b.1) <= both + Spent(used, a.1);
        SubsetSize(Debt(at, used, b.1), both + Spent(used, a.1));
      }
    }
  }

  lemma {:induction false} UsedStays(rule: Rule, sat: Satisfies, ids: seq<Identity>, used: seq<bool>, i: nat)
    requires |used| == |ids| && i < |used| && used[i]
    ensures Eval(rule, sat, ids, used).1[i]
    decreases rule, 1
  {
    if rule.Gate? { UsedStaysAll(rule.rules, sat, ids, used, i); }
  }

  lemma {:induction false} UsedStaysAll(rules: seq<Rule>, sat: Satisfies, ids: seq<Identity>, used: seq<bool>, i: nat)
    requires |used| == |ids| && i < |used| && used[i]
    ensures EvalRules(rules, sat, ids, used).1[i]
    decreases rules, 0
  {
    hide Eval;
    if rules != [] {
      UsedStays(rules[0], sat, ids, used, i);
      UsedStaysAll(rules[1..], sat, ids, After(rules[0], sat, ids, used), i);
    }
  }

  /** A flat rule is met on the right alone, or is as good as a light one. */
  lemma FlatDebt(rule: Rule, sat: Satisfies, at: seq<nat>,
                 ids: seq<Identity>, used: seq<bool>, more: seq<Identity>, used': seq<bool>)
    requires Flat(rule) && Paired(at, ids, used, more, used')
    ensures var a, b := Eval(rule, sat, ids, used).0, Eval(rule, sat, more, used').0;
            || (!a && b)
            || |Debt(at, After(rule, sat, ids, used), After(rule, sat, more, used'))| +
               One(a) <= |Debt(at, used, used')| + One(b)
  {
    if Plain(rule) {
      PlainDebt(rule, sat, at, ids, used, more, used');
    } else {
      PlainRulesDebt(rule.rules, sat, at, ids, used, more, used');
      var a, b := EvalRules(rule.rules, sat, ids, used), EvalRules(rule.rules, sat, more, used');
      if a.0 >= rule.n && b.0 < rule.n {
        forall i | 0 <= i < |at| && used'[at[i]] ensures b.1[at[i]] {
          UsedStaysAll(rule.rules, sat, more, used', at[i]);
        }
        SubsetSize(Debt(at, a.1, used'), Debt(at, a.1, b.1));
      }
    }
  }

  lemma {:induction false} LightRulesDebt(rules: seq<Rule>, sat: Satisfies, at: seq<nat>,
                                          ids: seq<Identity>, used: seq<bool>, more: seq<Identity>, used': seq<bool>)
    requires AllLight(rules) && Paired(at, ids, used, more, used')
    ensures var a, b := EvalRules(rules, sat, ids, used), EvalRules(rules, sat, more, used');
            |Debt(at, a.1, b.1)| + a.0 <= |Debt(at, used, used')| + b.0
    decreases |rules|
  {
    hide Eval, Light, Debt;
    if rules != [] {
      LightDebt(rules[0], sat, at, ids, used, more, used');
      LightRulesDebt(rules[1..], sat, at, ids, After(rules[0], sat, ids, used), more,
        After(rules[0], sat, more, used'));
    }
  }

  lemma {:induction false} FirmMonotone(rule: Rule, sat: Satisfies, at: seq<nat>,
                                        ids: seq<Identity>, used: seq<bool>, more: seq<Identity>, used': seq<bool>)
    requires Firm(rule) && SideBySide(at, ids, used, more, used') && Eval(rule, sat, ids, used).0
    ensures Eval(rule, sat, more, used').0 &&
            Debt(at, Eval(rule, sat, ids, used).1, Eval(rule, sat, more, used').1) == {}
    decreases rule, 1
  {
    if Plain(rule) {
      PlainDebt(rule, sat, at, ids, used, more, used');
    } else if Flat(rule) {
      PlainRulesDebt(rule.rules, sat, at, ids, used, more, used');
    } else {
      FirmRulesMonotone(rule.rules, sat, at, ids, used, more, used');
    }
  }

  lemma {:induction false} FirmRulesMonotone(rules: seq<Rule>, sat: Satisfies, at: seq<nat>,
                                             ids: seq<Identity>, used: seq<bool>, more: seq<Identity>, used': seq<bool>)
    requires AllFirm(rules) && SideBySide(at, ids, used, more, used')
    requires EvalRules(rules, sat, ids, used).0 == |rules|
    ensures var a, b := EvalRules(rules, sat, ids, used), EvalRules(rules, sat, more, used');
            b.0 == |rules| && Debt(at, a.1, b.1) == {}
    decreases rules, 0
  {
    hide Eval, Firm;
    if rules != [] {
      FirmMonotone(rules[0], sat, at, ids, used, more, used');
      FirmRulesMonotone(rules[1..], sat, at, ids, After(rules[0], sat, ids, used), more,
        After(rules[0], sat, more, used'));
    }
  }

  lemma {:induction false} SteadyMonotone(rule: Rule, sat: Satisfies, at: seq<nat>,
                                          ids: seq<Identity>, used: seq<bool>, more: seq<Identity>, used': seq<bool>)
    requires Steady(rule) && SideBySide(at, ids, used, more, used') && Eval(rule, sat, ids, used).0
    ensures Eval(rule, sat, more, used').0
    decreases rule, 1
  {
    if Firm(rule) {
      FirmMonotone(rule, sat, at, ids, used, more, used');
    } else if rule.n <= 1 && forall r | r in rule.rules :: Steady(r) {
      if rule.n == 1 { SomeSteadyMonotone(rule.rules, sat, at, ids, used, more, used'); }
    } else {
      LastSteadyMonotone(rule, sat, at, ids, used, more, used');
    }
  }

  lemma {:induction false} SomeSteadyMonotone(rules: seq<Rule>, sat: Satisfies, at: seq<nat>,
                                              ids: seq<Identity>, used: seq<bool>, more: seq<Identity>,
                                              used': seq<bool>)
    requires (forall r | r in rules :: Steady(r)) && SideBySide(at, ids, used, more, used')
    requires EvalRules(rules, sat, ids, used).0 >= 1
    ensures EvalRules(rules, sat, more, used').0 >= 1
    decreases rules, 0
  {
    hide Eval, Steady;
    if Eval(rules[0], sat, ids, used).0 {
      SteadyMonotone(rules[0], sat, at, ids, used, more, used');
    } else if !Eval(rules[0], sat, more, used').0 {
      SomeSteadyMonotone(rules[1..], sat, at, ids, used, more, used');
    }
  }

  /** After light rules and a flat one, the right run is ahead by its debt, or by one rule at least. */
  lemma LightThenFlatDebt(rules: seq<Rule>, sat: Satisfies, at: seq<nat>,
                          ids: seq<Identity>, used: seq<bool>, more: seq<Identity>, used': seq<bool>)
    requires LightThenFlat(rules) && SideBySide(at, ids, used, more, used')
    ensures var a, b := EvalRules(rules, sat, ids, used), EvalRules(rules, sat, more, used');
            |Debt(at, a.1, b.1)| + a.0 <= b.0 || a.0 + 1 <= b.0
  {
    hide Eval, Light, Flat, Debt;
    if rules != [] {
      var k := |rules| - 1;
      assert rules == rules[..k] + [rules[k]];
      EvalRulesSnoc(rules[..k], rules[k], sat, ids, used);
      EvalRulesSnoc(rules[..k], rules[k], sat, more, used');
      LightRulesDebt(rules[..k], sat, at, ids, used, more, used');
      var u, u' := EvalRules(rules[..k], sat, ids, used).1, EvalRules(rules[..k], sat, more, used').1;
      FlatDebt(rules[k], sat, at, ids, u, more, u');
    }
  }

  lemma {:induction false} LastSteadyMonotone(rule: Rule, sat: Satisfies, at: seq<nat>,
                                              ids: seq<Identity>, used: seq<bool>, more: seq<Identity>,
                                              used': seq<bool>)
    requires SideBySide(at, ids, used, more, used') && Eval(rule, sat, ids, used).0
    requires rule.Gate? && rule.rules != [] && Steady(rule.rules[|rule.rules| - 1])
    requires var front := rule.rules[..|rule.rules| - 1];
             LightThenFlat(front) || (rule.n >= |rule.rules| && AllFirm(front))
    ensures Eval(rule, sat, more, used').0
    decreases rule, 0
  {
    var k := |rule.rules| - 1;
    var front, last := rule.rules[..k], rule.rules[k];
    assert rule.rules == front + [last];
    EvalRulesSnoc(front, last, sat, ids, used);
    EvalRulesSnoc(front, last, sat, more, used');
    hide Steady, LightThenFlat, Firm;
    if LightThenFlat(front) {
      LightThenFlatDebt(front, sat, at, ids, used, more, used');
    } else {
      FirmRulesMonotone(front, sat, at, ids, used, more, used');
    }
    var u, u' := EvalRules(front, sat, ids, used).1, EvalRules(front, sat, more, used').1;
    if Eval(last, sat, ids, u).0 && Debt(at, u, u') == {} { SteadyMonotone(last, sat, at, ids, u, more, u'); }
  }

  /** For a steady rule, adding identities anywhere in the list never turns accept into reject. */
  lemma SteadyIsMonotone(rule: Rule, sat: Satisfies, ids: seq<Identity>, more: seq<Identity>, at: seq<nat>)
    requires Steady(rule) && Embeds(at, ids, more)
    requires Accepts(rule, sat, ids)
    ensures Accepts(rule, sat, more)
  {
    SteadyMonotone(rule, sat, at, ids, Fresh(|ids|), more, Fresh(|more|));
  }

  /** A steady rule accepted on a partly used array is accepted on a fresh one. */
  lemma FreshIsEasier(rule: Rule, sat: Satisfies, ids: seq<Identity>, used: seq<bool>)
    requires Steady(rule)
    requires |used| == |ids| && Eval(rule, sat, ids, used).0
    ensures Accepts(rule, sat, ids)
  {
    SteadyMonotone(rule, sat, seq(|ids|, i => i), ids, used, ids, Fresh(|ids|));
  }

  // ----- Where it is not -----

  function LeafFor(who: string): Rule { Leaf(Principal(IDENTITY, who)) }

  function Is(id: Identity, p: Principal): bool { id.id == p.principal }

  lemma LeafFinds(who: string, sat: Satisfies, ids: seq<Identity>, used: seq<bool>, i: nat)
    requires |used| == |ids| && i < |ids| && !used[i] && sat(ids[i], Principal(IDENTITY, who))
    requires forall j | 0 <= j < i :: used[j] || !sat(ids[j], Principal(IDENTITY, who))
    ensures Eval(LeafFor(who), sat, ids, used) == (true, used[i := true])
  {
  }

  lemma LeafMisses(who: string, sat: Satisfies, ids: seq<Identity>, used: seq<bool>)
    requires |used| == |ids| && forall j | 0 <= j < |ids| :: used[j] || !sat(ids[j], Principal(IDENTITY, who))
    ensures Eval(LeafFor(who), sat, ids, used) == (false, used)
  {
  }

  lemma RulesStep(rules: seq<Rule>, sat: Satisfies, ids: seq<Identity>, used: seq<bool>)
    requires rules != [] && |used| == |ids|
    ensures var first := Eval(rules[0], sat, ids, used);
            var rest := EvalRules(rules[1..], sat, ids, if first.0 then first.1 else used);
            EvalRules(rules, sat, ids, used) == (rest.0 + if first.0 then 1 else 0, rest.1)
  {
  }

  /** The run of a gate with three rules, step by step. */
  lemma ThreeRules(a: Rule, b: Rule, c: Rule, sat: Satisfies, ids: seq<Identity>,
                   u0: seq<bool>, u1: seq<bool>, u2: seq<bool>, u3: seq<bool>, x: bool, y: bool, z: bool)
    requires |u0| == |u1| == |u2| == |u3| == |ids|
    requires Eval(a, sat, ids, u0).0 == x && u1 == if x then Eval(a, sat, ids, u0).1 else u0
    requires Eval(b, sat, ids, u1).0 == y && u2 == if y then Eval(b, sat, ids, u1).1 else u1
    requires Eval(c, sat, ids, u2).0 == z && u3 == if z then Eval(c, sat, ids, u2).1 else u2
    ensures EvalRules([a, b, c], sat, ids, u0) ==
            ((if x then 1 else 0) + (if y then 1 else 0) + (if z then 1 else 0), u3)
  {
    hide Eval, EvalRules;
    RulesStep([a, b, c], sat, ids, u0);
    assert [a, b, c][1..] == [b, c];
    RulesStep([b, c], sat, ids, u1);
    assert [b, c][1..] == [c];
    RulesStep([c], sat, ids, u2);
    assert [c][1..] == [];
    NoRules(sat, ids, u3);
  }

  lemma NoRules(sat: Satisfies, ids: seq<Identity>, used: seq<bool>)
    requires |used| == |ids|
    ensures EvalRules([], sat, ids, used) == (0, used)
  {
  }

  lemma GateResult(n: int, rules: seq<Rule>, sat: Satisfies, ids: seq<Identity>, used: seq<bool>)
    requires |used| == |ids|
    ensures var r := EvalRules(rules, sat, ids, used); Eval(Gate(n, rules), sat, ids, used) == (r.0 >= n, r.1)
  {
  }

  lemma InnerGateOnTwo(f: seq<bool>)
    requires f == [false, false]
    ensures Eval(Gate(3, [LeafFor("p"), LeafFor("q"), LeafFor("s")]), Is, [Identity("m", "q"), Identity("m", "s")],
            f) ==
            (false, [true, true])
  {
    hide Eval, EvalRules, LeafFor;
    var ids := [Identity("m", "q"), Identity("m", "s")];
    LeafMisses("p", Is, ids, f);
    LeafFinds("q", Is, ids, f, 0);
    assert f[0 := true] == [true, false] && [true, false][1 := true] == [true, true];
    LeafFinds("s", Is, ids, [true, false], 1);
    ThreeRules(LeafFor("p"), LeafFor("q"), LeafFor("s"), Is, ids, f, f, [true, false], [true, true], false, true, true);
    GateResult(3, [LeafFor("p"), LeafFor("q"), LeafFor("s")], Is, ids, f);
  }

  lemma InnerGateOnThree(f: seq<bool>)
    requires f == [false, false, false]
    ensures Eval(Gate(3, [LeafFor("p"), LeafFor("q"), LeafFor("s")]), Is,
                 [Identity("m", "p"), Identity("m", "q"), Identity("m", "s")], f) == (true, [true, true, true])
  {
    hide Eval, EvalRules, LeafFor;
    var ids := [Identity("m", "p"), Identity("m", "q"), Identity("m", "s")];
    var u1, u2, u3 := [true, false, false], [true, true, false], [true, true, true];
    assert f[0 := true] == u1 && u1[1 := true] == u2 && u2[2 := true] == u3;
    LeafFinds("p", Is, ids, f, 0);
    LeafFinds("q", Is, ids, u1, 1);
    LeafFinds("s", Is, ids, u2, 2);
    ThreeRules(LeafFor("p"), LeafFor("q"), LeafFor("s"), Is, ids, f, u1, u2, u3, true, true, true);
    GateResult(3, [LeafFor("p"), LeafFor("q"), LeafFor("s")], Is, ids, f);
  }

  /** Nested gates are not monotone: of p, q and s, the last two alone are accepted, all three are
      rejected, because the inner gate then uses up everybody. */
  lemma NestedGatesAreNotMonotone()
    ensures var rule := Gate(2, [Gate(3, [LeafFor("p"), LeafFor("q"), LeafFor("s")]), LeafFor("q"), LeafFor("s")]);
            && Accepts(rule, Is, [Identity("m", "q"), Identity("m", "s")])
            && !Accepts(rule, Is, [Identity("m", "p"), Identity("m", "q"), Identity("m", "s")])
  {
    hide Eval, EvalRules, LeafFor;
    var inner := Gate(3, [LeafFor("p"), LeafFor("q"), LeafFor("s")]);
    var two, three := [Identity("m", "q"), Identity("m", "s")],
        [Identity("m", "p"), Identity("m", "q"), Identity("m", "s")];
    var f2, f3 := Fresh(2), Fresh(3);
    assert f2 == [false, false] && f3 == [false, false, false];

    InnerGateOnTwo(f2);
    LeafFinds("q", Is, two, f2, 0);
    assert f2[0 := true] == [true, false] && [true, false][1 := true] == [true, true];
    LeafFinds("s", Is, two, [true, false], 1);
    ThreeRules(inner, LeafFor("q"), LeafFor("s"), Is, two, f2, f2, [true, false], [true, true], false, true, true);
    GateResult(2, [inner, LeafFor("q"), LeafFor("s")], Is, two, f2);

    InnerGateOnThree(f3);
    var all := [true, true, true];
    LeafMisses("q", Is, three, all);
    LeafMisses("s", Is, three, all);
    ThreeRules(inner, LeafFor("q"), LeafFor("s"), Is, three, f3, all, all, all, true, false, false);
    GateResult(2, [inner, LeafFor("q"), LeafFor("s")], Is, three, f3);
  }
}
