/** Where the greedy evaluator finds a largest assignment of signers to leaves
    (common/cauthdsl/cauthdsl.go). */
module GreedyMatching {
  import opened Basics
  import opened SignaturePolicy
  import opened GreedyMonotone

  /** A gate whose rules are all leaves. */
  predicate OneLevel(rule: Rule) {
    rule.Gate? && AllLeaves(rule.rules)
  }

  // ----- Assignments -----

  /** An assignment of distinct free identities to some of the leaves. */
  ghost predicate Matching(m: seq<Witness>, rules: seq<Rule>, sat: Satisfies, ids: seq<Identity>, used: seq<bool>) {
    && |m| == |rules| && |used| == |ids| && AllLeaves(rules)
    && (forall j | 0 <= j < |m| && !m[j].Unmet? ::
          m[j].Signer? && m[j].i < |ids| && !used[m[j].i] && sat(ids[m[j].i], rules[j].principal))
    && (forall j, k | 0 <= j < k < |m| && !m[j].Unmet? :: m[j] != m[k])
  }

  /** Of these identities, whoever satisfies `p` satisfies `q`, or nobody satisfies both. */
  ghost predicate NestedOn(p: Principal, q: Principal, sat: Satisfies, ids: seq<Identity>) {
    || (forall i | 0 <= i < |ids| :: sat(ids[i], p) ==> sat(ids[i], q))
    || (forall i | 0 <= i < |ids| :: !(sat(ids[i], p) && sat(ids[i], q)))
  }

  /** Each principal of the gate is contained in every later one that it overlaps. */
  ghost predicate NestedInOrderOn(rules: seq<Rule>, sat: Satisfies, ids: seq<Identity>)
    requires AllLeaves(rules)
  {
    forall j, k | 0 <= j < k < |rules| :: NestedOn(rules[j].principal, rules[k].principal, sat, ids)
  }

  lemma {:induction false} MetUpdate(parts: seq<Witness>, j: nat, w: Witness)
    requires j < |parts|
    ensures Met(parts[j := w]) == Met(parts) - (if parts[j].Unmet? then 0 else 1) + (if w.Unmet? then 0 else 1)
    decreases |parts|
  {
    if j == 0 {
      assert parts[j := w][1..] == parts[1..];
    } else {
      MetUpdate(parts[1..], j - 1, w);
      assert parts[j := w][1..] == parts[1..][j - 1 := w];
    }
  }

  /** Exchange: once the greedy step gives `a` to the first leaf, the other leaves still have an
      assignment that is smaller by at most one. */
  lemma Exchange(m: seq<Witness>, rules: seq<Rule>, sat: Satisfies, ids: seq<Identity>, used: seq<bool>, a: nat)
    returns (rest: seq<Witness>)
    requires rules != [] && Matching(m, rules, sat, ids, used) && NestedInOrderOn(rules, sat, ids)
    requires a < |ids| && !used[a] && sat(ids[a], rules[0].principal)
    ensures Matching(rest, rules[1..], sat, ids, used[a := true])
    ensures Met(m) <= Met(rest) + 1
  {
    rest := m[1..];
    assert forall k | 1 <= k < |rules| :: NestedOn(rules[0].principal, rules[k].principal, sat, ids);
    if j :| 1 <= j < |m| && m[j] == Signer(a) {
      rest := rest[j - 1 := m[0]];
      MetUpdate(m[1..], j - 1, m[0]);
    }
  }

  /** When each principal is contained in the later ones it overlaps, the greedy count is at least the size
      of every assignment of distinct signers to leaves. */
  lemma {:induction false} GreedyIsMaximum(m: seq<Witness>, rules: seq<Rule>, sat: Satisfies, ids: seq<Identity>,
                                           used: seq<bool>)
    requires Matching(m, rules, sat, ids, used) && NestedInOrderOn(rules, sat, ids)
    ensures Met(m) <= EvalRules(rules, sat, ids, used).0
    decreases |rules|
  {
    if rules != [] {
      assert NestedInOrderOn(rules[1..], sat, ids);
      var i := Pick(sat, rules[0].principal, ids, used, 0);
      if i.Some? {
        var rest := Exchange(m, rules, sat, ids, used, i.value);
        GreedyIsMaximum(rest, rules[1..], sat, ids, used[i.value := true]);
      } else {
        assert m[0].Unmet?;
        GreedyIsMaximum(m[1..], rules[1..], sat, ids, used);
      }
    }
  }

  /** The greedy run is itself such an assignment. */
  lemma {:induction false} GreedyIsMatching(rules: seq<Rule>, sat: Satisfies, ids: seq<Identity>, used: seq<bool>)
    returns (m: seq<Witness>)
    requires AllLeaves(rules) && |used| == |ids|
    ensures Matching(m, rules, sat, ids, used) && Met(m) == EvalRules(rules, sat, ids, used).0
    decreases |rules|
  {
    if rules == [] {
      m := [];
    } else {
      var i := Pick(sat, rules[0].principal, ids, used, 0);
      if i.Some? {
        var rest := GreedyIsMatching(rules[1..], sat, ids, used[i.value := true]);
        m := [Signer(i.value)] + rest;
        assert m[1..] == rest;
      } else {
        var rest := GreedyIsMatching(rules[1..], sat, ids, used);
        m := [Unmet] + rest;
        assert m[1..] == rest;
      }
    }
  }

  /** A one-level gate over such principals accepts exactly when `n` distinct signers can be assigned to
      `n` of its leaves. */
  lemma OneLevelComplete(rule: Rule, sat: Satisfies, ids: seq<Identity>)
    requires OneLevel(rule) && NestedInOrderOn(rule.rules, sat, ids)
    ensures Accepts(rule, sat, ids) <==>
            exists m :: Matching(m, rule.rules, sat, ids, Fresh(|ids|)) && Met(m) >= rule.n
  {
    if Accepts(rule, sat, ids) {
      var m := GreedyIsMatching(rule.rules, sat, ids, Fresh(|ids|));
    }
    forall m | Matching(m, rule.rules, sat, ids, Fresh(|ids|)) && Met(m) >= rule.n
      ensures Accepts(rule, sat, ids)
    {
      GreedyIsMaximum(m, rule.rules, sat, ids, Fresh(|ids|));
    }
  }

  // ----- The exact condition for a maximum -----

  /** Whoever satisfies `p` satisfies `q`, or nobody satisfies both. */
  ghost predicate Nested(p: Principal, q: Principal, sat: Satisfies) {
    (forall id :: sat(id, p) ==> sat(id, q)) || (forall id :: !(sat(id, p) && sat(id, q)))
  }

  ghost predicate NestedInOrder(rules: seq<Rule>, sat: Satisfies)
    requires AllLeaves(rules)
  {
    forall j, k | 0 <= j < k < |rules| :: Nested(rules[j].principal, rules[k].principal, sat)
  }

  /** Whoever signs, no assignment is larger than the greedy one. */
  ghost predicate AlwaysMaximum(rules: seq<Rule>, sat: Satisfies) {
    forall ids, m | Matching(m, rules, sat, ids, Fresh(|ids|)) :: Met(m) <= EvalRules(rules, sat, ids, Fresh(|ids|)).0
  }

  /** How many of the leaves one identity satisfies. */
  function Meets(rules: seq<Rule>, sat: Satisfies, id: Identity): nat
    requires AllLeaves(rules)
  {
    if rules == [] then 0 else One(sat(id, rules[0].principal)) + Meets(rules[1..], sat, id)
  }

  /** When only copies of one identity are free, no more leaves are met than that identity satisfies. */
  lemma {:induction false} CopiesMeet(rules: seq<Rule>, sat: Satisfies, ids: seq<Identity>, used: seq<bool>,
                                      id: Identity)
    requires AllLeaves(rules) && |used| == |ids| && forall i | 0 <= i < |ids| :: used[i] || ids[i] == id
    ensures EvalRules(rules, sat, ids, used).0 <= Meets(rules, sat, id)
    decreases |rules|
  {
    if rules != [] {
      CopiesMeet(rules[1..], sat, ids, Eval(rules[0], sat, ids, used).1, id);
    }
  }

  /** The assignment of positions from `from` on to the leaves that one identity satisfies. */
  function Copies(rules: seq<Rule>, sat: Satisfies, id: Identity, from: nat): (m: seq<Witness>)
    requires AllLeaves(rules)
    ensures |m| == |rules| && Met(m) == Meets(rules, sat, id)
    ensures forall j | 0 <= j < |m| :: m[j].Unmet? <==> !sat(id, rules[j].principal)
    ensures forall j | 0 <= j < |m| && !m[j].Unmet? :: m[j].Signer? && from <= m[j].i < from + Meets(rules, sat, id)
    ensures forall j, k | 0 <= j < k < |m| && !m[j].Unmet? :: m[j] != m[k]
  {
    if rules == [] then []
    else if sat(id, rules[0].principal) then
      var rest := Copies(rules[1..], sat, id, from + 1);
      assert ([Signer(from)] + rest)[1..] == rest;
      [Signer(from)] + rest
    else
      var rest := Copies(rules[1..], sat, id, from);
      assert ([Unmet] + rest)[1..] == rest;
      [Unmet] + rest
  }

  /** An identity followed by copies of another. */
  function AndCopies(a: Identity, b: Identity, n: nat): (ids: seq<Identity>)
    ensures |ids| == n + 1 && ids[0] == a && forall i | 1 <= i < |ids| :: ids[i] == b
  {
    [a] + seq(n, _ => b)
  }

  lemma FirstIsTaken(rules: seq<Rule>, sat: Satisfies, ids: seq<Identity>)
    requires rules != [] && rules[0].Leaf? && ids != [] && sat(ids[0], rules[0].principal)
    ensures EvalRules(rules, sat, ids, Fresh(|ids|)).0 ==
            1 + EvalRules(rules[1..], sat, ids, Fresh(|ids|)[0 := true]).0
  {
    assert Pick(sat, rules[0].principal, ids, Fresh(|ids|), 0) == Some(0);
  }

  /** The first leaf takes `a`, which a later leaf needs, although it could do with a copy of `b`. */
  lemma FirstTakesTheWrongOne(rules: seq<Rule>, sat: Satisfies, k: nat, a: Identity, b: Identity)
    returns (ids: seq<Identity>, m: seq<Witness>)
    requires AllLeaves(rules) && 1 <= k < |rules|
    requires sat(a, rules[0].principal) && sat(a, rules[k].principal)
    requires sat(b, rules[0].principal) && !sat(b, rules[k].principal)
    ensures Matching(m, rules, sat, ids, Fresh(|ids|)) && Met(m) > EvalRules(rules, sat, ids, Fresh(|ids|)).0
  {
    hide EvalRules, Copies, AndCopies, Meets;
    var rest := rules[1..];
    ids := AndCopies(a, b, Meets(rest, sat, b) + 1);
    FirstIsTaken(rules, sat, ids);
    CopiesMeet(rest, sat, ids, Fresh(|ids|)[0 := true], b);
    var copies := Copies(rest, sat, b, 2);
    MetUpdate(copies, k - 1, Signer(0));
    m := [Signer(1)] + copies[k - 1 := Signer(0)];
    assert m[1..] == copies[k - 1 := Signer(0)];
  }

  function Later(w: Witness): Witness { if w.Signer? then Signer(w.i + 1) else w }

  /** The same assignment when one more identity stands in front. */
  function AllLater(m: seq<Witness>): (r: seq<Witness>)
    ensures |r| == |m| && Met(r) == Met(m)
    ensures forall j | 0 <= j < |m| :: r[j] == Later(m[j])
  {
    if m == [] then [] else
      var rest := AllLater(m[1..]);
      assert ([Later(m[0])] + rest)[1..] == rest;
      [Later(m[0])] + rest
  }

  lemma MatchingInFront(m: seq<Witness>, rules: seq<Rule>, sat: Satisfies, ids: seq<Identity>, c: Identity)
    requires AllLeaves(rules) && rules != [] && sat(c, rules[0].principal)
    requires Matching(m, rules[1..], sat, ids, Fresh(|ids|))
    ensures Matching([Signer(0)] + AllLater(m), rules, sat, [c] + ids, Fresh(|ids| + 1))
    ensures Met([Signer(0)] + AllLater(m)) == Met(m) + 1
  {
    hide AllLater;
    var m' := [Signer(0)] + AllLater(m);
    assert m'[1..] == AllLater(m);
    LaterIsDistinct(m, rules[1..], sat, ids);
    forall j | 0 <= j < |m'| && !m'[j].Unmet?
      ensures m'[j].Signer? && m'[j].i < |ids| + 1 && sat(([c] + ids)[m'[j].i], rules[j].principal)
    {
      if j > 0 { assert rules[j] == rules[1..][j - 1] && m'[j] == Later(m[j - 1]); }
    }
  }

  lemma LaterIsDistinct(m: seq<Witness>, rules: seq<Rule>, sat: Satisfies, ids: seq<Identity>)
    requires Matching(m, rules, sat, ids, Fresh(|ids|))
    ensures var m' := [Signer(0)] + AllLater(m);
            forall j, k | 0 <= j < k < |m'| && !m'[j].Unmet? :: m'[j] != m'[k]
  {
    hide AllLater;
    var m' := [Signer(0)] + AllLater(m);
    forall j, k | 0 <= j < k < |m'| && !m'[j].Unmet?
      ensures m'[j] != m'[k]
    {
      assert m'[k] == Later(m[k - 1]);
      if j > 0 { assert m'[j] == Later(m[j - 1]) && m[j - 1] != m[k - 1]; }
    }
  }

  /** A used identity in front changes nothing. */
  lemma {:induction false} UsedInFront(rules: seq<Rule>, sat: Satisfies, ids: seq<Identity>, used: seq<bool>,
                                       id: Identity)
    requires AllLeaves(rules) && |used| == |ids|
    ensures EvalRules(rules, sat, [id] + ids, [true] + used).0 == EvalRules(rules, sat, ids, used).0
    decreases |rules|
  {
    if rules != [] {
      var p := rules[0].principal;
      var i, k := Pick(sat, p, ids, used, 0), Pick(sat, p, [id] + ids, [true] + used, 0);
      if i.Some? {
        assert sat(([id] + ids)[i.value + 1], p) && !([true] + used)[i.value + 1];
      }
      if k.Some? {
        assert sat(ids[k.value - 1], p) && !used[k.value - 1];
        assert k == Some(i.value + 1);
        assert ([true] + used)[k.value := true] == [true] + used[i.value := true];
        UsedInFront(rules[1..], sat, ids, used[i.value := true], id);
      } else {
        UsedInFront(rules[1..], sat, ids, used, id);
      }
    }
  }

  /** Where a principal is not nested in a later one, some signers show the greedy evaluator short. */
  lemma {:induction false} GreedyFallsShort(rules: seq<Rule>, sat: Satisfies)
    returns (ids: seq<Identity>, m: seq<Witness>)
    requires AllLeaves(rules) && !NestedInOrder(rules, sat)
    ensures Matching(m, rules, sat, ids, Fresh(|ids|)) && Met(m) > EvalRules(rules, sat, ids, Fresh(|ids|)).0
    decreases |rules|
  {
    var p := rules[0].principal;
    if k :| 1 <= k < |rules| && !Nested(p, rules[k].principal, sat) {
      var a :| sat(a, p) && sat(a, rules[k].principal);
      var b :| sat(b, p) && !sat(b, rules[k].principal);
      ids, m := FirstTakesTheWrongOne(rules, sat, k, a, b);
    } else {
      assert !NestedInOrder(rules[1..], sat);
      ids, m := GreedyFallsShort(rules[1..], sat);
      ids, m := OneMoreInFront(rules, sat, ids, m);
    }
  }

  lemma OneMoreInFront(rules: seq<Rule>, sat: Satisfies, ids: seq<Identity>, m: seq<Witness>)
    returns (ids': seq<Identity>, m': seq<Witness>)
    requires AllLeaves(rules) && rules != [] && Matching(m, rules[1..], sat, ids, Fresh(|ids|))
    requires Met(m) > EvalRules(rules[1..], sat, ids, Fresh(|ids|)).0
    ensures Matching(m', rules, sat, ids', Fresh(|ids'|)) && Met(m') > EvalRules(rules, sat, ids', Fresh(|ids'|)).0
  {
    var p := rules[0].principal;
    if c :| sat(c, p) {
      hide EvalRules, Matching, Met, AllLater;
      ids', m' := [c] + ids, [Signer(0)] + AllLater(m);
      MatchingInFront(m, rules, sat, ids, c);
      FirstIsTaken(rules, sat, ids');
      assert Fresh(|ids'|)[0 := true] == [true] + Fresh(|ids|);
      UsedInFront(rules[1..], sat, ids, Fresh(|ids|), c);
    } else {
      ids', m' := ids, [Unmet] + m;
      assert m'[1..] == m;
    }
  }

  /** The greedy count is the size of a largest assignment, whoever signs, exactly when each principal is
      contained in every later one that it overlaps. */
  lemma MaximumExactly(rules: seq<Rule>, sat: Satisfies)
    requires AllLeaves(rules)
    ensures AlwaysMaximum(rules, sat) <==> NestedInOrder(rules, sat)
  {
    if NestedInOrder(rules, sat) {
      forall ids, m | Matching(m, rules, sat, ids, Fresh(|ids|))
        ensures Met(m) <= EvalRules(rules, sat, ids, Fresh(|ids|)).0
      {
        forall j, k | 0 <= j < k < |rules|
          ensures NestedOn(rules[j].principal, rules[k].principal, sat, ids)
        {
          assert Nested(rules[j].principal, rules[k].principal, sat);
        }
        GreedyIsMaximum(m, rules, sat, ids, Fresh(|ids|));
      }
    } else {
      var ids, m := GreedyFallsShort(rules, sat);
    }
  }

  // ----- Where it falls short -----

  function Covers(id: Identity, p: Principal): bool { id.id == p.principal || (id.id == "x" && p.principal == "y") }

  /** With principals that overlap partially the greedy evaluator can miss an assignment: the leaf for
      "y" takes the identity "x", which the leaf for "x" needs. */
  lemma GreedyMissesAnAssignment()
    ensures var rules, ids := [LeafFor("y"), LeafFor("x")], [Identity("m", "x"), Identity("m", "y")];
            && !Accepts(Gate(2, rules), Covers, ids)
            && Matching([Signer(1), Signer(0)], rules, Covers, ids, Fresh(2))
            && Met([Signer(1), Signer(0)]) == 2
  {
    var rules, ids := [LeafFor("y"), LeafFor("x")], [Identity("m", "x"), Identity("m", "y")];
    var none := Fresh(2);
    assert none == [false, false];
    LeafFinds("y", Covers, ids, none, 0);
    LeafMisses("x", Covers, ids, [true, false]);
    assert rules[1..] == [LeafFor("x")] && rules[1..][1..] == [];
    assert EvalRules(rules, Covers, ids, none).0 == 1;
    assert [Signer(1), Signer(0)][1..] == [Signer(0)];
  }
}
