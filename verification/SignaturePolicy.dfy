/** Signature policies: compilation, greedy evaluation over a shared array of used identities, and
    what acceptance means (common/cauthdsl/cauthdsl.go, common/cauthdsl/policy.go). */
module SignaturePolicy {
  import opened Basics

  datatype Classification = ROLE | ORGANIZATION_UNIT | IDENTITY | ANONYMITY | COMBINED

  datatype Principal = Principal(classification: Classification, principal: string)

  datatype Identity = Identity(mspid: string, id: string)

  /** `SatisfiesPrincipal` of the membership service. */
  type Satisfies = (Identity, Principal) -> bool

  /** The policy message. `Unknown` stands for a nil or unrecognised element. */
  datatype SigPolicy = SignedBy(index: int) | NOutOf(n: int, rules: seq<SigPolicy>) | Unknown

  /** A compiled policy: the closures that `compile` returns, with the principal in place of its index. */
  datatype Rule = Leaf(principal: Principal) | Gate(n: int, rules: seq<Rule>)

  /** `compile`. */
  function Compile(policy: SigPolicy, identities: seq<Principal>): Option<Rule>
    decreases policy, 1
  {
    match policy
    case SignedBy(i) => if 0 <= i < |identities| then Some(Leaf(identities[i])) else None
    case NOutOf(n, rules) =>
      var compiled := CompileAll(rules, identities);
      if compiled.None? then None else Some(Gate(n, compiled.value))
    case Unknown => None
  }

  function CompileAll(policies: seq<SigPolicy>, identities: seq<Principal>): (r: Option<seq<Rule>>)
    ensures r.Some? ==> |r.value| == |policies|
    decreases policies, 0
  {
    if policies == [] then Some([])
    else
      var first, rest := Compile(policies[0], identities), CompileAll(policies[1..], identities);
      if first.None? || rest.None? then None else Some([first.value] + rest.value)
  }

  /** Every element is known and every index names a principal. */
  predicate InRange(policy: SigPolicy, size: nat) {
    match policy
    case SignedBy(i) => 0 <= i < size
    case NOutOf(_, rules) => forall r | r in rules :: InRange(r, size)
    case Unknown => false
  }

  /** The rule has the shape of the policy, each leaf with the principal that its index names. */
  predicate StandsFor(rule: Rule, policy: SigPolicy, identities: seq<Principal>)
    decreases policy
  {
    match policy
    case SignedBy(i) => 0 <= i < |identities| && rule == Leaf(identities[i])
    case NOutOf(n, rules) =>
      && rule.Gate? && rule.n == n && |rule.rules| == |rules|
      && forall i | 0 <= i < |rules| :: StandsFor(rule.rules[i], rules[i], identities)
    case Unknown => false
  }

  /** Compilation fails exactly on an unknown element or an index out of range. */
  lemma {:induction false} CompileFailsExactly(policy: SigPolicy, identities: seq<Principal>)
    ensures Compile(policy, identities).Some? <==> InRange(policy, |identities|)
    decreases policy, 1
  {
    if policy.NOutOf? {
      CompileAllFailsExactly(policy.rules, identities);
    }
  }

  lemma {:induction false} CompileAllFailsExactly(policies: seq<SigPolicy>, identities: seq<Principal>)
    ensures CompileAll(policies, identities).Some? <==> forall p | p in policies :: InRange(p, |identities|)
    decreases policies, 0
  {
    if policies == [] {
    } else {
      CompileFailsExactly(policies[0], identities);
      CompileAllFailsExactly(policies[1..], identities);
      assert policies == [policies[0]] + policies[1..];
    }
  }

  /** Compilation gives the one rule that stands for the policy. */
  lemma {:induction false} CompileExact(policy: SigPolicy, identities: seq<Principal>, rule: Rule)
    ensures Compile(policy, identities) == Some(rule) <==> StandsFor(rule, policy, identities)
    decreases policy, 1
  {
    if policy.NOutOf? && rule.Gate? && |rule.rules| == |policy.rules| {
      CompileAllExact(policy.rules, identities, rule.rules);
    }
  }

  lemma {:induction false} CompileAllExact(policies: seq<SigPolicy>, identities: seq<Principal>, rules: seq<Rule>)
    requires |rules| == |policies|
    ensures CompileAll(policies, identities) == Some(rules) <==>
            forall i | 0 <= i < |rules| :: StandsFor(rules[i], policies[i], identities)
    decreases policies, 0
  {
    if policies == [] {
    } else {
      CompileExact(policies[0], identities, rules[0]);
      CompileAllExact(policies[1..], identities, rules[1..]);
      assert rules == [rules[0]] + rules[1..];
      hide StandsFor, Compile;
      StandForTail(rules, policies, identities);
    }
  }

  lemma StandForTail(rules: seq<Rule>, policies: seq<SigPolicy>, identities: seq<Principal>)
    requires |rules| == |policies| > 0
    ensures (forall i | 0 <= i < |rules| :: StandsFor(rules[i], policies[i], identities)) <==>
            && StandsFor(rules[0], policies[0], identities)
            && forall i | 0 <= i < |rules[1..]| :: StandsFor(rules[1..][i], policies[1..][i], identities)
  {
    hide StandsFor;
    assert forall i | 0 <= i < |rules[1..]| :: rules[i + 1] == rules[1..][i] && policies[i + 1] == policies[1..][i];
    assert forall i | 0 < i < |rules| :: rules[i] == rules[1..][i - 1] && policies[i] == policies[1..][i - 1];
  }

  lemma {:induction false} CompileAllSnoc(rules: seq<SigPolicy>, last: SigPolicy, ids: seq<Principal>)
    requires CompileAll(rules, ids).Some? && Compile(last, ids).Some?
    ensures CompileAll(rules + [last], ids) == Some(CompileAll(rules, ids).value + [Compile(last, ids).value])
    decreases |rules|
  {
    var all := rules + [last];
    if rules == [] {
      assert all[1..] == [];
      var x := Compile(last, ids).value;
      assert [x] + [] == [] + [x];
    } else {
      assert all[0] == rules[0] && all[1..] == rules[1..] + [last];
      CompileAllSnoc(rules[1..], last, ids);
      var first, rest, x := Compile(rules[0], ids).value, CompileAll(rules[1..], ids).value, Compile(last, ids).value;
      assert [first] + (rest + [x]) == ([first] + rest) + [x];
    }
  }

  /** `compile`, with its loop over the rules of a gate. */
  method CompilePolicy(policy: SigPolicy, identities: seq<Principal>) returns (r: Option<Rule>)
    ensures r == Compile(policy, identities)
    ensures r.Some? <==> InRange(policy, |identities|)
    ensures r.Some? ==> StandsFor(r.value, policy, identities)
    decreases policy
  {
    CompileFailsExactly(policy, identities);
    match policy
    case SignedBy(i) =>
      r := if i < 0 || i >= |identities| then None else Some(Leaf(identities[i]));
    case Unknown =>
      r := None;
    case NOutOf(n, rules) =>
      var compiled := [];
      for k := 0 to |rules|
        invariant CompileAll(rules[..k], identities) == Some(compiled)
      {
        var c := CompilePolicy(rules[k], identities);
        if c.None? {
          assert rules[k] in rules;
          return None;
        }
        CompileAllSnoc(rules[..k], rules[k], identities);
        assert rules[..k + 1] == rules[..k] + [rules[k]];
        compiled := compiled + [c.value];
      }
      assert rules[..|rules|] == rules;
      r := Some(Gate(n, compiled));
      CompileExact(policy, identities, r.value);
  }

  // ----- Evaluation -----

  /** The first identity that is not used yet and satisfies the principal. */
  function Pick(sat: Satisfies, p: Principal, ids: seq<Identity>, used: seq<bool>, from: nat): (r: Option<nat>)
    requires |used| == |ids| && from <= |ids|
    ensures r.Some? ==> from <= r.value < |ids| && !used[r.value] && sat(ids[r.value], p)
    ensures forall j | from <= j < (if r.Some? then r.value else |ids|) :: used[j] || !sat(ids[j], p)
    decreases |ids| - from
  {
    if from == |ids| then None
    else if !used[from] && sat(ids[from], p) then Some(from)
    else Pick(sat, p, ids, used, from + 1)
  }

  /** The verdict of a rule, and the array of used identities it leaves behind. A gate that fails
      may still have written to the array it was given. */
  function Eval(rule: Rule, sat: Satisfies, ids: seq<Identity>, used: seq<bool>): (r: (bool, seq<bool>))
    requires |used| == |ids|
    ensures |r.1| == |ids|
    decreases rule, 1
  {
    match rule
    case Leaf(p) =>
      var i := Pick(sat, p, ids, used, 0);
      if i.Some? then (true, used[i.value := true]) else (false, used)
    case Gate(n, rules) =>
      var r := EvalRules(rules, sat, ids, used);
      (r.0 >= n, r.1)
  }

  /** How many of the rules are verified in turn. A rule works on a copy of the array, which is kept
      only when the rule is verified. */
  function EvalRules(rules: seq<Rule>, sat: Satisfies, ids: seq<Identity>, used: seq<bool>): (r: (nat, seq<bool>))
    requires |used| == |ids|
    ensures |r.1| == |ids| && r.0 <= |rules|
    decreases rules, 0
  {
    if rules == [] then (0, used)
    else
      var first := Eval(rules[0], sat, ids, used);
      if first.0 then
        var rest := EvalRules(rules[1..], sat, ids, first.1);
        (rest.0 + 1, rest.1)
      else EvalRules(rules[1..], sat, ids, used)
  }

  lemma {:induction false} EvalRulesSnoc(rules: seq<Rule>, last: Rule, sat: Satisfies, ids: seq<Identity>,
                                         used: seq<bool>)
    requires |used| == |ids|
    ensures var r := EvalRules(rules, sat, ids, used);
            var e := Eval(last, sat, ids, r.1);
            EvalRules(rules + [last], sat, ids, used) == if e.0 then (r.0 + 1, e.1) else r
    decreases |rules|
  {
    var all := rules + [last];
    if rules == [] {
      assert all[0] == last && all[1..] == [];
    } else {
      assert all[0] == rules[0] && all[1..] == rules[1..] + [last];
      var first := Eval(rules[0], sat, ids, used);
      EvalRulesSnoc(rules[1..], last, sat, ids, if first.0 then first.1 else used);
    }
  }

  /** `copy(dst, src)`. */
  method Copy(dst: array<bool>, src: array<bool>)
    requires dst.Length == src.Length && dst != src
    modifies dst
    ensures dst[..] == src[..]
  {
    forall i | 0 <= i < dst.Length { dst[i] := src[i]; }
    assert dst[..] == src[..];
  }

  /** The evaluator closures, working in place on the array of used identities. */
  method Evaluate(rule: Rule, sat: Satisfies, ids: seq<Identity>, used: array<bool>) returns (ok: bool)
    requires used.Length == |ids|
    modifies used
    ensures (ok, used[..]) == Eval(rule, sat, ids, old(used[..]))
    decreases rule
  {
    match rule
    case Leaf(p) =>
      ok := EvaluateLeaf(p, sat, ids, used);
    case Gate(n, rules) =>
      ghost var start := used[..];
      var verified := 0;
      var scratch := new bool[used.Length];
      for k := 0 to |rules|
        invariant (verified, used[..]) == EvalRules(rules[..k], sat, ids, start)
      {
        Copy(scratch, used);
        ghost var before := used[..];
        var good := Evaluate(rules[k], sat, ids, scratch);
        EvalRulesSnoc(rules[..k], rules[k], sat, ids, start);
        assert rules[..k + 1] == rules[..k] + [rules[k]];
        if good {
          verified := verified + 1;
          Copy(used, scratch);
        }
      }
      assert rules[..|rules|] == rules;
      ok := verified >= n;
  }

  method EvaluateLeaf(p: Principal, sat: Satisfies, ids: seq<Identity>, used: array<bool>) returns (ok: bool)
    requires used.Length == |ids|
    modifies used
    ensures (ok, used[..]) == Eval(Leaf(p), sat, ids, old(used[..]))
  {
    for i := 0 to |ids|
      invariant used[..] == old(used[..])
      invariant Pick(sat, p, ids, used[..], 0) == Pick(sat, p, ids, used[..], i)
    {
      if used[i] { continue; }
      if !sat(ids[i], p) { continue; }
      used[i] := true;
      return true;
    }
    return false;
  }

  /** A fresh array: nobody has been used. */
  function Fresh(n: nat): seq<bool> { seq(n, _ => false) }

  /** `EvaluateIdentities` of a compiled policy. */
  predicate Accepts(rule: Rule, sat: Satisfies, ids: seq<Identity>) {
    Eval(rule, sat, ids, Fresh(|ids|)).0
  }

  method EvaluateIdentities(rule: Rule, sat: Satisfies, ids: seq<Identity>) returns (ok: bool)
    ensures ok <==> Accepts(rule, sat, ids)
  {
    var used := new bool[|ids|](_ => false);
    assert used[..] == Fresh(|ids|);
    ok := Evaluate(rule, sat, ids, used);
  }

  // ----- Soundness -----

  /** Why a rule is met: one signer for a leaf, reasons for some of the rules of a gate. */
  datatype Witness = Signer(i: nat) | Parts(parts: seq<Witness>) | Unmet

  /** How many of the rules of a gate a witness meets. */
  function Met(parts: seq<Witness>): nat {
    if parts == [] then 0 else (if parts[0].Unmet? then 0 else 1) + Met(parts[1..])
  }

  /** The witness picks a subtree that meets the rule: each leaf of it is given an identity that
      satisfies its principal, each gate of it keeps at least as many rules as it asks for. */
  predicate Supports(w: Witness, rule: Rule, sat: Satisfies, ids: seq<Identity>)
    decreases rule
  {
    match rule
    case Leaf(p) => w.Signer? && w.i < |ids| && sat(ids[w.i], p)
    case Gate(n, rules) =>
      && w.Parts? && |w.parts| == |rules| && Met(w.parts) >= n
      && forall j | 0 <= j < |rules| && !w.parts[j].Unmet? :: Supports(w.parts[j], rules[j], sat, ids)
  }

  /** The identities that a witness gives to leaves, with multiplicity. */
  function Signers(w: Witness): multiset<nat>
    decreases w, 1
  {
    match w
    case Signer(i) => multiset{i}
    case Parts(parts) => SignersOf(parts)
    case Unmet => multiset{}
  }

  function SignersOf(parts: seq<Witness>): multiset<nat>
    decreases parts, 0
  {
    if parts == [] then multiset{}
    else Signers(parts[0]) + SignersOf(parts[1..])
  }

  /** No identity is given to two leaves, none was used before, and exactly these are used after. */
  ghost predicate Consumes(signers: multiset<nat>, used: seq<bool>, used': seq<bool>) {
    && |used| == |used'|
    && (forall i | i in signers :: signers[i] == 1 && i < |used| && !used[i])
    && (forall i: nat | i < |used| :: used'[i] <==> used[i] || i in signers)
  }

  lemma ConsumesBoth(a: multiset<nat>, b: multiset<nat>, u0: seq<bool>, u1: seq<bool>, u2: seq<bool>)
    requires Consumes(a, u0, u1) && Consumes(b, u1, u2)
    ensures Consumes(a + b, u0, u2)
  {
  }

  /** An accepted rule is met by a subtree whose leaves are given distinct, so far unused
      identities, and the array records exactly those. */
  lemma {:induction false} EvalSound(rule: Rule, sat: Satisfies, ids: seq<Identity>, used: seq<bool>)
    returns (w: Witness)
    requires |used| == |ids| && Eval(rule, sat, ids, used).0
    ensures Supports(w, rule, sat, ids)
    ensures Consumes(Signers(w), used, Eval(rule, sat, ids, used).1)
    decreases rule, 1
  {
    match rule
    case Leaf(p) =>
      w := Signer(Pick(sat, p, ids, used, 0).value);
    case Gate(n, rules) =>
      var parts := EvalRulesSound(rules, sat, ids, used);
      w := Parts(parts);
  }

  lemma {:induction false} EvalRulesSound(rules: seq<Rule>, sat: Satisfies, ids: seq<Identity>, used: seq<bool>)
    returns (parts: seq<Witness>)
    requires |used| == |ids|
    ensures |parts| == |rules| && Met(parts) == EvalRules(rules, sat, ids, used).0
    ensures forall j | 0 <= j < |rules| && !parts[j].Unmet? :: Supports(parts[j], rules[j], sat, ids)
    ensures Consumes(SignersOf(parts), used, EvalRules(rules, sat, ids, used).1)
    decreases rules, 0
  {
    if rules == [] {
      parts := [];
    } else {
      var first := Eval(rules[0], sat, ids, used);
      if first.0 {
        var w := EvalSound(rules[0], sat, ids, used);
        var rest := EvalRulesSound(rules[1..], sat, ids, first.1);
        parts := [w] + rest;
        assert parts[1..] == rest;
        ConsumesBoth(Signers(w), SignersOf(rest), used, first.1, EvalRules(rules, sat, ids, used).1);
      } else {
        var rest := EvalRulesSound(rules[1..], sat, ids, used);
        parts := [Unmet] + rest;
        assert parts[1..] == rest;
        assert SignersOf(parts) == SignersOf(rest);
      }
    }
  }

  /** Acceptance means an injective assignment of identities to the leaves of a satisfying subtree. */
  lemma AcceptSound(rule: Rule, sat: Satisfies, ids: seq<Identity>) returns (w: Witness)
    requires Accepts(rule, sat, ids)
    ensures Supports(w, rule, sat, ids)
    ensures forall i | i in Signers(w) :: Signers(w)[i] == 1 && i < |ids|
  {
    w := EvalSound(rule, sat, ids, Fresh(|ids|));
  }
}
