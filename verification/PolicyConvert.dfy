/** Turning an implicit meta policy into one signature policy by merging and re-indexing principals
    (common/policies/convert.go). */
module PolicyConvert {
  import opened Basics
  import opened SignaturePolicy
  import opened Policies

  // ----- Principals -----

  function ClassName(c: Classification): string {
    match c
    case ROLE => "ROLE"
    case ORGANIZATION_UNIT => "ORGANIZATION_UNIT"
    case IDENTITY => "IDENTITY"
    case ANONYMITY => "ANONYMITY"
    case COMBINED => "COMBINED"
  }

  /** The string by which principals are compared. */
  function PrincipalKey(p: Principal): string { ClassName(p.classification) + p.principal }

  /** The names of the classes begin with different letters, so the string determines the principal. */
  lemma PrincipalKeyInjective(p: Principal, q: Principal)
    requires PrincipalKey(p) == PrincipalKey(q)
    ensures p == q
  {
    var n := |ClassName(p.classification)|;
    assert PrincipalKey(p)[0] == ClassName(p.classification)[0];
    assert PrincipalKey(q)[0] == ClassName(q.classification)[0];
    assert p.classification == q.classification;
    assert PrincipalKey(p)[n..] == p.principal && PrincipalKey(q)[n..] == q.principal;
  }

  predicate Distinct(ids: seq<Principal>) {
    forall i, j | 0 <= i < j < |ids| :: ids[i] != ids[j]
  }

  // ----- Remapping -----

  /** Every index of the policy is remapped; anything else makes `remap` panic. */
  predicate Remappable(policy: SigPolicy, idRemap: map<int, int>)
    decreases policy
  {
    match policy
    case SignedBy(i) => i in idRemap
    case NOutOf(_, rules) => forall k | 0 <= k < |rules| :: Remappable(rules[k], idRemap)
    case Unknown => false
  }

  /** `remap`. */
  function Remap(policy: SigPolicy, idRemap: map<int, int>): SigPolicy
    requires Remappable(policy, idRemap)
    decreases policy, 1
  {
    match policy
    case SignedBy(i) => SignedBy(idRemap[i])
    case NOutOf(n, rules) => NOutOf(n, RemapAll(rules, idRemap))
  }

  function RemapAll(rules: seq<SigPolicy>, idRemap: map<int, int>): seq<SigPolicy>
    requires forall k | 0 <= k < |rules| :: Remappable(rules[k], idRemap)
    decreases rules, 0
  {
    if rules == [] then [] else [Remap(rules[0], idRemap)] + RemapAll(rules[1..], idRemap)
  }

  /** The remapping sends each index to the place of the same principal in the merged list. */
  ghost predicate Redirects(idRemap: map<int, int>, from: seq<Principal>, to: seq<Principal>) {
    forall i | 0 <= i < |from| :: i in idRemap && 0 <= idRemap[i] < |to| && to[idRemap[i]] == from[i]
  }

  /** A policy that compiles against its own principals can be remapped, and the remapped policy
      compiles to the same rule against the merged principals. */
  lemma {:induction false} RemapKeepsMeaning(policy: SigPolicy, idRemap: map<int, int>, from: seq<Principal>,
                                             to: seq<Principal>)
    requires Compile(policy, from).Some? && Redirects(idRemap, from, to)
    ensures Remappable(policy, idRemap) && Compile(Remap(policy, idRemap), to) == Compile(policy, from)
    decreases policy, 1
  {
    if policy.NOutOf? { RemapAllKeepsMeaning(policy.rules, idRemap, from, to); }
  }

  lemma {:induction false} RemapAllKeepsMeaning(rules: seq<SigPolicy>, idRemap: map<int, int>, from: seq<Principal>,
                                                to: seq<Principal>)
    requires CompileAll(rules, from).Some? && Redirects(idRemap, from, to)
    ensures forall k | 0 <= k < |rules| :: Remappable(rules[k], idRemap)
    ensures CompileAll(RemapAll(rules, idRemap), to) == CompileAll(rules, from)
    decreases rules, 0
  {
    if rules != [] {
      RemapKeepsMeaning(rules[0], idRemap, from, to);
      RemapAllKeepsMeaning(rules[1..], idRemap, from, to);
      var all := RemapAll(rules, idRemap);
      assert all[0] == Remap(rules[0], idRemap) && all[1..] == RemapAll(rules[1..], idRemap);
    }
  }

  /** More principals at the end do not change what a policy means. */
  lemma {:induction false} LongerListKeepsMeaning(policy: SigPolicy, ids: seq<Principal>, longer: seq<Principal>)
    requires Compile(policy, ids).Some? && ids <= longer
    ensures Compile(policy, longer) == Compile(policy, ids)
    decreases policy, 1
  {
    if policy.NOutOf? { LongerListKeepsMeaningAll(policy.rules, ids, longer); }
  }

  lemma {:induction false} LongerListKeepsMeaningAll(rules: seq<SigPolicy>, ids: seq<Principal>, longer: seq<Principal>)
    requires CompileAll(rules, ids).Some? && ids <= longer
    ensures CompileAll(rules, longer) == CompileAll(rules, ids)
    decreases rules, 0
  {
    if rules != [] {
      LongerListKeepsMeaning(rules[0], ids, longer);
      LongerListKeepsMeaningAll(rules[1..], ids, longer);
    }
  }

  // ----- Merging -----

  /** The signature policy under construction: its principals and the rules of its single gate. */
  class Converted {
    const n: int
    var identities: seq<Principal>
    var rules: seq<SigPolicy>

    constructor (n: int)
      ensures this.n == n && identities == [] && rules == []
    {
      this.n := n;
      identities, rules := [], [];
    }

    /** What the rules merged so far compile to. */
    ghost function Meaning(): Option<seq<Rule>> reads this { CompileAll(rules, identities) }

    /** `merge`: adds one rule that means what `that` means, keeps the meaning of the earlier rules,
        and leaves the principals pairwise distinct. */
    method Merge(that: Envelope)
      requires Distinct(identities) && Meaning().Some?
      requires Compile(that.rule, that.identities).Some?
      modifies this
      ensures Distinct(identities) && old(identities) <= identities
      ensures forall p | p in identities :: p in old(identities) || p in that.identities
      ensures Meaning() == Some(old(Meaning()).value + [Compile(that.rule, that.identities).value])
    {
      var merged, idRemap := MergeIdentities(identities, that.identities);
      RemapKeepsMeaning(that.rule, idRemap, that.identities, merged);
      LongerListKeepsMeaningAll(rules, identities, merged);
      var newEntry := Remap(that.rule, idRemap);
      CompileAllSnoc(rules, newEntry, merged);
      identities := merged;
      rules := rules + [newEntry];
    }
  }

  /** The string map of `merge` points each known string at a principal with that string. */
  ghost predicate Indexes(idMap: map<string, int>, ids: seq<Principal>) {
    && (forall s | s in idMap :: 0 <= idMap[s] < |ids| && PrincipalKey(ids[idMap[s]]) == s)
    && (forall i | 0 <= i < |ids| :: PrincipalKey(ids[i]) in idMap)
  }

  method IndexIdentities(ids: seq<Principal>) returns (idMap: map<string, int>)
    ensures Indexes(idMap, ids)
  {
    idMap := map[];
    for i := 0 to |ids|
      invariant forall s | s in idMap :: 0 <= idMap[s] < i && PrincipalKey(ids[idMap[s]]) == s
      invariant forall k | 0 <= k < i :: PrincipalKey(ids[k]) in idMap
    {
      idMap := idMap[PrincipalKey(ids[i]) := i];
    }
  }

  /** The first two loops of `merge`. */
  method MergeIdentities(ids: seq<Principal>, more: seq<Principal>)
    returns (merged: seq<Principal>, idRemap: map<int, int>)
    requires Distinct(ids)
    ensures ids <= merged && Distinct(merged) && Redirects(idRemap, more, merged)
    ensures forall p | p in merged :: p in ids || p in more
  {
    hide PrincipalKey;
    merged, idRemap := ids, map[];
    var idMap := IndexIdentities(ids);
    for i := 0 to |more|
      invariant ids <= merged && Distinct(merged) && Indexes(idMap, merged)
      invariant Redirects(idRemap, more[..i], merged)
      invariant forall p | p in merged :: p in ids || p in more
    {
      var p := more[i];
      var s := PrincipalKey(p);
      if s in idMap {
        PrincipalKeyInjective(merged[idMap[s]], p);
        idRemap := idRemap[i := idMap[s]];
      } else {
        assert p !in merged;
        idRemap, idMap := idRemap[i := |merged|], idMap[s := |merged|];
        merged := merged + [p];
      }
    }
    assert more[..|more|] == more;
  }

  // ----- Conversion -----

  /** Does the policy contain nothing but signature and implicit meta policies? */
  predicate Convertible(p: Policy)
    decreases p
  {
    match p
    case Signature(_) => true
    case ImplicitMeta(_, subs) => forall i | 0 <= i < |subs| :: Convertible(subs[i])
    case Reject => false
  }

  /** The rule tree that a policy stands for: a gate over what its sub-policies stand for. */
  function RuleOf(p: Policy): Rule
    requires WellFormed(p) && Convertible(p)
    decreases p, 1
  {
    match p
    case Signature(env) => Compile(env.rule, env.identities).value
    case ImplicitMeta(threshold, subs) => Gate(threshold, RulesOf(subs))
  }

  function RulesOf(subs: seq<Policy>): (rules: seq<Rule>)
    requires forall i | 0 <= i < |subs| :: WellFormed(subs[i]) && Convertible(subs[i])
    ensures |rules| == |subs|
    decreases subs, 0
  {
    if subs == [] then [] else [RuleOf(subs[0])] + RulesOf(subs[1..])
  }

  lemma {:induction false} RulesOfSnoc(subs: seq<Policy>, p: Policy)
    requires WellFormed(p) && Convertible(p)
    requires forall i | 0 <= i < |subs| :: WellFormed(subs[i]) && Convertible(subs[i])
    ensures RulesOf(subs + [p]) == RulesOf(subs) + [RuleOf(p)]
    decreases |subs|
  {
    var all := subs + [p];
    if subs == [] {
      assert all[1..] == [];
    } else {
      assert all[0] == subs[0] && all[1..] == subs[1..] + [p];
      RulesOfSnoc(subs[1..], p);
    }
  }

  /** `Convert`: fails exactly on a policy that is not convertible; otherwise the envelope compiles to the
      rule tree the policy stands for, and the principals of a converted meta policy are distinct. */
  method Convert(p: Policy) returns (r: Option<Envelope>)
    requires WellFormed(p)
    ensures r.Some? <==> Convertible(p)
    ensures r.Some? ==> Compile(r.value.rule, r.value.identities) == Some(RuleOf(p))
    ensures r.Some? && p.ImplicitMeta? ==> Distinct(r.value.identities) && r.value.version == 0
    ensures p.Signature? ==> r == Some(p.envelope)
    decreases p
  {
    match p
    case Reject => r := None;
    case Signature(env) => r := Some(env);
    case ImplicitMeta(threshold, subs) =>
      var converted := new Converted(threshold);
      for k := 0 to |subs|
        invariant fresh(converted) && converted.n == threshold && Distinct(converted.identities)
        invariant forall i | 0 <= i < k :: Convertible(subs[i])
        invariant converted.Meaning() == Some(RulesOf(subs[..k]))
      {
        var spe := Convert(subs[k]);
        if spe.None? { return None; }
        RulesOfSnoc(subs[..k], subs[k]);
        assert subs[..k + 1] == subs[..k] + [subs[k]];
        converted.Merge(spe.value);
      }
      assert subs[..|subs|] == subs;
      r := Some(Envelope(0, NOutOf(converted.n, converted.rules), converted.identities));
  }
}
