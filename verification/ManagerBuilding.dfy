/** Building the tree of policy managers from a configuration
    (common/policies/policy.go, common/policies/implicitmeta.go, common/cauthdsl/policy.go). */
module ManagerBuilding {
  import opened Basics
  import opened ConfigTree
  import opened SignaturePolicy
  import opened PolicyManager
  import opened Policies

  const IMPLICIT_META := 3

  datatype MetaDefinition = MetaDefinition(rule: MetaRule, subPolicy: string)

  /** The provider of each policy type, and how the definition of an implicit meta policy is read. */
  datatype Compiler = Compiler(providers: map<int, Bytes -> Option<Policy>>, unmarshal: Bytes -> Option<MetaDefinition>)

  /** `NewPolicy` of the provider for signature policies. */
  function NewSignaturePolicy(unmarshal: Bytes -> Option<Envelope>, data: Bytes): Option<Policy> {
    var env := unmarshal(data);
    if env.None? || env.value.version != 0 || Compile(env.value.rule, env.value.identities).None? then None
    else Some(Signature(env.value))
  }

  /** It succeeds exactly for a readable envelope of version 0 in which every element is known and every
      index names a principal. */
  lemma NewSignaturePolicyExact(unmarshal: Bytes -> Option<Envelope>, data: Bytes)
    ensures var env, r := unmarshal(data), NewSignaturePolicy(unmarshal, data);
            && (r.Some? <==> env.Some? && env.value.version == 0 && InRange(env.value.rule, |env.value.identities|))
            && (r.Some? ==> r.value == Signature(env.value) && WellFormed(r.value))
  {
    var env := unmarshal(data);
    if env.Some? { CompileFailsExactly(env.value.rule, env.value.identities); }
  }

  /** Providers return policies that can be evaluated. */
  ghost predicate Sound(c: Compiler) {
    forall kind, data | kind in c.providers && c.providers[kind](data).Some? ::
      WellFormed(c.providers[kind](data).value)
  }

  // ----- Outcomes -----

  datatype Outcome = Done(manager: Manager<Policy>) | Failed | Panicked

  predicate Compiles(c: Compiler, p: ConfigPolicy) {
    && p.policy.Some?
    && var blob := p.policy.value;
       if blob.kind == IMPLICIT_META then c.unmarshal(blob.value).Some?
       else blob.kind in c.providers && c.providers[blob.kind](blob.value).Some?
  }

  predicate IsMeta(c: Compiler, p: ConfigPolicy) { Compiles(c, p) && p.policy.value.kind == IMPLICIT_META }

  function Definition(c: Compiler, p: ConfigPolicy): MetaDefinition
    requires IsMeta(c, p)
  {
    c.unmarshal(p.policy.value.value).value
  }

  /** The policy asks a sub-manager for its own path. */
  predicate AsksOwnPath(c: Compiler, path: string, groups: set<string>, p: ConfigPolicy) {
    IsMeta(c, p) && exists g | g in groups :: Definition(c, p).subPolicy == SLASH + (path + SLASH + g)
  }

  /** Every policy of the tree is present and compiles. */
  predicate AllCompile(c: Compiler, root: ConfigGroup)
    decreases root
  {
    && (forall k | k in root.groups :: AllCompile(c, root.groups[k]))
    && (forall k | k in root.policies :: Compiles(c, root.policies[k]))
  }

  /** Some policy of the tree makes its construction slice out of range. */
  predicate SomePanics(c: Compiler, path: string, root: ConfigGroup)
    decreases root
  {
    || (exists k | k in root.groups :: SomePanics(c, path + SLASH + k, root.groups[k]))
    || (exists k | k in root.policies :: AsksOwnPath(c, path, root.groups.Keys, root.policies[k]))
  }

  // ----- What is built -----

  /** The implicit meta policy has what the sub-managers offer, listed in this order. */
  ghost predicate MetaOver(policy: Policy, def: MetaDefinition, managers: map<string, Manager<Policy>>,
                           order: seq<string>)
  {
    && policy.ImplicitMeta? && policy.threshold == Threshold(def.rule, |managers|)
    && InOrder(policy.subPolicies, order, managers, def.subPolicy)
  }

  /** What a policy message may be turned into, depending on the order of the sub-managers. */
  ghost predicate CompilesTo(c: Compiler, p: ConfigPolicy, managers: map<string, Manager<Policy>>, policy: Policy) {
    && Compiles(c, p)
    && if IsMeta(c, p) then exists order :: MetaOver(policy, Definition(c, p), managers, order)
       else policy == c.providers[p.policy.value.kind](p.policy.value.value).value
  }

  ghost predicate CompiledFrom(own: map<string, Policy>, c: Compiler, root: ConfigGroup,
                               managers: map<string, Manager<Policy>>)
  {
    forall k | k in own :: k in root.policies && CompilesTo(c, root.policies[k], managers, own[k])
  }

  /** `m` is a manager tree that `NewManagerImpl` may return for this group. */
  ghost predicate Built(m: Manager<Policy>, path: string, c: Compiler, root: ConfigGroup)
    decreases root
  {
    && m.path == path
    && m.managers.Keys == root.groups.Keys
    && (forall k | k in root.groups :: Built(m.managers[k], path + SLASH + k, c, root.groups[k]))
    && exists own :: Holds(m, own, root) && CompiledFrom(own, c, root, m.managers)
  }

  /** `NewManagerImpl`. When policies of both kinds are there, the order of the loops decides between failing
      and panicking. */
  method NewManagerImpl(path: string, c: Compiler, root: ConfigGroup) returns (r: Outcome)
    ensures r.Done? <==> IMPLICIT_META !in c.providers && AllCompile(c, root) && !SomePanics(c, path, root)
    ensures r.Done? ==> Built(r.manager, path, c, root)
    ensures r.Failed? ==> !AllCompile(c, root)
    ensures r.Panicked? ==> IMPLICIT_META in c.providers || SomePanics(c, path, root)
    decreases root, 1
  {
    hide Built, Flattens, CompiledFrom, Compiles, AsksOwnPath;
    if IMPLICIT_META in c.providers { return Panicked; }
    var subs, managers := BuildSubManagers(path, c, root);
    if !subs.Done? { return subs; }
    forall k | k in managers ensures managers[k].path == path + SLASH + k {
      BuiltAtPath(managers[k], path + SLASH + k, c, root.groups[k]);
    }
    var policies, own := CompilePolicies(path, c, root, managers);
    if !policies.Done? { return policies; }
    var lifted := LiftPolicies(own, managers);
    AssembledIsBuilt(Manager(path, lifted, managers), c, root, own);
    return Done(Manager(path, lifted, managers));
  }

  /** The loop of `NewManagerImpl` over the sub-groups. The manager in the outcome carries nothing. */
  method BuildSubManagers(path: string, c: Compiler, root: ConfigGroup)
    returns (r: Outcome, managers: map<string, Manager<Policy>>)
    requires IMPLICIT_META !in c.providers
    ensures r.Done? <==> forall k | k in root.groups ::
                           AllCompile(c, root.groups[k]) && !SomePanics(c, path + SLASH + k, root.groups[k])
    ensures r.Done? ==> managers.Keys == root.groups.Keys
    ensures r.Done? ==> forall k | k in managers :: Built(managers[k], path + SLASH + k, c, root.groups[k])
    ensures r.Failed? ==> exists k | k in root.groups :: !AllCompile(c, root.groups[k])
    ensures r.Panicked? ==> exists k | k in root.groups :: SomePanics(c, path + SLASH + k, root.groups[k])
    decreases root, 0
  {
    hide AllCompile, SomePanics, Built;
    managers := map[];
    var todo := root.groups.Keys;
    while todo != {}
      invariant todo <= root.groups.Keys && managers.Keys == root.groups.Keys - todo
      invariant forall k | k in managers ::
                  && AllCompile(c, root.groups[k]) && !SomePanics(c, path + SLASH + k, root.groups[k])
                  && Built(managers[k], path + SLASH + k, c, root.groups[k])
      decreases todo
    {
      var k :| k in todo;
      var sub := NewManagerImpl(path + SLASH + k, c, root.groups[k]);
      if !sub.Done? { return sub, managers; }
      managers, todo := managers[k := sub.manager], todo - {k};
    }
    r := Done(Manager(path, map[], map[]));
  }

  lemma AssembledIsBuilt(m: Manager<Policy>, c: Compiler, root: ConfigGroup, own: map<string, Policy>)
    requires m.managers.Keys == root.groups.Keys
    requires forall k | k in root.groups :: Built(m.managers[k], m.path + SLASH + k, c, root.groups[k])
    requires own.Keys == root.policies.Keys && Flattens(m.policies, own, m.managers) &&
             CompiledFrom(own, c, root, m.managers)
    ensures Built(m, m.path, c, root)
  {
    hide Flattens, CompiledFrom;
    assert Holds(m, own, root);
  }

  lemma BuiltAtPath(m: Manager<Policy>, path: string, c: Compiler, root: ConfigGroup)
    requires Built(m, path, c, root)
    ensures m.path == path
  {
  }

  /** The loop of `NewManagerImpl` over the group's own policies. The manager in the outcome carries nothing. */
  method CompilePolicies(path: string, c: Compiler, root: ConfigGroup, managers: map<string, Manager<Policy>>)
    returns (r: Outcome, own: map<string, Policy>)
    requires managers.Keys == root.groups.Keys && forall k | k in managers :: managers[k].path == path + SLASH + k
    ensures r.Done? <==> (forall k | k in root.policies ::
                            Compiles(c, root.policies[k]) && !AsksOwnPath(c, path, root.groups.Keys, root.policies[k]))
    ensures r.Done? ==> own.Keys == root.policies.Keys && CompiledFrom(own, c, root, managers)
    ensures r.Failed? ==> exists k | k in root.policies :: !Compiles(c, root.policies[k])
    ensures r.Panicked? ==> exists k | k in root.policies :: AsksOwnPath(c, path, root.groups.Keys, root.policies[k])
  {
    hide CompilesTo;
    own := map[];
    var todo := root.policies.Keys;
    while todo != {}
      invariant todo <= root.policies.Keys && own.Keys == root.policies.Keys - todo
      invariant CompiledFrom(own, c, root, managers)
      invariant forall k | k in own ::
                  Compiles(c, root.policies[k]) && !AsksOwnPath(c, path, root.groups.Keys, root.policies[k])
      decreases todo
    {
      var k :| k in todo;
      if !Compiles(c, root.policies[k]) { return Failed, own; }
      var p := CompileOne(path, c, root.policies[k], managers);
      if p.None? { return Panicked, own; }
      own, todo := own[k := p.value], todo - {k};
    }
    r := Done(Manager(path, map[], map[]));
  }

  /** One policy message; an implicit meta policy panics when it asks a sub-manager for its own path. */
  method CompileOne(path: string, c: Compiler, p: ConfigPolicy, managers: map<string, Manager<Policy>>)
    returns (r: Option<Policy>)
    requires Compiles(c, p) && forall k | k in managers :: managers[k].path == path + SLASH + k
    ensures r.None? <==> AsksOwnPath(c, path, managers.Keys, p)
    ensures r.Some? ==> CompilesTo(c, p, managers, r.value)
  {
    hide GetPolicy;
    var blob := p.policy.value;
    if blob.kind == IMPLICIT_META {
      var def := c.unmarshal(blob.value).value;
      ghost var order;
      r, order := NewImplicitMetaPolicy(def.rule, def.subPolicy, managers);
      forall k | k in managers
        ensures GetPolicy(managers[k], def.subPolicy).Panics? <==> def.subPolicy == SLASH + (path + SLASH + k)
      {
        PanicsExactlyOnOwnPath(managers[k], def.subPolicy);
      }
      if r.Some? { assert MetaOver(r.value, Definition(c, p), managers, order); }
    } else {
      r := c.providers[blob.kind](blob.value);
    }
  }

  // ----- What the policies of a built manager mean -----

  lemma {:induction false} BuiltIsShaped(m: Manager<Policy>, path: string, c: Compiler, root: ConfigGroup)
    requires Built(m, path, c, root)
    ensures Shaped(m, path, root)
    decreases root
  {
    forall k | k in root.groups
      ensures Shaped(m.managers[k], path + SLASH + k, root.groups[k])
    {
      BuiltIsShaped(m.managers[k], path + SLASH + k, c, root.groups[k]);
    }
  }

  ghost predicate AllWellFormed(m: Manager<Policy>) {
    forall id | id in m.policies :: WellFormed(m.policies[id])
  }

  /** Every policy of a built manager tree can be evaluated. */
  lemma {:induction false} BuiltIsWellFormed(m: Manager<Policy>, path: string, c: Compiler, root: ConfigGroup)
    requires Built(m, path, c, root) && Sound(c)
    ensures AllWellFormed(m) && forall k | k in m.managers :: AllWellFormed(m.managers[k])
    decreases root
  {
    hide Sound, WellFormed, CompilesTo;
    forall k | k in root.groups
      ensures AllWellFormed(m.managers[k])
    {
      BuiltIsWellFormed(m.managers[k], path + SLASH + k, c, root.groups[k]);
    }
    var own :| Holds(m, own, root) && CompiledFrom(own, c, root, m.managers);
    forall id | id in m.policies
      ensures WellFormed(m.policies[id])
    {
      if id in own && m.policies[id] == own[id] { CompiledIsWellFormed(c, root.policies[id], m.managers, own[id]); }
    }
  }

  lemma CompiledIsWellFormed(c: Compiler, p: ConfigPolicy, managers: map<string, Manager<Policy>>, policy: Policy)
    requires Sound(c) && CompilesTo(c, p, managers, policy)
    requires forall k | k in managers :: AllWellFormed(managers[k])
    ensures WellFormed(policy)
  {
    if IsMeta(c, p) {
      var order :| MetaOver(policy, Definition(c, p), managers, order);
      forall i | 0 <= i < |policy.subPolicies|
        ensures WellFormed(policy.subPolicies[i])
      {
        assert order[i] in managers;
        FoundIsWellFormed(managers[order[i]], Definition(c, p).subPolicy);
        assert StandsIn(policy.subPolicies[i], managers[order[i]], Definition(c, p).subPolicy);
      }
    }
  }

  lemma FoundIsWellFormed(m: Manager<Policy>, name: string)
    requires AllWellFormed(m)
    ensures FindsWellFormed(m, name)
  {
  }

  /** In a manager tree built from a configuration, an implicit meta policy of a group is found under its name and is
      satisfied when any, all or most sub-managers find a satisfied policy of the given name. */
  lemma BuiltMetaMeansRule(m: Manager<Policy>, path: string, c: Compiler, root: ConfigGroup, k: string,
                           sat: Satisfies, ids: seq<Identity>)
    requires Built(m, path, c, root) && Sound(c) && SlashFree(root)
    requires k in root.policies && k != "" && IsMeta(c, root.policies[k])
    ensures m.managers.Keys == root.groups.Keys && GetPolicy(m, k).Found?
    ensures var def := Definition(c, root.policies[k]);
            HasSatisfied(m, k, sat, ids) <==>
            RuleHolds(def.rule, |m.managers|, |SatisfiedManagers(m.managers, m.managers.Keys, def.subPolicy, sat, ids)|)
  {
    var policy, order := OwnPolicyIsFound(m, path, c, root, k);
    var def := Definition(c, root.policies[k]);
    BuiltIsWellFormed(m, path, c, root);
    forall g | g in m.managers
      ensures FindsWellFormed(m.managers[g], def.subPolicy)
    {
      FoundIsWellFormed(m.managers[g], def.subPolicy);
    }
    hide Built, GetPolicy, Evaluated, WellFormed, FindsWellFormed, RuleHolds, InOrder, AllWellFormed;
    ImplicitMetaMeansRule(def.rule, def.subPolicy, m.managers, order, policy.subPolicies, sat, ids);
    assert policy == ImplicitMeta(Threshold(def.rule, |m.managers|), policy.subPolicies);
  }

  // ----- Policies read off the configuration -----

  /** Implicit meta policies name the policies of sub-groups by simple names. */
  predicate SimpleNames(c: Compiler, root: ConfigGroup)
    decreases root
  {
    && (forall k | k in root.groups :: SimpleNames(c, root.groups[k]))
    && (forall k | k in root.policies && IsMeta(c, root.policies[k]) ::
          Definition(c, root.policies[k]).subPolicy != "" && NoSlash(Definition(c, root.policies[k]).subPolicy))
  }

  /** The configuration itself says when a policy of a group holds: an implicit meta policy by its rule over the
      sub-groups, any other by what its provider makes of it, and one that is not there never. */
  ghost predicate HoldsIn(c: Compiler, root: ConfigGroup, name: string, sat: Satisfies, ids: seq<Identity>)
    decreases root
  {
    && name in root.policies && Compiles(c, root.policies[name])
    && var p := root.policies[name];
       if p.policy.value.kind == 3 then
         var def := Definition(c, p);
         RuleHolds(def.rule, |root.groups|,
                   |set g | g in root.groups && HoldsIn(c, root.groups[g], def.subPolicy, sat, ids)|)
       else
         var policy := c.providers[p.policy.value.kind](p.policy.value.value).value;
         WellFormed(policy) && Evaluated(policy, sat, ids)
  }

  ghost function HoldingGroups(c: Compiler, root: ConfigGroup, name: string, sat: Satisfies, ids: seq<Identity>)
    : set<string>
  {
    set g | g in root.groups && HoldsIn(c, root.groups[g], name, sat, ids)
  }

  lemma MetaHoldsIn(c: Compiler, root: ConfigGroup, name: string, sat: Satisfies, ids: seq<Identity>)
    requires name in root.policies && IsMeta(c, root.policies[name])
    ensures var def := Definition(c, root.policies[name]);
            HoldsIn(c, root, name, sat, ids) <==>
            RuleHolds(def.rule, |root.groups|, |HoldingGroups(c, root, def.subPolicy, sat, ids)|)
  {
    hide RuleHolds;
    var def := Definition(c, root.policies[name]);
    assert HoldingGroups(c, root, def.subPolicy, sat, ids) ==
           set g | g in root.groups && HoldsIn(c, root.groups[g], def.subPolicy, sat, ids);
  }

  lemma BuiltBelow(m: Manager<Policy>, path: string, c: Compiler, root: ConfigGroup, g: string)
    requires Built(m, path, c, root) && SlashFree(root) && SimpleNames(c, root) && g in root.groups
    ensures g in m.managers && Built(m.managers[g], path + SLASH + g, c, root.groups[g])
    ensures SlashFree(root.groups[g]) && SimpleNames(c, root.groups[g])
  {
  }

  lemma NamesAreSimple(c: Compiler, root: ConfigGroup, k: string)
    requires SimpleNames(c, root) && k in root.policies && IsMeta(c, root.policies[k])
    ensures var name := Definition(c, root.policies[k]).subPolicy; name != "" && NoSlash(name)
  {
  }

  /** A built manager has a policy satisfied exactly when the configuration says that it holds, through any depth of
      implicit meta policies. */
  lemma {:induction false} BuiltMeansConfig(m: Manager<Policy>, path: string, c: Compiler, root: ConfigGroup,
                                            name: string, sat: Satisfies, ids: seq<Identity>)
    requires Built(m, path, c, root) && Sound(c) && SlashFree(root) && SimpleNames(c, root)
    requires name != "" && NoSlash(name)
    ensures GetPolicy(m, name).Found? <==> name in root.policies
    ensures HasSatisfied(m, name, sat, ids) <==> HoldsIn(c, root, name, sat, ids)
    decreases root
  {
    hide Built, SlashFree, SimpleNames, HoldsIn, Sound, HasSatisfied, GetPolicy, RuleHolds, IsMeta, NoSlash;
    if name !in root.policies {
      NotDefinedIsMissing(m, path, c, root, name);
      NothingSatisfied(m, c, root, name, sat, ids);
    } else if IsMeta(c, root.policies[name]) {
      var def := Definition(c, root.policies[name]);
      NamesAreSimple(c, root, name);
      BuiltMetaMeansRule(m, path, c, root, name, sat, ids);
      MetaHoldsIn(c, root, name, sat, ids);
      forall g | g in root.groups
        ensures HasSatisfied(m.managers[g], def.subPolicy, sat, ids) <==>
                HoldsIn(c, root.groups[g], def.subPolicy, sat, ids)
      {
        BuiltBelow(m, path, c, root, g);
        BuiltMeansConfig(m.managers[g], path + SLASH + g, c, root.groups[g], def.subPolicy, sat, ids);
      }
      assert SatisfiedManagers(m.managers, m.managers.Keys, def.subPolicy, sat, ids) ==
             HoldingGroups(c, root, def.subPolicy, sat, ids);
      SameSize(m.managers, root.groups);
    } else {
      ProvidedMeans(m, path, c, root, name, sat, ids);
    }
  }

  lemma SameSize<A, B>(a: map<string, A>, b: map<string, B>)
    requires a.Keys == b.Keys
    ensures |a| == |b|
  {
    assert |a| == |a.Keys| && |b| == |b.Keys|;
  }

  lemma NothingSatisfied(m: Manager<Policy>, c: Compiler, root: ConfigGroup, name: string, sat: Satisfies,
                         ids: seq<Identity>)
    requires !GetPolicy(m, name).Found? && name !in root.policies
    ensures !HasSatisfied(m, name, sat, ids) && !HoldsIn(c, root, name, sat, ids)
  {
  }

  lemma NotDefinedIsMissing(m: Manager<Policy>, path: string, c: Compiler, root: ConfigGroup, name: string)
    requires Built(m, path, c, root) && name !in root.policies && name != "" && NoSlash(name)
    ensures GetPolicy(m, name) == Missing
  {
    var own :| Holds(m, own, root) && CompiledFrom(own, c, root, m.managers);
    assert name[0] in name;
    forall g, q, policy
      ensures !Lifted(m.managers, name, g, q, policy)
    {
      NotLifted(m.managers, name, g, q, policy);
    }
    assert name !in m.policies;
  }

  lemma ProvidedMeans(m: Manager<Policy>, path: string, c: Compiler, root: ConfigGroup, name: string,
                      sat: Satisfies, ids: seq<Identity>)
    requires Built(m, path, c, root) && Sound(c) && SlashFree(root)
    requires name in root.policies && name != "" && !IsMeta(c, root.policies[name])
    ensures GetPolicy(m, name).Found?
    ensures HasSatisfied(m, name, sat, ids) <==> HoldsIn(c, root, name, sat, ids)
  {
    hide Flattens, GetPolicy, WellFormed, Evaluated;
    var own :| Holds(m, own, root) && CompiledFrom(own, c, root, m.managers);
    OwnIsKept(m, own, root, name);
    assert CompilesTo(c, root.policies[name], m.managers, own[name]);
  }

  /** Where the provider of a type is the one for signature policies, a policy of that type holds exactly when its
      envelope is of version 0 and in range and its own rule accepts the signers. */
  lemma SignatureHoldsIn(c: Compiler, root: ConfigGroup, name: string, unmarshal: Bytes -> Option<Envelope>,
                         sat: Satisfies, ids: seq<Identity>)
    requires name in root.policies && root.policies[name].policy.Some?
    requires var kind := root.policies[name].policy.value.kind;
             kind != IMPLICIT_META && kind in c.providers &&
             forall data :: c.providers[kind](data) == NewSignaturePolicy(unmarshal, data)
    ensures var env := unmarshal(root.policies[name].policy.value.value);
            HoldsIn(c, root, name, sat, ids) <==>
            && env.Some? && env.value.version == 0
            && InRange(env.value.rule, |env.value.identities|)
            && exists rule :: StandsFor(rule, env.value.rule, env.value.identities) && Accepts(rule, sat, ids)
  {
    var data := root.policies[name].policy.value.value;
    NewSignaturePolicyExact(unmarshal, data);
    var env := unmarshal(data);
    if env.Some? {
      CompileFailsExactly(env.value.rule, env.value.identities);
      forall rule
        ensures Compile(env.value.rule, env.value.identities) == Some(rule) <==>
                StandsFor(rule, env.value.rule, env.value.identities)
      {
        CompileExact(env.value.rule, env.value.identities, rule);
      }
    }
  }

  lemma NotLifted<P>(managers: map<string, Manager<P>>, k: string, g: string, q: string, policy: P)
    requires NoSlash(k)
    ensures !Lifted(managers, k, g, q, policy)
  {
    assert (g + SLASH + q)[|g|] == '/';
  }

  /** A policy that the group itself defines is not shadowed by one of a sub-group. */
  lemma OwnIsKept(m: Manager<Policy>, own: map<string, Policy>, root: ConfigGroup, k: string)
    requires Holds(m, own, root) && k in own && k != "" && NoSlash(k)
    ensures GetPolicy(m, k) == Found(own[k])
  {
    assert k[0] in k;
    forall g, q
      ensures !Lifted(m.managers, k, g, q, m.policies[k])
    {
      NotLifted(m.managers, k, g, q, m.policies[k]);
    }
  }

  lemma OwnPolicyIsFound(m: Manager<Policy>, path: string, c: Compiler, root: ConfigGroup, k: string)
    returns (policy: Policy, order: seq<string>)
    requires Built(m, path, c, root) && SlashFree(root) && k in root.policies && k != "" && IsMeta(c, root.policies[k])
    ensures GetPolicy(m, k) == Found(policy)
    ensures CompilesTo(c, root.policies[k], m.managers, policy)
    ensures MetaOver(policy, Definition(c, root.policies[k]), m.managers, order)
  {
    hide Flattens, GetPolicy, MetaOver;
    var own :| Holds(m, own, root) && CompiledFrom(own, c, root, m.managers);
    policy := own[k];
    OwnIsKept(m, own, root, k);
    order :| MetaOver(policy, Definition(c, root.policies[k]), m.managers, order);
  }
}
