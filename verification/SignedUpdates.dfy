/** From the mod policy of a configuration element to the policy that the configuration itself defines, and to the
    signers who satisfy it (common/configtx/update.go, common/policies/policy.go, common/policies/implicitmeta.go). */
module SignedUpdates {
  import opened Basics
  import opened ConfigTree
  import opened PolicyManager
  import Updates = ConfigUpdate
  import Authority = ConfigAuthority
  import Accepted = AcceptedUpdates
  import Signatures = ConfigSignatures
  import Building = ManagerBuilding
  import P = Policies

  type Validator = Updates.Validator<P.Policy>

  /** The validator and its policy managers are made from one configuration. */
  ghost predicate OneConfig(vi: Validator, c: Building.Compiler) {
    && Updates.Valid(vi)
    && Building.Built(vi.pm, vi.namespace, c, vi.config.channelGroup)
    && Building.Sound(c) && Building.SimpleNames(c, vi.config.channelGroup)
  }

  /** The mod policy of the element refers to the policy of this name in the group at this path: relative to the
      element itself if it is a group, else to the group that holds it, or from the root. */
  ghost predicate Refers(root: string, it: Item, groups: seq<string>, name: string) {
    && name != "" && NoSlash(name) && (forall i | 0 <= i < |groups| :: groups[i] != "" && NoSlash(groups[i]))
    && var near := if it.GroupItem? then it.path + [it.key] else it.path;
       || (exists sub :: [root] + groups == near + sub && it.ModPolicy() == RelativeId(sub, name))
       || it.ModPolicy() == SLASH + root + SLASH + RelativeId(groups, name)
  }

  /** The signature set satisfies the mod policy of an element exactly when the configuration has the group that the
      mod policy refers to, and the policy defined there holds of the identities that signed validly. */
  lemma SatisfiedMeansConfig(vi: Validator, c: Building.Compiler, msp: P.Msp, sds: seq<P.SignedData>, kind: Kind,
                             full: seq<string>, groups: seq<string>, name: string)
    requires OneConfig(vi, c) && Authority.OldAt(vi, kind, full).Some?
    requires Refers(vi.namespace, Authority.OldAt(vi, kind, full).value, groups, name)
    ensures var it := Authority.OldAt(vi, kind, full).value;
            var at := At(vi.namespace, vi.config.channelGroup, GroupKind, [vi.namespace] + groups);
            Accepted.PolicySatisfied(vi.pm, Signatures.SatisfiedBy(msp, sds), it) <==>
            && at.Some?
            && Building.HoldsIn(c, at.value.group, name, msp.satisfies, P.ValidIdentities(msp, sds))
  {
    hide Building.Built, Building.HoldsIn, Building.Sound, Building.SimpleNames, Updates.PolicyForItem, GetPolicy,
         SlashFree, Shaped, SubManager, Below, Refers, ValidKeys;
    var it, root := Authority.OldAt(vi, kind, full).value, vi.config.channelGroup;
    ValidIsSlashFree(root);
    Building.BuiltIsShaped(vi.pm, vi.namespace, c, root);
    OwnerExists(vi, kind, full);
    PolicyOfReference(vi.pm, vi.namespace, root, it, groups, name);
    ReferenceIsSimple(vi.namespace, it, groups, name);
    SatisfiedAt(vi.pm, vi.namespace, c, root, [vi.namespace], groups, name, msp, sds);
    assert ([vi.namespace] + groups)[1..] == groups;
  }

  lemma ReferenceIsSimple(root: string, it: Item, groups: seq<string>, name: string)
    requires Refers(root, it, groups, name)
    ensures name != "" && NoSlash(name)
  {
  }

  /** What the manager of a group finds under a name is satisfied exactly when the group is there and its own policy
      of that name holds. */
  lemma SatisfiedAt(pm: Manager<P.Policy>, path: string, c: Building.Compiler, root: ConfigGroup, at: seq<string>,
                    groups: seq<string>, name: string, msp: P.Msp, sds: seq<P.SignedData>)
    requires Building.Built(pm, path, c, root) && Building.Sound(c) && SlashFree(root) &&
             Building.SimpleNames(c, root)
    requires at != [] && name != "" && NoSlash(name)
    ensures var g := Below(at, root, GroupKind, groups);
            (match SubManager(pm, groups)
             case Some(m) =>
               (match GetPolicy(m, name) case Found(p) => Signatures.SatisfiedBy(msp, sds)(p) case _ => false)
             case None => false) <==>
            g.Some? && Building.HoldsIn(c, g.value.group, name, msp.satisfies, P.ValidIdentities(msp, sds))
  {
    hide Building.Built, Building.HoldsIn, Building.Sound, Building.SimpleNames, GetPolicy, SlashFree, SubManager,
         Below, P.HasSatisfied;
    WalkIsBuilt(pm, path, c, root, at, groups);
    var sub := SubManager(pm, groups);
    if sub.Some? {
      var g := Below(at, root, GroupKind, groups).value.group;
      Building.BuiltMeansConfig(sub.value, sub.value.path, c, g, name, msp.satisfies, P.ValidIdentities(msp, sds));
      SatisfiedIsFound(sub.value, name, msp, sds);
    }
  }

  /** The lookup for an element's mod policy ends in the manager of the group it refers to. */
  lemma PolicyOfReference(pm: Manager<P.Policy>, path: string, root: ConfigGroup, it: Item, groups: seq<string>,
                          name: string)
    requires Shaped(pm, path, root) && SlashFree(root)
    requires it.GroupItem? || (it.path != [] && it.path[0] == path)
    requires it.Full()[0] == path && Refers(path, it, groups, name)
    ensures Updates.PolicyForItem(pm, it) ==
            match SubManager(pm, groups)
            case Some(m) => GetPolicy(m, name)
            case None => Missing
  {
    hide Updates.PolicyForItem, GetPolicy, SlashFree, Shaped, SubManager, RelativeId;
    Updates.PolicyIsFoundAtOwner(pm, it);
    assert name[0] in name;
    var near := if it.GroupItem? then it.path + [it.key] else it.path;
    if sub :| [path] + groups == near + sub && it.ModPolicy() == RelativeId(sub, name) {
      NearAndBelow(path, groups, near, sub);
      RelativeReference(pm, path, root, near[1..], sub, name);
    } else {
      assert groups[..0] == [];
      Updates.WalkNowhere(pm);
      assert it.ModPolicy()[0] == '/';
      AbsoluteIdAgrees(pm, path, root, groups, 0, name);
    }
  }

  lemma NearAndBelow(path: string, groups: seq<string>, near: seq<string>, sub: seq<string>)
    requires near != [] && near[0] == path && [path] + groups == near + sub
    ensures groups == near[1..] + sub
  {
    assert groups == ([path] + groups)[1..];
    assert (near + sub)[1..] == near[1..] + sub;
  }

  lemma OwnerExists(vi: Validator, kind: Kind, full: seq<string>)
    requires Authority.OldAt(vi, kind, full).Some?
    ensures var it := Authority.OldAt(vi, kind, full).value;
            it.Full()[0] == vi.namespace && (it.GroupItem? || (it.path != [] && it.path[0] == vi.namespace))
  {
    var it := Authority.OldAt(vi, kind, full).value;
    assert it.path + [it.key] == full && full[0] == vi.namespace;
    Authority.SingleNameIsRoot(vi.namespace, vi.config.channelGroup, kind);
    assert |full| == 1 ==> full == [vi.namespace];
  }

  lemma RelativeReference(pm: Manager<P.Policy>, path: string, root: ConfigGroup, near: seq<string>, sub: seq<string>,
                          name: string)
    requires Shaped(pm, path, root) && SlashFree(root)
    requires name != "" && NoSlash(name)
    requires forall i | 0 <= i < |near + sub| :: (near + sub)[i] != "" && NoSlash((near + sub)[i])
    ensures var id := RelativeId(sub, name);
            && id != "" && id[0] != '/'
            && (match SubManager(pm, near) case Some(m) => GetPolicy(m, id) case None => Missing) ==
               (match SubManager(pm, near + sub) case Some(m) => GetPolicy(m, name) case None => Missing)
  {
    assert forall i | 0 <= i < |sub| :: sub[i] == (near + sub)[|near| + i];
    StartsWithName(sub, name);
    hide Shaped, SlashFree, SubManager, RelativeId, GetPolicy;
    var all := near + sub;
    assert all[..|near|] == near && all[|near|..] == sub;
    WalkSplits(pm, all, |near|);
    if SubManager(pm, near).Some? {
      var g := SubManagerPath(pm, path, root, near, name);
      var m := SubManager(pm, near).value;
      assert name[0] in name;
      assert forall i | 0 <= i < |sub| :: sub[i] == all[|near| + i];
      FlatMapAgreesWithTree(m, m.path, g, sub, name);
    }
  }

  lemma StartsWithName(sub: seq<string>, name: string)
    requires name != "" && NoSlash(name) && forall i | 0 <= i < |sub| :: sub[i] != "" && NoSlash(sub[i])
    ensures RelativeId(sub, name) != "" && RelativeId(sub, name)[0] != '/'
  {
    if sub == [] {
      assert name[0] in name;
    } else {
      assert RelativeId(sub, name)[0] == sub[0][0] && sub[0][0] in sub[0];
    }
  }

  lemma {:induction false} ValidIsSlashFree(g: ConfigGroup)
    requires ValidKeys(g)
    ensures SlashFree(g)
    decreases g
  {
    hide ValidID;
    forall k | ValidID(k)
      ensures NoSlash(k)
    {
      NameIsSlashFree(k);
    }
    forall k | k in g.groups
      ensures SlashFree(g.groups[k])
    {
      ValidIsSlashFree(g.groups[k]);
    }
  }

  lemma NameIsSlashFree(k: string)
    requires ValidID(k)
    ensures NoSlash(k)
  {
  }

  /** The walk down the managers and the walk down the configuration go together. */
  lemma {:induction false} WalkIsBuilt(m: Manager<P.Policy>, path: string, c: Building.Compiler, root: ConfigGroup,
                                       at: seq<string>, groups: seq<string>)
    requires Building.Built(m, path, c, root) && SlashFree(root) && Building.SimpleNames(c, root) && at != []
    ensures var sub, g := SubManager(m, groups), Below(at, root, GroupKind, groups);
            && (sub.Some? <==> g.Some?)
            && (sub.Some? ==>
                  && Building.Built(sub.value, sub.value.path, c, g.value.group)
                  && SlashFree(g.value.group) && Building.SimpleNames(c, g.value.group))
    decreases |groups|
  {
    hide Building.Built, Building.SimpleNames, SlashFree;
    SameGroups(m, path, c, root);
    if groups != [] && groups[0] in root.groups {
      Building.BuiltBelow(m, path, c, root, groups[0]);
      WalkIsBuilt(m.managers[groups[0]], path + SLASH + groups[0], c, root.groups[groups[0]], at + [groups[0]],
        groups[1..]);
    }
  }

  lemma SameGroups(m: Manager<P.Policy>, path: string, c: Building.Compiler, root: ConfigGroup)
    requires Building.Built(m, path, c, root)
    ensures m.path == path && m.managers.Keys == root.groups.Keys
  {
  }

  /** Evaluating the found policy on the signature set comes to evaluating it on the identities that signed. */
  lemma SatisfiedIsFound(m: Manager<P.Policy>, name: string, msp: P.Msp, sds: seq<P.SignedData>)
    ensures P.HasSatisfied(m, name, msp.satisfies, P.ValidIdentities(msp, sds)) <==>
            match GetPolicy(m, name)
            case Found(p) => Signatures.SatisfiedBy(msp, sds)(p)
            case _ => false
  {
    var r := GetPolicy(m, name);
    if r.Found? && P.WellFormed(r.policy) { P.SignedMeansIdentities(r.policy, msp, sds); }
  }
}
