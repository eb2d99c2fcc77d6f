/** Authorising a configuration update and computing its result
    (common/configtx/update.go, common/configtx/validator.go). */
module ConfigUpdate {
  import opened Basics
  import opened ConfigTree
  import opened ConfigMap
  import opened PolicyManager

  datatype Config = Config(sequence: Uint64, channelGroup: ConfigGroup)

  datatype Update = Update(channelId: string, readSet: Option<ConfigGroup>, writeSet: Option<ConfigGroup>)

  datatype Validator<P> = Validator(
    channelId: string,
    config: Config,
    configMap: FlatMap,
    namespace: string,
    pm: Manager<P>)

  /** `ValidateChannelID`. */
  predicate ValidChannelID(id: string) {
    && 0 < |id| <= MAX_LENGTH
    && 'a' <= id[0] <= 'z'
    && forall i | 0 <= i < |id| :: 'a' <= id[i] <= 'z' || '0' <= id[i] <= '9' || id[i] == '.' || id[i] == '-'
  }

  /** A validator whose map is the flat map of its configuration. */
  ghost predicate Valid<P>(vi: Validator<P>) {
    && ValidID(vi.namespace) && ValidKeys(vi.config.channelGroup)
    && vi.configMap == Flat([vi.namespace], vi.config.channelGroup)
  }

  /** `NewValidatorImpl`. */
  method NewValidatorImpl<P>(channelId: string, config: Config, namespace: string, pm: Manager<P>)
    returns (r: Option<Validator<P>>)
    ensures r.Some? <==> ValidChannelID(channelId) && ValidID(namespace) && ValidKeys(config.channelGroup)
    ensures r.Some? ==>
      Valid(r.value) && r.value.config == config && r.value.channelId == channelId &&
      r.value.namespace == namespace && r.value.pm == pm
  {
    if !ValidChannelID(channelId) { return None; }
    var m := MapConfig(Some(config.channelGroup), namespace);
    if m.Err? { return None; }
    return Some(Validator(channelId, config, m.value, namespace, pm));
  }

  /** `policyForItem`. */
  function PolicyForItem<P>(pm: Manager<P>, it: Item): Lookup<P> {
    var modPolicy := it.ModPolicy();
    if |modPolicy| > 0 && modPolicy[0] != '/' && |it.path| != 0 then
      var at := SubManager(pm, it.path[1..]);
      if at.None? then Missing
      else
        var owner := if it.GroupItem? then SubManager(at.value, [it.key]) else at;
        if owner.None? then Missing else GetPolicy(owner.value, modPolicy)
    else GetPolicy(pm, modPolicy)
  }

  /** The group whose manager answers for an element's relative mod policy: a group itself, or the group
      that holds a value or policy. */
  function Owner(it: Item): seq<string> { if it.GroupItem? then it.Full() else it.path }

  lemma {:induction false} WalkAppend<P>(m: Manager<P>, path: seq<string>, k: string)
    ensures SubManager(m, path + [k]) ==
            match SubManager(m, path) case Some(sub) => SubManager(sub, [k]) case None => None
    decreases |path|
  {
    var all := path + [k];
    if path == [] {
      assert all == [k];
    } else {
      assert all[0] == path[0] && all[1..] == path[1..] + [k];
      if path[0] in m.managers { WalkAppend(m.managers[path[0]], path[1..], k); }
    }
  }

  /** A relative mod policy is looked up by the manager of the owning group, an absolute one by the
      root manager. */
  lemma PolicyIsFoundAtOwner<P>(pm: Manager<P>, it: Item)
    requires it.GroupItem? || it.path != []
    ensures PolicyForItem(pm, it) ==
            if it.ModPolicy() != "" && it.ModPolicy()[0] == '/' then GetPolicy(pm, it.ModPolicy())
            else match SubManager(pm, Owner(it)[1..])
                 case Some(m) => GetPolicy(m, it.ModPolicy())
                 case None => Missing
  {
    hide GetPolicy;
    if it.GroupItem? && it.path != [] {
      assert Owner(it)[1..] == it.path[1..] + [it.key];
      WalkAppend(pm, it.path[1..], it.key);
    } else if it.GroupItem? {
      assert Owner(it)[1..] == [];
    }
    EmptyIdIsMissing(pm, Owner(it)[1..]);
  }

  lemma EmptyIdIsMissing<P>(pm: Manager<P>, path: seq<string>)
    ensures GetPolicy(pm, "") == Missing
    ensures SubManager(pm, path).Some? ==> GetPolicy(SubManager(pm, path).value, "") == Missing
  {
  }

  /** In a manager tree of a configuration, a relative mod policy names the same policy as the absolute id
      through the owning group, or both name none. */
  lemma RelativeMeansAbsolute<P(!new)>(pm: Manager<P>, root: ConfigGroup, it: Item)
    requires Shaped(pm, pm.path, root) && SlashFree(root)
    requires (it.GroupItem? || it.path != []) && it.ModPolicy() != "" && it.ModPolicy()[0] != '/'
    requires forall j | 0 <= j < |Owner(it)| :: NoSlash(Owner(it)[j])
    ensures PolicyForItem(pm, it) ==
            GetPolicy(pm, SLASH + pm.path + SLASH + RelativeId(Owner(it)[1..], it.ModPolicy()))
  {
    hide Shaped, SlashFree, GetPolicy, PolicyForItem, RelativeId, SubManager;
    PolicyIsFoundAtOwner(pm, it);
    var groups := Owner(it)[1..];
    assert groups[..0] == [];
    WalkNowhere(pm);
    AbsoluteIdAgrees(pm, pm.path, root, groups, 0, it.ModPolicy());
  }

  lemma WalkNowhere<P>(pm: Manager<P>)
    ensures SubManager(pm, []) == Some(pm)
  {
  }

  /** The element's existing mod policy is found and satisfied by the signatures at hand. */
  predicate Authorised<P>(pm: Manager<P>, sat: P -> bool, it: Item) {
    var p := PolicyForItem(pm, it);
    p.Found? && sat(p.policy)
  }

  /** Every element of the read set is configured, at the version it was read at. */
  predicate ReadSetOk(configMap: FlatMap, readSet: FlatMap) {
    forall s | s in readSet :: s in configMap && configMap[s].Version() == readSet[s].Version()
  }

  /** `verifyReadSet`. */
  method VerifyReadSet(configMap: FlatMap, readSet: FlatMap) returns (ok: bool)
    ensures ok <==> ReadSetOk(configMap, readSet)
  {
    var todo := readSet.Keys;
    while todo != {}
      invariant todo <= readSet.Keys
      invariant forall s | s in readSet.Keys - todo :: s in configMap && configMap[s].Version() == readSet[s].Version()
      decreases todo
    {
      var s :| s in todo;
      todo := todo - {s};
      if s !in configMap || configMap[s].Version() != readSet[s].Version() { return false; }
    }
    return true;
  }

  /** The write-set elements that the read set does not hold at the same version. */
  function Delta(readSet: FlatMap, writeSet: FlatMap): FlatMap {
    map s | s in writeSet && !(s in readSet && readSet[s].Version() == writeSet[s].Version()) :: writeSet[s]
  }

  /** `computeDeltaSet`. */
  method ComputeDeltaSet(readSet: FlatMap, writeSet: FlatMap) returns (result: FlatMap)
    ensures result == Delta(readSet, writeSet)
  {
    result := map[];
    var todo := writeSet.Keys;
    while todo != {}
      invariant todo <= writeSet.Keys
      invariant result == map s | s in Delta(readSet, writeSet) && s !in todo :: writeSet[s]
      decreases todo
    {
      var s :| s in todo;
      todo := todo - {s};
      if s in readSet && readSet[s].Version() == writeSet[s].Version() { continue; }
      result := result[s := writeSet[s]];
    }
  }

  /** One iteration of `verifyDeltaSet`: a new element starts at version 0; an existing one moves to
      the next version, and only when its existing mod policy is satisfied. */
  predicate DeltaItemOk<P>(configMap: FlatMap, pm: Manager<P>, sat: P -> bool, s: string, it: Item) {
    && ValidModPolicy(it.ModPolicy())
    && if s !in configMap then it.Version() == 0
       else it.Version() == Next(configMap[s].Version()) && Authorised(pm, sat, configMap[s])
  }

  /** There is a change, and every change is allowed. */
  predicate DeltaOk<P>(configMap: FlatMap, pm: Manager<P>, sat: P -> bool, delta: FlatMap) {
    |delta| != 0 && forall s | s in delta :: DeltaItemOk(configMap, pm, sat, s, delta[s])
  }

  /** The change passes every test before the lookup of the existing mod policy, which panics. */
  predicate DeltaItemPanics<P>(configMap: FlatMap, pm: Manager<P>, s: string, it: Item) {
    && ValidModPolicy(it.ModPolicy())
    && s in configMap && it.Version() == Next(configMap[s].Version())
    && PolicyForItem(pm, configMap[s]).Panics?
  }

  predicate DeltaPanics<P>(configMap: FlatMap, pm: Manager<P>, delta: FlatMap) {
    exists s | s in delta :: DeltaItemPanics(configMap, pm, s, delta[s])
  }

  /** There is no change, or one of them is not allowed. */
  predicate DeltaFails<P>(configMap: FlatMap, pm: Manager<P>, sat: P -> bool, delta: FlatMap) {
    || |delta| == 0
    || exists s | s in delta ::
         !DeltaItemOk(configMap, pm, sat, s, delta[s]) && !DeltaItemPanics(configMap, pm, s, delta[s])
  }

  /** How a check ends. */
  datatype Check = Passed | Failed | Panicked

  /** `verifyDeltaSet`. When some changes fail and others panic, the order of the loop decides. */
  method VerifyDeltaSet<P>(configMap: FlatMap, pm: Manager<P>, sat: P -> bool, delta: FlatMap) returns (r: Check)
    ensures r.Passed? <==> DeltaOk(configMap, pm, sat, delta)
    ensures r.Failed? ==> DeltaFails(configMap, pm, sat, delta)
    ensures r.Panicked? ==> DeltaPanics(configMap, pm, delta)
  {
    hide ValidModPolicy, PolicyForItem;
    if |delta| == 0 { return Failed; }
    var todo := delta.Keys;
    while todo != {}
      invariant todo <= delta.Keys
      invariant forall s | s in delta.Keys - todo :: DeltaItemOk(configMap, pm, sat, s, delta[s])
      decreases todo
    {
      var s :| s in todo;
      todo := todo - {s};
      var it := delta[s];
      if !ValidModPolicy(it.ModPolicy()) { return Failed; }
      if s !in configMap {
        if it.Version() != 0 { return Failed; }
        continue;
      }
      if it.Version() != Next(configMap[s].Version()) { return Failed; }
      var policy := PolicyForItem(pm, configMap[s]);
      if policy.Panics? {
        assert DeltaItemPanics(configMap, pm, s, delta[s]);
        return Panicked;
      }
      if policy.Missing? || !sat(policy.policy) { return Failed; }
    }
    return Passed;
  }

  /** `verifyFullProposedConfig`. */
  predicate FullConfigOk(writeSet: FlatMap, full: FlatMap) {
    forall s | s in writeSet :: s in full
  }

  /** `computeUpdateResult`. */
  method ComputeUpdateResult(configMap: FlatMap, delta: FlatMap) returns (result: FlatMap)
    ensures result == configMap + delta
  {
    result := CopyInto(map[], configMap);
    result := CopyInto(result, delta);
  }

  method CopyInto(base: FlatMap, m: FlatMap) returns (result: FlatMap)
    ensures result == base + m
  {
    result := base;
    var todo := m.Keys;
    while todo != {}
      invariant todo <= m.Keys
      invariant result == base + map s | s in m && s !in todo :: m[s]
      decreases todo
    {
      var s :| s in todo;
      todo, result := todo - {s}, result[s := m[s]];
    }
  }

  // ----- The outcome of a proposal -----

  ghost function ReadMap<P>(vi: Validator<P>, u: Update): FlatMap { FlatTree(u.readSet, vi.namespace) }

  ghost function WriteMap<P>(vi: Validator<P>, u: Update): FlatMap { FlatTree(u.writeSet, vi.namespace) }

  ghost function DeltaOf<P>(vi: Validator<P>, u: Update): FlatMap { Delta(ReadMap(vi, u), WriteMap(vi, u)) }

  /** The old configuration map with the delta laid over it. */
  ghost function Overlay<P>(vi: Validator<P>, u: Update): FlatMap { vi.configMap + DeltaOf(vi, u) }

  /** The checks up to and including `verifyDeltaSet` pass. */
  ghost predicate Accepted<P>(vi: Validator<P>, sat: P -> bool, u: Update) {
    && u.channelId == vi.channelId
    && ValidTree(u.readSet, vi.namespace)
    && ReadSetOk(vi.configMap, ReadMap(vi, u))
    && ValidTree(u.writeSet, vi.namespace)
    && DeltaOk(vi.configMap, vi.pm, sat, DeltaOf(vi, u))
  }

  datatype Rejection = WrongChannel | BadReadSet | BadWriteSet | BadDeltaSet | LookupPanics

  /** Why an update can be turned away, in the order of `authorizeUpdate`; the checks after `verifyDeltaSet`
      are not among the reasons because they cannot fail. */
  ghost predicate RejectedFor<P>(vi: Validator<P>, sat: P -> bool, u: Update, reason: Rejection) {
    if u.channelId != vi.channelId then reason == WrongChannel
    else if !(ValidTree(u.readSet, vi.namespace) && ReadSetOk(vi.configMap, ReadMap(vi, u))) then reason == BadReadSet
    else if !ValidTree(u.writeSet, vi.namespace) then reason == BadWriteSet
    else
      || (reason == BadDeltaSet && DeltaFails(vi.configMap, vi.pm, sat, DeltaOf(vi, u)))
      || (reason == LookupPanics && DeltaPanics(vi.configMap, vi.pm, DeltaOf(vi, u)))
  }

  /** `authorizeUpdate`. */
  method AuthorizeUpdate<P>(vi: Validator<P>, sat: P -> bool, u: Update) returns (r: Result<FlatMap, Rejection>)
    requires Valid(vi)
    ensures r.Ok? <==> Accepted(vi, sat, u)
    ensures r.Ok? ==> r.value == Overlay(vi, u)
    ensures r.Err? ==> RejectedFor(vi, sat, u, r.error)
  {
    hide ValidTree, DeltaOk, DeltaFails, DeltaPanics, ReadSetOk, FlatTree, Valid, Flat;
    if u.channelId != vi.channelId { return Err(WrongChannel); }
    var readSet := MapConfig(u.readSet, vi.namespace);
    if readSet.Err? { return Err(BadReadSet); }
    var ok := VerifyReadSet(vi.configMap, readSet.value);
    if !ok { return Err(BadReadSet); }
    var writeSet := MapConfig(u.writeSet, vi.namespace);
    if writeSet.Err? { return Err(BadWriteSet); }
    var delta := ComputeDeltaSet(readSet.value, writeSet.value);
    var check := VerifyDeltaSet(vi.configMap, vi.pm, sat, delta);
    if check.Failed? { return Err(BadDeltaSet); }
    if check.Panicked? { return Err(LookupPanics); }
    var full := ComputeUpdateResult(vi.configMap, delta);
    WriteSetWithinOverlay(vi, u);
    if !FullConfigOk(writeSet.value, full) { assert false; }
    return Ok(full);
  }

  /** Once the read set matches the configuration, `verifyFullProposedConfig` cannot fail. */
  lemma WriteSetWithinOverlay<P>(vi: Validator<P>, u: Update)
    requires ReadSetOk(vi.configMap, ReadMap(vi, u))
    ensures FullConfigOk(WriteMap(vi, u), Overlay(vi, u))
  {
  }

  /** The overlay is closed under listed children, so rebuilding it cannot fail. */
  lemma OverlayIsClosed<P>(vi: Validator<P>, u: Update)
    requires Valid(vi)
    requires ValidTree(u.readSet, vi.namespace) && ValidTree(u.writeSet, vi.namespace)
    requires ReadSetOk(vi.configMap, ReadMap(vi, u))
    ensures Keyed(Overlay(vi, u)) && ListsWithin(Overlay(vi, u), Overlay(vi, u).Keys)
    ensures Closed(Overlay(vi, u)) && FiledAt(Overlay(vi, u), GroupKind, [vi.namespace])
  {
    hide Key, Flat, IsFlat, Closed, ValidID, ValidKeys;
    var root, base, writes, full := [vi.namespace], vi.configMap, WriteMap(vi, u), Overlay(vi, u);
    FlatWellFiled(root, vi.config.channelGroup);
    if u.writeSet.Some? { FlatWellFiled(root, u.writeSet.value); }
    WriteSetWithinOverlay(vi, u);
    OverlayLists(base, writes, full);
    KeyedListsClosed(full);
    FlatLookup(base, root, vi.config.channelGroup, GroupKind, []);
    assert root + [] == root;
    KeyedFiles(full, GroupKind, root);
  }

  lemma OverlayLists(base: FlatMap, writes: FlatMap, full: FlatMap)
    requires Keyed(base) && ListsWithin(base, base.Keys) && Keyed(writes) && ListsWithin(writes, writes.Keys)
    requires base.Keys <= full.Keys && writes.Keys <= full.Keys
    requires forall s | s in full :: (s in base && full[s] == base[s]) || (s in writes && full[s] == writes[s])
    ensures Keyed(full) && ListsWithin(full, full.Keys)
  {
    hide Key, ValidID;
    forall s, kind, k | s in full && full[s].GroupItem? && Lists(full[s].group, kind, k)
      ensures ValidID(k) && Key(kind, full[s].Full() + [k]) in full
    {
      if s in base && full[s] == base[s] {
        assert Key(kind, base[s].Full() + [k]) in base.Keys;
      } else {
        assert Key(kind, writes[s].Full() + [k]) in writes.Keys;
      }
    }
  }

  /** Once `verifyReadSet` and the mapping of the write set pass, neither `verifyFullProposedConfig`
      nor the rebuilding of the tree can fail. */
  lemma ResultExists<P>(vi: Validator<P>, u: Update)
    requires Valid(vi)
    requires ValidTree(u.readSet, vi.namespace) && ValidTree(u.writeSet, vi.namespace)
    requires ReadSetOk(vi.configMap, ReadMap(vi, u))
    ensures FullConfigOk(WriteMap(vi, u), Overlay(vi, u))
    ensures ConfigMapToConfig(Overlay(vi, u), vi.namespace).Some?
  {
    hide Closed, Rebuild, Keyed, ListsWithin, ValidTree, ReadSetOk, FlatTree, FiledAt;
    WriteSetWithinOverlay(vi, u);
    OverlayIsClosed(vi, u);
    ClosedRebuilds(Overlay(vi, u), [vi.namespace]);
    RootPath(vi.namespace);
  }

  /** The tree that an accepted update yields. */
  ghost function NewTree<P>(vi: Validator<P>, sat: P -> bool, u: Update): (tree: ConfigGroup)
    requires Valid(vi) && Accepted(vi, sat, u)
    ensures ConfigMapToConfig(Overlay(vi, u), vi.namespace) == Some(tree)
  {
    ResultExists(vi, u);
    ConfigMapToConfig(Overlay(vi, u), vi.namespace).value
  }

  /** What `proposeConfigUpdate` returns for an accepted update. */
  ghost function Outcome<P>(vi: Validator<P>, sat: P -> bool, u: Update): Config
    requires Valid(vi) && Accepted(vi, sat, u)
  {
    Config(Next(vi.config.sequence), NewTree(vi, sat, u))
  }

  /** `proposeConfigUpdate`. */
  method ProposeConfigUpdate<P>(vi: Validator<P>, sat: P -> bool, u: Update) returns (r: Result<Config, Rejection>)
    requires Valid(vi)
    ensures r.Ok? <==> Accepted(vi, sat, u)
    ensures r.Ok? ==> r.value == Outcome(vi, sat, u)
    ensures r.Err? ==> RejectedFor(vi, sat, u, r.error)
  {
    hide Accepted, Valid, Rebuild, RejectedFor;
    var full := AuthorizeUpdate(vi, sat, u);
    if full.Err? { return Err(full.error); }
    var tree := RecurseConfigMap(SLASH + vi.namespace, full.value);
    assert tree == Some(NewTree(vi, sat, u));
    return Ok(Config(Next(vi.config.sequence), tree.value));
  }

  /** `Validate`: exactly the configurations that the recorded update produces pass. */
  method Validate<P>(vi: Validator<P>, sat: P -> bool, config: Config, lastUpdate: Update) returns (r: Check)
    requires Valid(vi)
    ensures r.Passed? <==> Accepted(vi, sat, lastUpdate) && config == Outcome(vi, sat, lastUpdate)
    ensures r.Panicked? ==>
              config.sequence == Next(vi.config.sequence) && RejectedFor(vi, sat, lastUpdate, LookupPanics)
  {
    hide Accepted, Valid, Rebuild, RejectedFor;
    if config.sequence != Next(vi.config.sequence) { return Failed; }
    var full := AuthorizeUpdate(vi, sat, lastUpdate);
    if full.Err? { return if full.error == LookupPanics then Panicked else Failed; }
    var tree := RecurseConfigMap(SLASH + vi.namespace, full.value);
    assert tree == Some(NewTree(vi, sat, lastUpdate));
    return if tree.value == config.channelGroup then Passed else Failed;
  }
}
