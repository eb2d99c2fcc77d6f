/** What an accepted update can and cannot do to the configuration tree. */
module ConfigAuthority {
  import opened Basics
  import opened ConfigTree
  import opened ConfigMap
  import opened ConfigUpdate

  /** The element at a place of the current tree. */
  function OldAt<P>(vi: Validator<P>, kind: Kind, full: seq<string>): (r: Option<Item>)
    ensures r.Some? ==> r.value.Kind() == kind && r.value.Full() == full
  {
    At(vi.namespace, vi.config.channelGroup, kind, full)
  }

  /** The element at a place of the tree that the update yields. */
  ghost function NewAt<P>(vi: Validator<P>, sat: P -> bool, u: Update, kind: Kind, full: seq<string>): (r: Option<Item>)
    requires Valid(vi) && Accepted(vi, sat, u)
    ensures r.Some? ==> r.value.Kind() == kind && r.value.Full() == full
  {
    At(vi.namespace, NewTree(vi, sat, u), kind, full)
  }

  /** Does the back-fill of empty mod policies apply to this update? */
  ghost predicate BackFills<P>(vi: Validator<P>, u: Update) { ORDERER_CAPABILITIES in Overlay(vi, u) }

  /** The update carries the next version of an existing element, and the signatures satisfy the
      mod policy that the element has before the update. */
  ghost predicate Bumped<P>(vi: Validator<P>, sat: P -> bool, u: Update, it: Item) {
    var s := Key(it.Kind(), it.Full());
    && s in DeltaOf(vi, u)
    && DeltaOf(vi, u)[s].Version() == Next(it.Version())
    && Authorised(vi.pm, sat, it)
  }

  lemma OldElement<P>(vi: Validator<P>, kind: Kind, full: seq<string>)
    requires Valid(vi) && OldAt(vi, kind, full).Some?
    ensures Key(kind, full) in vi.configMap && vi.configMap[Key(kind, full)] == OldAt(vi, kind, full).value
    ensures ValidPath(full)
  {
    hide Key, ValidID, ValidKeys, IsFlat, Below;
    var root, tree := vi.namespace, vi.config.channelGroup;
    assert full == [root] + full[1..];
    FlatLookup(vi.configMap, [root], tree, kind, full[1..]);
    AtValid(root, tree, kind, full);
  }

  lemma OldEntry<P>(vi: Validator<P>, kind: Kind, full: seq<string>)
    requires Valid(vi) && ValidPath(full) && Key(kind, full) in vi.configMap
    ensures OldAt(vi, kind, full).Some?
  {
    hide Key, ValidID, ValidKeys, IsFlat, Flat;
    var root, tree := vi.namespace, vi.config.channelGroup;
    FlatWellFiled([root], tree);
    KeyedFiles(vi.configMap, kind, full);
    FlatEntry([root], tree, Key(kind, full));
    assert full == [root] + full[1..];
  }

  lemma NewElement<P>(vi: Validator<P>, sat: P -> bool, u: Update, kind: Kind, full: seq<string>)
    requires Valid(vi) && Accepted(vi, sat, u) && NewAt(vi, sat, u, kind, full).Some?
    ensures FiledAt(Overlay(vi, u), kind, full) && ValidPath(full)
    ensures NewAt(vi, sat, u, kind, full).value.Shell() ==
            FillShell(BackFills(vi, u), Overlay(vi, u)[Key(kind, full)].Shell())
  {
    hide Key, ValidID, Rebuild, Closed, Valid, DeltaOk, Delta, ReadSetOk, ListsWithin;
    var root := [vi.namespace];
    OverlayIsClosed(vi, u);
    RootPath(vi.namespace);
    assert full == root + full[1..];
    RebuiltElement(Overlay(vi, u), root, kind, full[1..]);
  }

  /** Whatever an accepted update says it has read is in the current tree at that version. */
  lemma ReadSetIsCurrent<P>(vi: Validator<P>, sat: P -> bool, u: Update, kind: Kind, full: seq<string>)
    requires Valid(vi) && Accepted(vi, sat, u) && u.readSet.Some?
    requires At(vi.namespace, u.readSet.value, kind, full).Some?
    ensures OldAt(vi, kind, full).Some?
    ensures OldAt(vi, kind, full).value.Version() == At(vi.namespace, u.readSet.value, kind, full).value.Version()
  {
    hide Key, ValidID, ValidKeys, IsFlat, Below, DeltaOk, Delta;
    var root, tree := vi.namespace, u.readSet.value;
    assert full == [root] + full[1..];
    FlatLookup(ReadMap(vi, u), [root], tree, kind, full[1..]);
    AtValid(root, tree, kind, full);
    OldEntry(vi, kind, full);
    OldElement(vi, kind, full);
  }

  /** An element that stays keeps its shell, back-fill aside, unless it was bumped with authority. */
  lemma ChangedElementIsAuthorised<P>(vi: Validator<P>, sat: P -> bool, u: Update, kind: Kind, full: seq<string>)
    requires Valid(vi) && Accepted(vi, sat, u)
    requires OldAt(vi, kind, full).Some? && NewAt(vi, sat, u, kind, full).Some?
    ensures var before, after := OldAt(vi, kind, full).value, NewAt(vi, sat, u, kind, full).value;
            if Bumped(vi, sat, u, before) then after.Version() == Next(before.Version())
            else after.Shell() == FillShell(BackFills(vi, u), before.Shell())
  {
    hide Key, Valid, Delta, ValidModPolicy, Authorised, Below, At;
    OldElement(vi, kind, full);
    NewElement(vi, sat, u, kind, full);
    var s := Key(kind, full);
    if s in DeltaOf(vi, u) {
      assert DeltaItemOk(vi.configMap, vi.pm, sat, s, DeltaOf(vi, u)[s]);
    }
  }

  /** An element that is new starts at version 0 and comes with a valid mod policy. */
  lemma NewElementStartsAtZero<P>(vi: Validator<P>, sat: P -> bool, u: Update, kind: Kind, full: seq<string>)
    requires Valid(vi) && Accepted(vi, sat, u)
    requires OldAt(vi, kind, full).None? && NewAt(vi, sat, u, kind, full).Some?
    ensures NewAt(vi, sat, u, kind, full).value.Version() == 0
    ensures Key(kind, full) in DeltaOf(vi, u) && ValidModPolicy(DeltaOf(vi, u)[Key(kind, full)].ModPolicy())
  {
    hide Key, Valid, Delta, ValidModPolicy, Authorised, Below, At;
    NewElement(vi, sat, u, kind, full);
    var s := Key(kind, full);
    if s in vi.configMap { OldEntry(vi, kind, full); }
    assert DeltaItemOk(vi.configMap, vi.pm, sat, s, DeltaOf(vi, u)[s]);
  }

  /** The group at a place is in both trees. */
  ghost predicate GroupInBoth<P>(vi: Validator<P>, sat: P -> bool, u: Update, full: seq<string>)
    requires Valid(vi) && Accepted(vi, sat, u)
  {
    GroupAtBoth(vi.namespace, vi.config.channelGroup, NewTree(vi, sat, u), full)
  }

  lemma RootInBoth<P>(vi: Validator<P>, sat: P -> bool, u: Update)
    requires Valid(vi) && Accepted(vi, sat, u)
    ensures GroupInBoth(vi, sat, u, [vi.namespace])
  {
    hide Valid, Accepted, NewTree;
    assert [vi.namespace][1..] == [];
  }

  /** The back-fill touches neither versions nor children. */
  lemma FilledKeeps(fix: bool, a: Item, b: Item, kind: Kind, k: string)
    requires a.Shell() == FillShell(fix, b.Shell())
    ensures a.Version() == b.Version()
    ensures a.GroupItem? && b.GroupItem? ==> (Lists(a.group, kind, k) <==> Lists(b.group, kind, k))
  {
    hide Fill;
  }

  /** An element that stays keeps its version or moves to the next one. */
  lemma SurvivorVersion<P>(vi: Validator<P>, sat: P -> bool, u: Update, kind: Kind, full: seq<string>)
    requires Valid(vi) && Accepted(vi, sat, u)
    requires OldAt(vi, kind, full).Some? && NewAt(vi, sat, u, kind, full).Some?
    ensures var before, after := OldAt(vi, kind, full).value, NewAt(vi, sat, u, kind, full).value;
            after.Version() == before.Version() || after.Version() == Next(before.Version())
  {
    hide Valid, Accepted, NewTree, Bumped, OldAt, NewAt, FillShell;
    ChangedElementIsAuthorised(vi, sat, u, kind, full);
    if !Bumped(vi, sat, u, OldAt(vi, kind, full).value) {
      FilledKeeps(BackFills(vi, u), NewAt(vi, sat, u, kind, full).value, OldAt(vi, kind, full).value, kind, "");
    }
  }

  /** A group in both trees that lists a child in only one of them was bumped with authority. */
  lemma ListingChangeIsAuthorised<P>(vi: Validator<P>, sat: P -> bool, u: Update, full: seq<string>, kind: Kind,
                                     k: string)
    requires Valid(vi) && Accepted(vi, sat, u) && GroupInBoth(vi, sat, u, full)
    requires ListsAt(vi.namespace, vi.config.channelGroup, full, kind, k) !=
             ListsAt(vi.namespace, NewTree(vi, sat, u), full, kind, k)
    ensures Bumped(vi, sat, u, OldAt(vi, GroupKind, full).value)
  {
    hide Valid, Accepted, NewTree, Bumped, At, FillShell, Lists;
    ChangedElementIsAuthorised(vi, sat, u, GroupKind, full);
    if !Bumped(vi, sat, u, OldAt(vi, GroupKind, full).value) {
      FilledKeeps(BackFills(vi, u), NewAt(vi, sat, u, GroupKind, full).value, OldAt(vi, GroupKind, full).value, kind,
        k);
    }
  }

  /** An element in only one of the trees has its deepest ancestor common to both trees bumped
      with authority. */
  lemma AddedOrRemovedElementIsAuthorised<P>(vi: Validator<P>, sat: P -> bool, u: Update, kind: Kind, full: seq<string>)
    returns (i: nat)
    requires Valid(vi) && Accepted(vi, sat, u)
    requires OldAt(vi, kind, full).Some? != NewAt(vi, sat, u, kind, full).Some?
    ensures 0 < i < |full|
    ensures GroupInBoth(vi, sat, u, full[..i])
    ensures forall j | i < j < |full| :: !GroupInBoth(vi, sat, u, full[..j])
    ensures Bumped(vi, sat, u, OldAt(vi, GroupKind, full[..i]).value)
  {
    hide Valid, Accepted, NewTree, Bumped, Below, GroupInBoth;
    RootInBoth(vi, sat, u);
    assert |full| > 0 && full[0] == vi.namespace;
    assert full[..1] == [vi.namespace];
    assert |full| > 1 by {
      SingleNameIsRoot(vi.namespace, vi.config.channelGroup, kind);
      SingleNameIsRoot(vi.namespace, NewTree(vi, sat, u), kind);
      assert |full| == 1 ==> full == [vi.namespace];
    }
    i := FindDeepest(vi, sat, u, full, |full| - 1);
    DeepestCommonAncestor(vi, sat, u, kind, full, i);
  }

  lemma {:induction false} FindDeepest<P>(vi: Validator<P>, sat: P -> bool, u: Update, full: seq<string>, n: nat)
    returns (i: nat)
    requires Valid(vi) && Accepted(vi, sat, u)
    requires 0 < n < |full| && GroupInBoth(vi, sat, u, full[..1])
    requires forall j | n < j < |full| :: !GroupInBoth(vi, sat, u, full[..j])
    ensures 0 < i < |full| && GroupInBoth(vi, sat, u, full[..i])
    ensures forall j | i < j < |full| :: !GroupInBoth(vi, sat, u, full[..j])
    decreases n
  {
    hide Valid, Accepted, GroupInBoth;
    if GroupInBoth(vi, sat, u, full[..n]) {
      i := n;
    } else {
      i := FindDeepest(vi, sat, u, full, n - 1);
    }
  }

  lemma SingleNameIsRoot(root: string, g: ConfigGroup, kind: Kind)
    ensures At(root, g, kind, [root]).Some? <==> kind.GroupKind?
  {
    assert [root][1..] == [];
  }

  lemma DeepestCommonAncestor<P>(vi: Validator<P>, sat: P -> bool, u: Update, kind: Kind, full: seq<string>, i: nat)
    requires Valid(vi) && Accepted(vi, sat, u)
    requires OldAt(vi, kind, full).Some? != NewAt(vi, sat, u, kind, full).Some?
    requires 0 < i < |full| && GroupInBoth(vi, sat, u, full[..i])
    requires forall j | i < j < |full| :: !GroupInBoth(vi, sat, u, full[..j])
    ensures GroupInBoth(vi, sat, u, full[..i]) && Bumped(vi, sat, u, OldAt(vi, GroupKind, full[..i]).value)
  {
    hide Valid, Accepted, NewTree, Bumped, At, ListsAt, GroupAtBoth;
    DeepestListsDiffer(vi.namespace, vi.config.channelGroup, NewTree(vi, sat, u), kind, full, i);
    ListingChangeIsAuthorised(vi, sat, u, full[..i], if i + 1 == |full| then kind else GroupKind, full[i]);
  }

  /** An update that does more to the tree than the back-fill bumps, with authority, some element
      that is in the tree both before and after. */
  lemma ChangeBumpsASurvivor<P>(vi: Validator<P>, sat: P -> bool, u: Update) returns (kind: Kind, full: seq<string>)
    requires Valid(vi) && Accepted(vi, sat, u)
    requires NewTree(vi, sat, u) != BackFill(BackFills(vi, u), vi.config.channelGroup)
    ensures OldAt(vi, kind, full).Some? && NewAt(vi, sat, u, kind, full).Some?
    ensures Bumped(vi, sat, u, OldAt(vi, kind, full).value)
  {
    hide Bumped, NewTree, Valid, Accepted, BackFill;
    kind, full := SomeOldElementInDelta(vi, sat, u);
    if NewAt(vi, sat, u, kind, full).None? {
      var i := AddedOrRemovedElementIsAuthorised(vi, sat, u, kind, full);
      kind, full := GroupKind, full[..i];
    }
  }

  lemma SomeOldElementInDelta<P>(vi: Validator<P>, sat: P -> bool, u: Update) returns (kind: Kind, full: seq<string>)
    requires Valid(vi) && Accepted(vi, sat, u)
    requires NewTree(vi, sat, u) != BackFill(BackFills(vi, u), vi.config.channelGroup)
    ensures OldAt(vi, kind, full).Some?
    ensures Bumped(vi, sat, u, OldAt(vi, kind, full).value)
  {
    hide Key, Closed, Rebuild, BackFill, ValidModPolicy, Authorised, Valid, Delta;
    var root, tree, m := [vi.namespace], vi.config.channelGroup, Overlay(vi, u);
    OverlayIsClosed(vi, u);
    RootPath(vi.namespace);
    if HoldsTree(m, root, tree) {
      RebuildOfTree(m, root, tree);
      assert false;
    }
    var rel;
    kind, rel :| Below(root, tree, kind, rel).Some? &&
      !(FiledAt(m, kind, root + rel) && m[Key(kind, root + rel)] == Below(root, tree, kind, rel).value);
    full := root + rel;
    assert full[1..] == rel;
    OldElement(vi, kind, full);
    var s := Key(kind, full);
    KeyedFiles(m, kind, full);
    assert s in DeltaOf(vi, u);
    assert DeltaItemOk(vi.configMap, vi.pm, sat, s, DeltaOf(vi, u)[s]);
  }

  /** The new tree has valid names throughout, so the next validator can be built on it. */
  lemma NewTreeIsValid<P>(vi: Validator<P>, sat: P -> bool, u: Update)
    requires Valid(vi) && Accepted(vi, sat, u)
    ensures ValidKeys(NewTree(vi, sat, u))
  {
    hide Closed, Rebuild, ValidKeys, Keyed, ListsWithin, ReadSetOk, DeltaOk, Delta, ValidTree;
    OverlayIsClosed(vi, u);
    RootPath(vi.namespace);
    RebuiltIsValid(Overlay(vi, u), [vi.namespace]);
  }

  lemma {:induction false} RebuiltIsValid(m: FlatMap, path: seq<string>)
    requires path != [] && Closed(m) && Keyed(m) && ListsWithin(m, m.Keys) && FiledAt(m, GroupKind, path)
    ensures Rebuild(PathString(path), m).Some? && ValidKeys(Rebuild(PathString(path), m).value)
    decreases LongKeys(m, |PathString(path)| + 9)
  {
    hide LongKeys, Closed, Rebuild, Key, PathString, ValidID, FillValue, FillPolicy, Fill, ListsWithin, Keyed;
    RebuiltGroup(m, path);
    FindFiled(m, GroupKind, path);
    LongerPath(PathString(path), m);
    var g, g' := m[Key(GroupKind, path)].group, Rebuild(PathString(path), m).value;
    ListedNamesAreValid(m, path);
    forall k | k in g.groups
      ensures ValidKeys(g'.groups[k])
    {
      PathStringSnoc(path, k);
      RebuiltIsValid(m, path + [k]);
    }
  }

  lemma ListedNamesAreValid(m: FlatMap, path: seq<string>)
    requires path != [] && ListsWithin(m, m.Keys) && FiledAt(m, GroupKind, path)
    ensures var g := m[Key(GroupKind, path)].group;
            forall k | k in g.groups || k in g.values || k in g.policies :: ValidID(k)
  {
    hide Key, ValidID;
    var g := m[Key(GroupKind, path)].group;
    assert forall k | k in g.groups :: Lists(g, GroupKind, k);
    assert forall k | k in g.values :: Lists(g, ValueKind, k);
    assert forall k | k in g.policies :: Lists(g, PolicyKind, k);
  }
}
