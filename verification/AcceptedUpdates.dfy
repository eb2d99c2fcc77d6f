/** Which configuration updates are accepted, and what tree they yield, element by element over the trees
    involved (common/configtx/update.go). */
module AcceptedUpdates {
  import opened Basics
  import opened ConfigTree
  import opened ConfigMap
  import opened PolicyManager
  import opened ConfigUpdate
  import opened ConfigAuthority
  import opened RebuiltTree

  /** The element at a place of an optional tree. */
  function In(tree: Option<ConfigGroup>, root: string, kind: Kind, full: seq<string>): (r: Option<Item>)
    ensures r.Some? ==> r.value.Kind() == kind && r.value.Full() == full
  {
    if tree.None? then None else At(root, tree.value, kind, full)
  }

  function ReadAt<P>(vi: Validator<P>, u: Update, kind: Kind, full: seq<string>): Option<Item> {
    In(u.readSet, vi.namespace, kind, full)
  }

  function WrittenAt<P>(vi: Validator<P>, u: Update, kind: Kind, full: seq<string>): Option<Item> {
    In(u.writeSet, vi.namespace, kind, full)
  }

  /** The write set has an element here that the read set does not have at the same version. */
  predicate Changes<P>(vi: Validator<P>, u: Update, kind: Kind, full: seq<string>) {
    var read, written := ReadAt(vi, u, kind, full), WrittenAt(vi, u, kind, full);
    written.Some? && (read.None? || read.value.Version() != written.value.Version())
  }

  /** The signatures satisfy the policy that the element has for its modification. */
  predicate PolicySatisfied<P>(pm: Manager<P>, sat: P -> bool, it: Item) {
    match PolicyForItem(pm, it)
    case Found(p) => sat(p)
    case _ => false
  }

  /** A new element of any kind starts at version 0; an existing one goes to the next version, under its existing
      mod policy. The mod policy that is written is a valid one in either case. */
  predicate Allowed<P>(vi: Validator<P>, sat: P -> bool, written: Item, before: Option<Item>) {
    && ValidModPolicy(written.ModPolicy())
    && match before
       case None => written.Version() == 0
       case Some(it) =>
         && written.Version() == (if it.Version() == 0xFFFF_FFFF_FFFF_FFFF then 0 else it.Version() + 1)
         && PolicySatisfied(vi.pm, sat, it)
  }

  predicate ReadIsCurrent<P>(vi: Validator<P>, u: Update, kind: Kind, full: seq<string>) {
    var read, before := ReadAt(vi, u, kind, full), OldAt(vi, kind, full);
    read.Some? ==> before.Some? && before.value.Version() == read.value.Version()
  }

  predicate ChangeAllowed<P>(vi: Validator<P>, sat: P -> bool, u: Update, kind: Kind, full: seq<string>) {
    Changes(vi, u, kind, full) ==> Allowed(vi, sat, WrittenAt(vi, u, kind, full).value, OldAt(vi, kind, full))
  }

  /** An update is accepted exactly when it is for this channel and names its elements legally, everything it has
      read is current, it changes something, and every change is allowed. */
  lemma AcceptedExactly<P>(vi: Validator<P>, sat: P -> bool, u: Update)
    requires Valid(vi)
    ensures Accepted(vi, sat, u) <==>
            && u.channelId == vi.channelId
            && ValidTree(u.readSet, vi.namespace) && ValidTree(u.writeSet, vi.namespace)
            && (forall kind, full :: ReadIsCurrent(vi, u, kind, full))
            && (exists kind, full :: Changes(vi, u, kind, full))
            && (forall kind, full :: ChangeAllowed(vi, sat, u, kind, full))
  {
    hide Valid, ValidTree, ReadSetOk, DeltaOk, Delta, ReadIsCurrent, Changes, ChangeAllowed;
    if ValidTree(u.readSet, vi.namespace) && ValidTree(u.writeSet, vi.namespace) {
      ReadSetExactly(vi, u);
      DeltaExactly(vi, sat, u);
    }
  }

  // ----- Entries of the flat map of an optional tree -----

  lemma TreeEntry(tree: Option<ConfigGroup>, root: string, kind: Kind, full: seq<string>)
    requires ValidTree(tree, root) && In(tree, root, kind, full).Some?
    ensures ValidPath(full) && Key(kind, full) in FlatTree(tree, root)
    ensures FlatTree(tree, root)[Key(kind, full)] == In(tree, root, kind, full).value
  {
    hide Key, ValidID, ValidKeys, IsFlat, Below, Flat;
    assert full == [root] + full[1..];
    FlatLookup(Flat([root], tree.value), [root], tree.value, kind, full[1..]);
    AtValid(root, tree.value, kind, full);
  }

  lemma MapEntry(tree: Option<ConfigGroup>, root: string, s: string)
    requires ValidTree(tree, root) && s in FlatTree(tree, root)
    ensures var it := FlatTree(tree, root)[s];
            && s == Key(it.Kind(), it.Full()) && ValidPath(it.Full())
            && In(tree, root, it.Kind(), it.Full()) == Some(it)
  {
    hide Key, ValidID, ValidKeys, IsFlat, Below, Flat;
    var it := FlatTree(tree, root)[s];
    FlatEntry([root], tree.value, s);
    assert it.Full() == [root] + it.Full()[1..];
    AtValid(root, tree.value, it.Kind(), it.Full());
  }

  /** An element is in the flat map exactly when it is in the tree. */
  lemma EntryAt(tree: Option<ConfigGroup>, root: string, kind: Kind, full: seq<string>)
    requires ValidTree(tree, root) && ValidPath(full)
    ensures Key(kind, full) in FlatTree(tree, root) <==> In(tree, root, kind, full).Some?
    ensures In(tree, root, kind, full).Some? ==>
              FlatTree(tree, root)[Key(kind, full)] == In(tree, root, kind, full).value
  {
    hide Key, ValidID, FlatTree, In, ValidTree;
    var s := Key(kind, full);
    if s in FlatTree(tree, root) {
      MapEntry(tree, root, s);
      var it := FlatTree(tree, root)[s];
      KeyInjective(kind, full, it.Kind(), it.Full());
    }
    if In(tree, root, kind, full).Some? { TreeEntry(tree, root, kind, full); }
  }

  lemma CurrentMap<P>(vi: Validator<P>)
    requires Valid(vi)
    ensures var tree := Some(vi.config.channelGroup);
            && ValidTree(tree, vi.namespace) && vi.configMap == FlatTree(tree, vi.namespace)
            && forall kind, full :: OldAt(vi, kind, full) == In(tree, vi.namespace, kind, full)
  {
    hide ValidID, ValidKeys, Flat, At;
  }

  // ----- The read set -----

  lemma ReadSetExactly<P>(vi: Validator<P>, u: Update)
    requires Valid(vi) && ValidTree(u.readSet, vi.namespace)
    ensures ReadSetOk(vi.configMap, ReadMap(vi, u)) <==> forall kind, full :: ReadIsCurrent(vi, u, kind, full)
  {
    hide Valid, ValidTree, FlatTree, Key, ValidID, In, At, OldAt;
    var root, tree := vi.namespace, Some(vi.config.channelGroup);
    CurrentMap(vi);
    if ReadSetOk(vi.configMap, ReadMap(vi, u)) {
      forall kind, full
        ensures ReadIsCurrent(vi, u, kind, full)
      {
        if ReadAt(vi, u, kind, full).Some? {
          TreeEntry(u.readSet, root, kind, full);
          EntryAt(tree, root, kind, full);
        }
      }
    }
    if forall kind, full :: ReadIsCurrent(vi, u, kind, full) {
      forall s | s in ReadMap(vi, u)
        ensures s in vi.configMap && vi.configMap[s].Version() == ReadMap(vi, u)[s].Version()
      {
        MapEntry(u.readSet, root, s);
        var it := ReadMap(vi, u)[s];
        assert ReadIsCurrent(vi, u, it.Kind(), it.Full());
        TreeEntry(tree, root, it.Kind(), it.Full());
      }
    }
  }

  // ----- The delta set -----

  lemma ChangeInDelta<P>(vi: Validator<P>, u: Update, kind: Kind, full: seq<string>)
    requires ValidTree(u.readSet, vi.namespace) && ValidTree(u.writeSet, vi.namespace)
    requires ValidPath(full)
    ensures Key(kind, full) in DeltaOf(vi, u) <==> Changes(vi, u, kind, full)
    ensures Changes(vi, u, kind, full) ==> DeltaOf(vi, u)[Key(kind, full)] == WrittenAt(vi, u, kind, full).value
  {
    hide ValidTree, FlatTree, Key, ValidID, In;
    EntryAt(u.readSet, vi.namespace, kind, full);
    EntryAt(u.writeSet, vi.namespace, kind, full);
  }

  lemma DeltaIsChange<P>(vi: Validator<P>, u: Update, s: string)
    requires ValidTree(u.readSet, vi.namespace) && ValidTree(u.writeSet, vi.namespace)
    requires s in DeltaOf(vi, u)
    ensures var it := DeltaOf(vi, u)[s];
            && s == Key(it.Kind(), it.Full()) && ValidPath(it.Full())
            && Changes(vi, u, it.Kind(), it.Full()) && WrittenAt(vi, u, it.Kind(), it.Full()) == Some(it)
  {
    hide ValidTree, FlatTree, Key, ValidID, In, Changes;
    MapEntry(u.writeSet, vi.namespace, s);
    var it := DeltaOf(vi, u)[s];
    ChangeInDelta(vi, u, it.Kind(), it.Full());
  }

  lemma AllowedExactly<P>(vi: Validator<P>, sat: P -> bool, kind: Kind, full: seq<string>, it: Item)
    requires Valid(vi) && ValidPath(full)
    ensures Allowed(vi, sat, it, OldAt(vi, kind, full)) <==>
            DeltaItemOk(vi.configMap, vi.pm, sat, Key(kind, full), it)
  {
    hide Valid, ValidTree, FlatTree, Key, ValidID, In, OldAt, ValidModPolicy, PolicyForItem;
    CurrentMap(vi);
    EntryAt(Some(vi.config.channelGroup), vi.namespace, kind, full);
  }

  lemma WrittenIsValid<P>(vi: Validator<P>, u: Update, kind: Kind, full: seq<string>)
    requires ValidTree(u.writeSet, vi.namespace) && Changes(vi, u, kind, full)
    ensures ValidPath(full) && WrittenAt(vi, u, kind, full).Some?
  {
    TreeEntry(u.writeSet, vi.namespace, kind, full);
  }

  lemma DeltaExactly<P>(vi: Validator<P>, sat: P -> bool, u: Update)
    requires Valid(vi) && ValidTree(u.readSet, vi.namespace) && ValidTree(u.writeSet, vi.namespace)
    ensures DeltaOk(vi.configMap, vi.pm, sat, DeltaOf(vi, u)) <==>
            && (exists kind, full :: Changes(vi, u, kind, full))
            && (forall kind, full :: ChangeAllowed(vi, sat, u, kind, full))
  {
    hide Valid, ValidTree, ValidPath, Delta, Key, Changes, Allowed, DeltaItemOk, OldAt, WrittenAt;
    var delta := DeltaOf(vi, u);
    if kind, full :| Changes(vi, u, kind, full) {
      WrittenIsValid(vi, u, kind, full);
      ChangeInDelta(vi, u, kind, full);
      assert |delta| != 0;
    }
    if |delta| != 0 {
      var s :| s in delta;
      DeltaIsChange(vi, u, s);
    }
    if DeltaOk(vi.configMap, vi.pm, sat, delta) {
      forall kind, full
        ensures ChangeAllowed(vi, sat, u, kind, full)
      {
        if Changes(vi, u, kind, full) {
          WrittenIsValid(vi, u, kind, full);
          ChangeInDelta(vi, u, kind, full);
          AllowedExactly(vi, sat, kind, full, delta[Key(kind, full)]);
        }
      }
    }
    if forall kind, full :: ChangeAllowed(vi, sat, u, kind, full) {
      forall s | s in delta
        ensures DeltaItemOk(vi.configMap, vi.pm, sat, s, delta[s])
      {
        DeltaIsChange(vi, u, s);
        var kind, full := delta[s].Kind(), delta[s].Full();
        assert ChangeAllowed(vi, sat, u, kind, full);
        AllowedExactly(vi, sat, kind, full, delta[s]);
      }
    }
  }

  // ----- The new tree -----

  /** Empty mod policies are filled in when the current tree or the write set has the orderer capabilities. */
  predicate Fills<P>(vi: Validator<P>, u: Update) {
    var full := ["Channel", "Orderer", "Capabilities"];
    OldAt(vi, ValueKind, full).Some? || WrittenAt(vi, u, ValueKind, full).Some?
  }

  /** Each element of the new tree is the one that the write set changes it to, or else the current one, its
      empty mod policy filled in; so a change that the new parent lists stands as it was written. */
  lemma NewTreeExactly<P>(vi: Validator<P>, sat: P -> bool, u: Update, kind: Kind, full: seq<string>)
    requires Valid(vi) && Accepted(vi, sat, u)
    ensures At(vi.namespace, NewTree(vi, sat, u), kind, full).Some? <==>
            if |full| <= 1 then full == [vi.namespace] && kind.GroupKind?
            else ListsAt(vi.namespace, NewTree(vi, sat, u), full[..|full| - 1], kind, full[|full| - 1])
    ensures var after := At(vi.namespace, NewTree(vi, sat, u), kind, full);
            after.Some? ==>
              if Changes(vi, u, kind, full) then SameButFilled(WrittenAt(vi, u, kind, full).value, after.value, false)
              else OldAt(vi, kind, full).Some? &&
                   SameButFilled(OldAt(vi, kind, full).value, after.value, Fills(vi, u))
  {
    hide Valid, Accepted, NewTree, Changes, SameButFilled, At, ListsAt, OldAt, WrittenAt, Fills;
    Standing(vi.namespace, NewTree(vi, sat, u), kind, full);
    if At(vi.namespace, NewTree(vi, sat, u), kind, full).Some? { NewElementExactly(vi, sat, u, kind, full); }
  }

  lemma Standing(root: string, g: ConfigGroup, kind: Kind, full: seq<string>)
    ensures At(root, g, kind, full).Some? <==>
            if |full| <= 1 then full == [root] && kind.GroupKind?
            else ListsAt(root, g, full[..|full| - 1], kind, full[|full| - 1])
  {
    hide Below;
    if |full| > 1 {
      AtParent(root, g, kind, full);
    } else if |full| == 1 {
      SingleNameIsRoot(root, g, kind);
      assert full == [full[0]];
    }
  }

  lemma NewElementExactly<P>(vi: Validator<P>, sat: P -> bool, u: Update, kind: Kind, full: seq<string>)
    requires Valid(vi) && Accepted(vi, sat, u)
    requires At(vi.namespace, NewTree(vi, sat, u), kind, full).Some?
    ensures var after := At(vi.namespace, NewTree(vi, sat, u), kind, full).value;
            if Changes(vi, u, kind, full) then SameButFilled(WrittenAt(vi, u, kind, full).value, after, false)
            else OldAt(vi, kind, full).Some? && SameButFilled(OldAt(vi, kind, full).value, after, Fills(vi, u))
  {
    hide Key, Valid, ValidTree, NewTree, Changes, SameButFilled, At, OldAt, Fills, ReadSetOk, DeltaOk, Delta, FillShell;
    NewElement(vi, sat, u, kind, full);
    FillsExactly(vi, u);
    var s, fill := Key(kind, full), BackFills(vi, u);
    var after := At(vi.namespace, NewTree(vi, sat, u), kind, full).value;
    ChangeInDelta(vi, u, kind, full);
    if Changes(vi, u, kind, full) {
      WrittenIsValid(vi, u, kind, full);
      WrittenHasModPolicy(vi, sat, u, s);
      ShellsAgree(WrittenAt(vi, u, kind, full).value, after, fill);
      NothingToFill(WrittenAt(vi, u, kind, full).value, after, fill);
    } else {
      OldEntry(vi, kind, full);
      OldElement(vi, kind, full);
      ShellsAgree(OldAt(vi, kind, full).value, after, fill);
    }
  }

  lemma WrittenHasModPolicy<P>(vi: Validator<P>, sat: P -> bool, u: Update, s: string)
    requires Accepted(vi, sat, u) && s in DeltaOf(vi, u)
    ensures DeltaOf(vi, u)[s].ModPolicy() != ""
  {
    assert DeltaItemOk(vi.configMap, vi.pm, sat, s, DeltaOf(vi, u)[s]);
  }

  lemma NothingToFill(before: Item, after: Item, fill: bool)
    requires before.ModPolicy() != "" && SameButFilled(before, after, fill)
    ensures SameButFilled(before, after, false)
  {
  }

  lemma ShellsAgree(before: Item, after: Item, fill: bool)
    requires after.Shell() == FillShell(fill, before.Shell())
    ensures SameButFilled(before, after, fill)
  {
  }

  lemma FillsExactly<P>(vi: Validator<P>, u: Update)
    requires Valid(vi) && ValidTree(u.readSet, vi.namespace) && ValidTree(u.writeSet, vi.namespace)
    requires ReadSetOk(vi.configMap, ReadMap(vi, u))
    ensures BackFills(vi, u) <==> Fills(vi, u)
  {
    hide Key, ValidID, Valid, ValidTree, In, At, OldAt, Changes, ReadSetOk, FlatTree;
    var full := ["Channel", "Orderer", "Capabilities"];
    CapabilitiesKey();
    CapabilitiesPath();
    CurrentMap(vi);
    EntryAt(Some(vi.config.channelGroup), vi.namespace, ValueKind, full);
    EntryAt(u.writeSet, vi.namespace, ValueKind, full);
    WriteSetWithinOverlay(vi, u);
  }
}
