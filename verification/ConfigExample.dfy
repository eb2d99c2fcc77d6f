/** One accepted update, worked out: a channel that is a bare root group has its root moved to the next
    version with another mod policy. */
module ConfigExample {
  import opened Basics
  import opened ConfigTree
  import opened ConfigMap
  import opened PolicyManager
  import opened ConfigUpdate
  import opened ConfigAuthority

  function Bare(version: Uint64, modPolicy: string): ConfigGroup {
    ConfigGroup(version, modPolicy, map[], map[], map[])
  }

  function RootItem(g: ConfigGroup): Item { GroupItem([], "Channel", g) }

  function RootKey(): string { Key(GroupKind, ["Channel"]) }

  lemma BareFlat(version: Uint64, modPolicy: string)
    ensures ValidID("Channel") && ValidKeys(Bare(version, modPolicy))
    ensures Flat(["Channel"], Bare(version, modPolicy)) == map[RootKey() := RootItem(Bare(version, modPolicy))]
  {
    hide Key, Flat, IsFlat;
    var g := Bare(version, modPolicy);
    VisitedStart(["Channel"], g);
    VisitedAll(["Channel"], g, {});
  }

  lemma ValidNames()
    ensures ValidModPolicy("Writers")
  {
    assert ValidID("Writers");
    assert Split("Writers", '/') == ["Writers"];
  }

  function Admin(): Manager<bool> { Manager("Channel", map["Admins" := true], map[]) }

  function Yes(p: bool): bool { p }

  ghost function Before(): Validator<bool> {
    Validator("mychannel", Config(7, Bare(0, "Admins")), Flat(["Channel"], Bare(0, "Admins")), "Channel", Admin())
  }

  function Change(): Update { Update("mychannel", Some(Bare(0, "Admins")), Some(Bare(1, "Writers"))) }

  lemma DeltaOfChange()
    ensures Valid(Before()) && ValidTree(Change().readSet, "Channel") && ValidTree(Change().writeSet, "Channel")
    ensures Before().configMap == map[RootKey() := RootItem(Bare(0, "Admins"))]
    ensures ReadMap(Before(), Change()) == map[RootKey() := RootItem(Bare(0, "Admins"))]
    ensures DeltaOf(Before(), Change()) == map[RootKey() := RootItem(Bare(1, "Writers"))]
  {
    hide Key, Flat, IsFlat, RootKey, ValidID;
    BareFlat(0, "Admins");
    BareFlat(1, "Writers");
  }

  /** The update is accepted and changes more than the back-fill would. */
  lemma ChangeIsAccepted()
    ensures Valid(Before()) && Accepted(Before(), Yes, Change())
    ensures NewTree(Before(), Yes, Change()) != BackFill(BackFills(Before(), Change()), Bare(0, "Admins"))
    ensures Outcome(Before(), Yes, Change()).sequence == 8
  {
    hide Key, Flat, IsFlat, RootKey, ValidID, ValidModPolicy, FlatTree, Delta, ValidKeys;
    DeltaOfChange();
    ValidNames();
    var root, next := RootItem(Bare(0, "Admins")), RootItem(Bare(1, "Writers"));
    assert PolicyForItem(Admin(), root) == Found(true);
    assert DeltaItemOk(Before().configMap, Admin(), Yes, RootKey(), next);
    assert DeltaOk(Before().configMap, Admin(), Yes, DeltaOf(Before(), Change()));
    assert Accepted(Before(), Yes, Change());
    NewRootIsNext();
  }

  lemma NewRootIsNext()
    requires Valid(Before()) && Accepted(Before(), Yes, Change())
    ensures NewTree(Before(), Yes, Change()).version == 1
  {
    hide Valid, Accepted, NewTree, Before, Change;
    assert Before().namespace == "Channel" by { BeforeFacts(); }
    RootInBoth(Before(), Yes, Change());
    NewElement(Before(), Yes, Change(), GroupKind, ["Channel"]);
    DeltaOfChange();
    assert ["Channel"][1..] == [];
  }

  lemma BeforeFacts()
    ensures Before().namespace == "Channel"
  {
    hide Flat;
  }
}
