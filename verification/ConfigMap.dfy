/** Flattening a configuration tree to a map of keys and rebuilding the tree
    (common/configtx/configmap.go). */
module ConfigMap {
  import opened Basics
  import opened ConfigTree

  type FlatMap = map<string, Item>

  // ----- What the flat map of a tree is -----

  /** The relative paths of all elements of a tree. */
  ghost function Paths(g: ConfigGroup): set<seq<string>>
    decreases g
  {
    {[]} + (set k | k in g.values :: [k]) + (set k | k in g.policies :: [k])
    + (set k, rel | k in g.groups && rel in Paths(g.groups[k]) :: [k] + rel)
  }

  lemma {:induction false} PathsCoverElements(path: seq<string>, g: ConfigGroup, kind: Kind, rel: seq<string>)
    requires path != [] && Below(path, g, kind, rel).Some?
    ensures rel in Paths(g)
    decreases g
  {
    if |rel| > 0 {
      assert rel == [rel[0]] + rel[1..];
      if !(|rel| == 1 && !kind.GroupKind?) {
        PathsCoverElements(path + [rel[0]], g.groups[rel[0]], kind, rel[1..]);
      } else {
        assert rel == [rel[0]];
      }
    }
  }

  /** `m` files exactly the elements of the tree, each under its own key. */
  ghost predicate IsFlat(m: FlatMap, path: seq<string>, g: ConfigGroup)
    requires path != []
  {
    && (forall s | s in m :: Files(path, g, s, m[s]))
    && (forall kind, rel {:trigger Key(kind, path + rel)} :: Below(path, g, kind, rel).Some? ==>
       Key(kind, path + rel) in m)
  }

  ghost predicate Files(path: seq<string>, g: ConfigGroup, s: string, it: Item)
    requires path != []
  {
    && s == Key(it.Kind(), it.Full())
    && path <= it.Full()
    && Below(path, g, it.Kind(), it.Full()[|path|..]) == Some(it)
  }

  ghost function ElementKeys(path: seq<string>, g: ConfigGroup): set<string>
    requires path != []
  {
    set kind: Kind, rel | rel in Paths(g) && Below(path, g, kind, rel).Some? :: Key(kind, path + rel)
  }

  lemma ElementForKey(path: seq<string>, g: ConfigGroup, s: string) returns (it: Item)
    requires path != [] && s in ElementKeys(path, g)
    ensures Files(path, g, s, it)
  {
    hide Key;
    var kind, rel :| rel in Paths(g) && Below(path, g, kind, rel).Some? && s == Key(kind, path + rel);
    it := Below(path, g, kind, rel).value;
    assert it.Full()[|path|..] == rel;
  }

  lemma FlatExists(path: seq<string>, g: ConfigGroup)
    requires path != []
    ensures exists m :: IsFlat(m, path, g)
  {
    hide Key, Below, Paths;
    forall s | s in ElementKeys(path, g) ensures exists it :: Files(path, g, s, it) {
      var it := ElementForKey(path, g, s);
    }
    var m := map s | s in ElementKeys(path, g) :: var it :| Files(path, g, s, it); it;
    forall kind, rel | Below(path, g, kind, rel).Some?
      ensures Key(kind, path + rel) in m
    {
      PathsCoverElements(path, g, kind, rel);
    }
    assert IsFlat(m, path, g);
  }

  /** Every element of the tree at `path`, filed under its key. */
  ghost function Flat(path: seq<string>, g: ConfigGroup): (m: FlatMap)
    requires path != []
    ensures IsFlat(m, path, g)
  {
    FlatExists(path, g);
    var m :| IsFlat(m, path, g);
    m
  }

  /** A flat map of a validated tree returns each element under its key. */
  lemma FlatLookup(m: FlatMap, path: seq<string>, g: ConfigGroup, kind: Kind, rel: seq<string>)
    requires path != [] && ValidPath(path) && ValidKeys(g) && IsFlat(m, path, g)
    requires Below(path, g, kind, rel).Some?
    ensures Key(kind, path + rel) in m && m[Key(kind, path + rel)] == Below(path, g, kind, rel).value
  {
    var s := Key(kind, path + rel);
    var it := m[s];
    BelowValid(path, g, kind, rel);
    BelowValid(path, g, it.Kind(), it.Full()[|path|..]);
    assert path + it.Full()[|path|..] == it.Full();
    KeyInjective(kind, path + rel, it.Kind(), it.Full());
    assert it.Full()[|path|..] == rel;
  }

  lemma FlatUnique(m: FlatMap, m': FlatMap, path: seq<string>, g: ConfigGroup)
    requires path != [] && ValidPath(path) && ValidKeys(g)
    requires IsFlat(m, path, g) && IsFlat(m', path, g)
    ensures m == m'
  {
    SubmapOfFlat(m, m', path, g);
    SubmapOfFlat(m', m, path, g);
  }

  lemma SubmapOfFlat(m: FlatMap, m': FlatMap, path: seq<string>, g: ConfigGroup)
    requires path != [] && ValidPath(path) && ValidKeys(g)
    requires IsFlat(m, path, g) && IsFlat(m', path, g)
    ensures forall s | s in m :: s in m' && m'[s] == m[s]
  {
    forall s | s in m
      ensures s in m' && m'[s] == m[s]
    {
      var it := m[s];
      FlatLookup(m', path, g, it.Kind(), it.Full()[|path|..]);
      assert path + it.Full()[|path|..] == it.Full();
    }
  }

  // ----- Flattening, as the source does it -----

  /** The direct child of the group at `path` through which an element is reached. */
  function Branch(path: seq<string>, it: Item): (Kind, string)
    requires |path| < |it.Full()|
  {
    (if |it.Full()| == |path| + 1 then it.Kind() else GroupKind, it.Full()[|path|])
  }

  /** The entries of the group itself and of the branches in `done`. */
  ghost function Visited(path: seq<string>, g: ConfigGroup, done: set<(Kind, string)>): FlatMap
    requires path != []
  {
    var m := Flat(path, g);
    map s | s in m && (|m[s].Full()| <= |path| || Branch(path, m[s]) in done) :: m[s]
  }

  lemma VisitedStart(path: seq<string>, g: ConfigGroup)
    requires path != [] && ValidPath(path) && ValidKeys(g)
    ensures Visited(path, g, {}) ==
            map[Key(GroupKind, path) := GroupItem(path[..|path| - 1], path[|path| - 1], g)]
  {
    hide Key, ValidID, ValidKeys;
    FlatLookup(Flat(path, g), path, g, GroupKind, []);
    assert path + [] == path;
    var m, v := Flat(path, g), Visited(path, g, {});
    forall s | s in v
      ensures s == Key(GroupKind, path)
    {
      assert m[s].Full()[|path|..] == [];
      assert m[s].Full() == path;
    }
  }

  lemma VisitedLeaf(path: seq<string>, g: ConfigGroup, done: set<(Kind, string)>, it: Item)
    requires path != [] && ValidPath(path) && ValidKeys(g)
    requires it.path == path
    requires || (it.ValueItem? && it.key in g.values && it.value == g.values[it.key])
             || (it.PolicyItem? && it.key in g.policies && it.policy == g.policies[it.key])
    ensures Visited(path, g, done + {(it.Kind(), it.key)}) ==
            Visited(path, g, done)[Key(it.Kind(), it.Full()) := it]
  {
    hide Key, ValidID, ValidKeys, IsFlat;
    var m := Flat(path, g);
    FlatLookup(m, path, g, it.Kind(), [it.key]);
    assert path + [it.key] == it.Full();
    forall s | s in m && |m[s].Full()| > |path| && Branch(path, m[s]) == (it.Kind(), it.key)
      ensures s == Key(it.Kind(), it.Full())
    {
      FlatEntry(path, g, s);
      assert m[s].Full() == path + [it.key];
    }
  }

  lemma FlatEntry(path: seq<string>, g: ConfigGroup, s: string)
    requires path != [] && s in Flat(path, g)
    ensures Files(path, g, s, Flat(path, g)[s])
  {
  }

  lemma ChildEntry(path: seq<string>, g: ConfigGroup, k: string, s: string)
    requires path != [] && ValidPath(path) && ValidKeys(g) && k in g.groups
    requires s in Flat(path + [k], g.groups[k])
    ensures var m := Flat(path, g);
            && s in m && m[s] == Flat(path + [k], g.groups[k])[s]
            && |m[s].Full()| > |path| && Branch(path, m[s]) == (GroupKind, k)
  {
    hide Key, ValidID, IsFlat;
    var it := Flat(path + [k], g.groups[k])[s];
    FlatEntry(path + [k], g.groups[k], s);
    var rel := it.Full()[|path| + 1..];
    assert it.Full()[|path|..] == [k] + rel;
    assert ([k] + rel)[1..] == rel;
    assert rel == [] ==> it.GroupItem?;
    FlatLookup(Flat(path, g), path, g, it.Kind(), [k] + rel);
    assert path + ([k] + rel) == it.Full();
  }

  lemma ParentEntry(path: seq<string>, g: ConfigGroup, k: string, s: string)
    requires path != [] && ValidPath(path) && ValidKeys(g) && k in g.groups
    requires s in Flat(path, g)
    requires var it := Flat(path, g)[s]; |it.Full()| > |path| && Branch(path, it) == (GroupKind, k)
    ensures var c := Flat(path + [k], g.groups[k]); s in c && c[s] == Flat(path, g)[s]
  {
    hide Key, ValidID, IsFlat;
    var it := Flat(path, g)[s];
    FlatEntry(path, g, s);
    var rel := it.Full()[|path|..];
    assert rel[0] == k;
    FlatLookup(Flat(path + [k], g.groups[k]), path + [k], g.groups[k], it.Kind(), rel[1..]);
    assert path + [k] + rel[1..] == it.Full();
  }

  /** The flat map of a child group is the part of the parent's map that lies under it. */
  lemma VisitedGroup(path: seq<string>, g: ConfigGroup, done: set<(Kind, string)>, k: string)
    requires path != [] && ValidPath(path) && ValidKeys(g) && k in g.groups
    ensures Visited(path, g, done + {(GroupKind, k)}) ==
            Visited(path, g, done) + Flat(path + [k], g.groups[k])
  {
    hide Key, ValidID, ValidKeys, IsFlat, Below, Flat;
    var m, c := Flat(path, g), Flat(path + [k], g.groups[k]);
    forall s | s in c
      ensures s in m && m[s] == c[s] && |m[s].Full()| > |path| && Branch(path, m[s]) == (GroupKind, k)
    {
      ChildEntry(path, g, k, s);
    }
    forall s | s in m && |m[s].Full()| > |path| && Branch(path, m[s]) == (GroupKind, k)
      ensures s in c && c[s] == m[s]
    {
      ParentEntry(path, g, k, s);
    }
  }

  lemma VisitedAll(path: seq<string>, g: ConfigGroup, done: set<(Kind, string)>)
    requires path != [] && ValidPath(path) && ValidKeys(g)
    requires forall kind, k | Lists(g, kind, k) :: (kind, k) in done
    ensures Visited(path, g, done) == Flat(path, g)
  {
    hide Key, ValidID, ValidKeys;
    var m := Flat(path, g);
    forall s | s in m && |m[s].Full()| > |path|
      ensures Branch(path, m[s]) in done
    {
      var b := Branch(path, m[s]);
      assert Lists(g, b.0, b.1);
    }
  }

  lemma OverlayAssociative(a: FlatMap, b: FlatMap, c: FlatMap)
    ensures (a + b) + c == a + (b + c)
  {
  }

  lemma OverlayUpdate(a: FlatMap, b: FlatMap, s: string, it: Item)
    ensures (a + b)[s := it] == a + b[s := it]
  {
  }

  /** `addToMap`. */
  method AddToMap(it: Item, result: FlatMap) returns (ok: bool, result': FlatMap)
    ensures ok <==> ValidID(it.key)
    ensures ok ==> result' == result[Key(it.Kind(), it.Full()) := it]
  {
    FqPathIsKey(it);
    ok := ValidID(it.key);
    result' := result;
    if ok {
      result' := result[FqPath(it) := it];
    }
  }

  ghost function Branches(kind: Kind, names: set<string>): set<(Kind, string)> {
    set k | k in names :: (kind, k)
  }

  /** The loop of `recurseConfig` over the values. */
  method AddValues(acc: FlatMap, path: seq<string>, group: ConfigGroup,
                   ghost base: FlatMap, ghost done: set<(Kind, string)>)
    returns (ok: bool, acc': FlatMap)
    requires path != [] && ValidPath(path)
    requires ValidKeys(group) ==> acc == base + Visited(path, group, done)
    ensures ok <==> forall k | k in group.values :: ValidID(k)
    ensures ok && ValidKeys(group) ==>
              acc' == base + Visited(path, group, done + Branches(ValueKind, group.values.Keys))
  {
    hide Key, ValidID, ValidKeys, Flat, Visited, IsFlat, Below;
    ok, acc' := true, acc;
    var todo := group.values.Keys;
    ghost var seen := {};
    assert done + Branches(ValueKind, seen) == done;
    while todo != {}
      invariant todo <= group.values.Keys && seen == group.values.Keys - todo
      invariant forall k | k in seen :: ValidID(k)
      invariant ValidKeys(group) ==> acc' == base + Visited(path, group, done + Branches(ValueKind, seen))
      decreases todo
    {
      var k :| k in todo;
      var it := ValueItem(path, k, group.values[k]);
      if ValidKeys(group) {
        VisitedLeaf(path, group, done + Branches(ValueKind, seen), it);
        OverlayUpdate(base, Visited(path, group, done + Branches(ValueKind, seen)), Key(it.Kind(), it.Full()), it);
        assert done + Branches(ValueKind, seen + {k}) == done + Branches(ValueKind, seen) + {(ValueKind, k)};
      }
      ok, acc' := AddToMap(it, acc');
      if !ok { return; }
      todo, seen := todo - {k}, seen + {k};
    }
    assert seen == group.values.Keys;
  }

  /** The loop of `recurseConfig` over the policies. */
  method AddPolicies(acc: FlatMap, path: seq<string>, group: ConfigGroup,
                   ghost base: FlatMap, ghost done: set<(Kind, string)>)
    returns (ok: bool, acc': FlatMap)
    requires path != [] && ValidPath(path)
    requires ValidKeys(group) ==> acc == base + Visited(path, group, done)
    ensures ok <==> forall k | k in group.policies :: ValidID(k)
    ensures ok && ValidKeys(group) ==>
              acc' == base + Visited(path, group, done + Branches(PolicyKind, group.policies.Keys))
  {
    hide Key, ValidID, ValidKeys, Flat, Visited, IsFlat, Below;
    ok, acc' := true, acc;
    var todo := group.policies.Keys;
    ghost var seen := {};
    assert done + Branches(PolicyKind, seen) == done;
    while todo != {}
      invariant todo <= group.policies.Keys && seen == group.policies.Keys - todo
      invariant forall k | k in seen :: ValidID(k)
      invariant ValidKeys(group) ==> acc' == base + Visited(path, group, done + Branches(PolicyKind, seen))
      decreases todo
    {
      var k :| k in todo;
      var it := PolicyItem(path, k, group.policies[k]);
      if ValidKeys(group) {
        VisitedLeaf(path, group, done + Branches(PolicyKind, seen), it);
        OverlayUpdate(base, Visited(path, group, done + Branches(PolicyKind, seen)), Key(it.Kind(), it.Full()), it);
        assert done + Branches(PolicyKind, seen + {k}) == done + Branches(PolicyKind, seen) + {(PolicyKind, k)};
      }
      ok, acc' := AddToMap(it, acc');
      if !ok { return; }
      todo, seen := todo - {k}, seen + {k};
    }
    assert seen == group.policies.Keys;
  }

  /** The loop of `recurseConfig` over the groups. */
  method AddGroups(acc: FlatMap, path: seq<string>, group: ConfigGroup, ghost base: FlatMap)
    returns (ok: bool, acc': FlatMap)
    requires path != [] && ValidPath(path)
    requires ValidKeys(group) ==> acc == base + Visited(path, group, {})
    ensures ok <==> forall k | k in group.groups :: ValidID(k) && ValidKeys(group.groups[k])
    ensures ok && ValidKeys(group) ==>
              acc' == base + Visited(path, group, Branches(GroupKind, group.groups.Keys))
    decreases group, 0
  {
    hide Key, ValidID, ValidKeys, Flat, Visited, IsFlat, Below;
    ok, acc' := true, acc;
    var todo := group.groups.Keys;
    ghost var seen := {};
    assert Branches(GroupKind, seen) == {};
    while todo != {}
      invariant todo <= group.groups.Keys && seen == group.groups.Keys - todo
      invariant forall k | k in seen :: ValidID(k) && ValidKeys(group.groups[k])
      invariant ValidKeys(group) ==> acc' == base + Visited(path, group, Branches(GroupKind, seen))
      decreases todo
    {
      var k :| k in todo;
      ghost var before, child := Visited(path, group, Branches(GroupKind, seen)), Flat(path + [k], group.groups[k]);
      if ValidKeys(group) {
        VisitedGroup(path, group, Branches(GroupKind, seen), k);
        OverlayAssociative(base, before, child);
        assert Branches(GroupKind, seen + {k}) == Branches(GroupKind, seen) + {(GroupKind, k)};
      }
      assert (path + [k])[..|path|] == path;
      ok, acc' := RecurseConfig(acc', path + [k], group.groups[k]);
      if !ok { return; }
      todo, seen := todo - {k}, seen + {k};
    }
    assert seen == group.groups.Keys;
  }

  /** `recurseConfig`: fails exactly when some name is illegal, and otherwise adds every
      element of the tree, whatever order the loops visit the children in. */
  method RecurseConfig(result: FlatMap, path: seq<string>, group: ConfigGroup)
    returns (ok: bool, result': FlatMap)
    requires path != [] && ValidPath(path[..|path| - 1])
    ensures ok <==> ValidID(path[|path| - 1]) && ValidKeys(group)
    ensures ok ==> result' == result + Flat(path, group)
    decreases group, 1
  {
    hide Key, ValidID, Flat, Visited, IsFlat, Below;
    ok, result' := AddToMap(GroupItem(path[..|path| - 1], path[|path| - 1], group), result);
    if !ok { return; }
    assert path == path[..|path| - 1] + [path[|path| - 1]];
    assert ValidPath(path);
    if ValidKeys(group) { VisitedStart(path, group); }
    ok, result' := AddGroups(result', path, group, result);
    if !ok { return; }
    ghost var done := Branches(GroupKind, group.groups.Keys);
    ok, result' := AddValues(result', path, group, result, done);
    if !ok { return; }
    done := done + Branches(ValueKind, group.values.Keys);
    ok, result' := AddPolicies(result', path, group, result, done);
    if ok { VisitedAll(path, group, done + Branches(PolicyKind, group.policies.Keys)); }
  }

  /** The flat map of an optional tree. */
  ghost function FlatTree(tree: Option<ConfigGroup>, root: string): FlatMap {
    if tree.None? then map[] else Flat([root], tree.value)
  }

  predicate ValidTree(tree: Option<ConfigGroup>, root: string) {
    tree.Some? ==> ValidID(root) && ValidKeys(tree.value)
  }

  /** `mapConfig`. */
  method MapConfig(tree: Option<ConfigGroup>, root: string) returns (r: Result<FlatMap, ()>)
    ensures r.Ok? <==> ValidTree(tree, root)
    ensures r.Ok? ==> r.value == FlatTree(tree, root)
  {
    hide Key, ValidID, ValidKeys, Flat, IsFlat, Below;
    var result: FlatMap := map[];
    if tree.Some? {
      var ok, result' := RecurseConfig(result, [root], tree.value);
      if !ok { return Err(()); }
      result := result';
      assert map[] + Flat([root], tree.value) == Flat([root], tree.value);
    }
    return Ok(result);
  }

  // ----- Rebuilding -----

  const ORDERER_CAPABILITIES := "[Value]  /Channel/Orderer/Capabilities"
  const NEW_MOD_POLICY := "Admins"

  /** An empty mod policy becomes "Admins" when the orderer capabilities are configured. */
  function Fill(fix: bool, modPolicy: string): string {
    if fix && modPolicy == "" then NEW_MOD_POLICY else modPolicy
  }

  function FillValue(fix: bool, v: ConfigValue): ConfigValue { v.(modPolicy := Fill(fix, v.modPolicy)) }

  function FillPolicy(fix: bool, p: ConfigPolicy): ConfigPolicy { p.(modPolicy := Fill(fix, p.modPolicy)) }

  function FillShell(fix: bool, s: Shell): Shell { s.(modPolicy := Fill(fix, s.modPolicy)) }

  /** The back-fill over a whole tree. */
  function BackFill(fix: bool, g: ConfigGroup): ConfigGroup
    decreases g
  {
    ConfigGroup(g.version, Fill(fix, g.modPolicy),
                map k | k in g.groups :: BackFill(fix, g.groups[k]),
                map k | k in g.values :: FillValue(fix, g.values[k]),
                map k | k in g.policies :: FillPolicy(fix, g.policies[k]))
  }

  datatype RebuildError = MissingElement | WrongKind

  function FindItem(m: FlatMap, kind: Kind, path: string): (r: Result<Item, RebuildError>)
    ensures r.Ok? ==> Prefix(kind) + path in m && r.value == m[Prefix(kind) + path] && r.value.Kind() == kind
  {
    var s := Prefix(kind) + path;
    if s !in m then Err(MissingElement)
    else if m[s].Kind() != kind then Err(WrongKind)
    else Ok(m[s])
  }

  /** The values that a group at `path` lists, as filed; none when one of them is missing. */
  function ValuesAt(path: string, m: FlatMap, g: ConfigGroup): Option<map<string, ConfigValue>> {
    if exists k | k in g.values :: FindItem(m, ValueKind, path + SLASH + k).Err? then None
    else Some(map k | k in g.values :: FindItem(m, ValueKind, path + SLASH + k).value.value)
  }

  function PoliciesAt(path: string, m: FlatMap, g: ConfigGroup): Option<map<string, ConfigPolicy>> {
    if exists k | k in g.policies :: FindItem(m, PolicyKind, path + SLASH + k).Err? then None
    else Some(map k | k in g.policies :: FindItem(m, PolicyKind, path + SLASH + k).value.policy)
  }

  /** A group with its children replaced, mod policies back-filled. */
  function Assemble(fix: bool, g: ConfigGroup, groups: map<string, ConfigGroup>,
                    values: map<string, ConfigValue>, policies: map<string, ConfigPolicy>): ConfigGroup
  {
    ConfigGroup(g.version, Fill(fix, g.modPolicy), groups,
                map k | k in values :: FillValue(fix, values[k]),
                map k | k in policies :: FillPolicy(fix, policies[k]))
  }

  ghost function LongKeys(m: FlatMap, n: nat): set<string> {
    set s | s in m && |s| >= n
  }

  lemma LongerPath(path: string, m: FlatMap)
    requires GROUP_PREFIX + path in m
    ensures forall k: string :: LongKeys(m, |path + SLASH + k| + 9) < LongKeys(m, |path| + 9)
  {
    forall k: string
      ensures LongKeys(m, |path + SLASH + k| + 9) < LongKeys(m, |path| + 9)
    {
      var s := GROUP_PREFIX + path;
      assert s in LongKeys(m, |path| + 9) && s !in LongKeys(m, |path + SLASH + k| + 9);
    }
  }

  /** `recurseConfigMap`: the tree that a flat map describes. The recursion ends on every map,
      because each nested call looks for a longer key. */
  function Rebuild(path: string, m: FlatMap): Option<ConfigGroup>
    decreases LongKeys(m, |path| + 9)
  {
    var root := FindItem(m, GroupKind, path);
    if root.Err? then None
    else
      var g := root.value.group;
      LongerPath(path, m);
      var values, policies := ValuesAt(path, m, g), PoliciesAt(path, m, g);
      if (exists k | k in g.groups :: Rebuild(path + SLASH + k, m).None?) || values.None? || policies.None? then None
      else
        Some(Assemble(ORDERER_CAPABILITIES in m, g,
                      map k | k in g.groups :: Rebuild(path + SLASH + k, m).value,
                      values.value, policies.value))
  }

  lemma RebuildUnfolds(path: string, m: FlatMap, groups: map<string, ConfigGroup>)
    requires FindItem(m, GroupKind, path).Ok?
    requires var g := FindItem(m, GroupKind, path).value.group;
             && groups.Keys == g.groups.Keys
             && (forall k | k in groups :: Rebuild(path + SLASH + k, m) == Some(groups[k]))
             && ValuesAt(path, m, g).Some? && PoliciesAt(path, m, g).Some?
    ensures var g := FindItem(m, GroupKind, path).value.group;
            Rebuild(path, m) == Some(Assemble(ORDERER_CAPABILITIES in m, g, groups,
                                              ValuesAt(path, m, g).value, PoliciesAt(path, m, g).value))
  {
    hide ValuesAt, PoliciesAt, LongKeys, FindItem;
    var r := Rebuild(path, m);
    assert r.Some?;
    assert r.value.groups == groups;
  }

  /** `recurseConfigMap`, with the loops that fill the new group. */
  method RecurseConfigMap(path: string, m: FlatMap) returns (r: Option<ConfigGroup>)
    ensures r == Rebuild(path, m)
    decreases LongKeys(m, |path| + 9), 1
  {
    hide LongKeys, ValuesAt, PoliciesAt, Assemble, FindItem;
    var root := FindItem(m, GroupKind, path);
    if root.Err? { return None; }
    var g := root.value.group;
    LongerPath(path, m);
    var groups := RebuildGroups(path, m, g);
    if groups.None? { return None; }
    var values := RebuildValues(path, m, g);
    if values.None? { return None; }
    var policies := RebuildPolicies(path, m, g);
    if policies.None? { return None; }
    RebuildUnfolds(path, m, groups.value);
    return Some(Assemble(ORDERER_CAPABILITIES in m, g, groups.value, values.value, policies.value));
  }

  method RebuildGroups(path: string, m: FlatMap, g: ConfigGroup) returns (r: Option<map<string, ConfigGroup>>)
    requires forall k: string :: LongKeys(m, |path + SLASH + k| + 9) < LongKeys(m, |path| + 9)
    ensures r.None? <==> exists k | k in g.groups :: Rebuild(path + SLASH + k, m).None?
    ensures r.Some? ==> r.value == map k | k in g.groups :: Rebuild(path + SLASH + k, m).value
    decreases LongKeys(m, |path| + 9), 0
  {
    hide LongKeys, Rebuild;
    var done: map<string, ConfigGroup> := map[];
    var todo := g.groups.Keys;
    while todo != {}
      invariant todo <= g.groups.Keys
      invariant done.Keys == g.groups.Keys - todo
      invariant forall k | k in done :: Rebuild(path + SLASH + k, m) == Some(done[k])
      decreases todo
    {
      var k :| k in todo;
      var sub := RecurseConfigMap(path + SLASH + k, m);
      if sub.None? { return None; }
      done, todo := done[k := sub.value], todo - {k};
    }
    return Some(done);
  }

  method RebuildValues(path: string, m: FlatMap, g: ConfigGroup) returns (r: Option<map<string, ConfigValue>>)
    ensures r == ValuesAt(path, m, g)
  {
    var done: map<string, ConfigValue> := map[];
    var todo := g.values.Keys;
    while todo != {}
      invariant todo <= g.values.Keys
      invariant done.Keys == g.values.Keys - todo
      invariant forall k | k in done :: var f := FindItem(m, ValueKind, path + SLASH + k);
                f.Ok? && done[k] == f.value.value
      decreases todo
    {
      var k :| k in todo;
      var f := FindItem(m, ValueKind, path + SLASH + k);
      if f.Err? { return None; }
      done, todo := done[k := f.value.value], todo - {k};
    }
    assert done == ValuesAt(path, m, g).value;
    return Some(done);
  }

  method RebuildPolicies(path: string, m: FlatMap, g: ConfigGroup) returns (r: Option<map<string, ConfigPolicy>>)
    ensures r == PoliciesAt(path, m, g)
  {
    var done: map<string, ConfigPolicy> := map[];
    var todo := g.policies.Keys;
    while todo != {}
      invariant todo <= g.policies.Keys
      invariant done.Keys == g.policies.Keys - todo
      invariant forall k | k in done :: var f := FindItem(m, PolicyKind, path + SLASH + k);
                f.Ok? && done[k] == f.value.policy
      decreases todo
    {
      var k :| k in todo;
      var f := FindItem(m, PolicyKind, path + SLASH + k);
      if f.Err? { return None; }
      done, todo := done[k := f.value.policy], todo - {k};
    }
    assert done == PoliciesAt(path, m, g).value;
    return Some(done);
  }

  // ----- When rebuilding succeeds, and what it yields -----

  ghost predicate FiledAt(m: FlatMap, kind: Kind, full: seq<string>) {
    var s := Key(kind, full);
    s in m && m[s].Kind() == kind && m[s].Full() == full
  }

  /** Every listed child of a filed group is filed under its own key. */
  ghost predicate Closed(m: FlatMap) {
    forall full, kind, k | FiledAt(m, GroupKind, full) && Lists(m[Key(GroupKind, full)].group, kind, k) ::
      FiledAt(m, kind, full + [k])
  }

  lemma ChildFiled(m: FlatMap, path: seq<string>, kind: Kind, k: string)
    requires Closed(m) && FiledAt(m, GroupKind, path) && Lists(m[Key(GroupKind, path)].group, kind, k)
    ensures FiledAt(m, kind, path + [k])
    ensures FindItem(m, kind, PathString(path) + SLASH + k) == Ok(m[Key(kind, path + [k])])
    ensures PathString(path + [k]) == PathString(path) + SLASH + k
  {
    PathStringSnoc(path, k);
  }

  /** On a closed map none of the missing-element errors can fire. */
  lemma {:induction false} ClosedRebuilds(m: FlatMap, path: seq<string>)
    requires path != [] && Closed(m) && FiledAt(m, GroupKind, path)
    ensures Rebuild(PathString(path), m).Some?
    decreases LongKeys(m, |PathString(path)| + 9)
  {
    hide LongKeys, Closed, Key, PathString;
    var g := m[Key(GroupKind, path)].group;
    assert FindItem(m, GroupKind, PathString(path)) == Ok(m[Key(GroupKind, path)]) by { FindFiled(m, GroupKind, path); }
    LongerPath(PathString(path), m);
    forall k | k in g.groups
      ensures Rebuild(PathString(path) + SLASH + k, m).Some?
    {
      ChildFiled(m, path, GroupKind, k);
      ClosedRebuilds(m, path + [k]);
    }
    forall k | k in g.values
      ensures FindItem(m, ValueKind, PathString(path) + SLASH + k).Ok?
    {
      ChildFiled(m, path, ValueKind, k);
    }
    forall k | k in g.policies
      ensures FindItem(m, PolicyKind, PathString(path) + SLASH + k).Ok?
    {
      ChildFiled(m, path, PolicyKind, k);
    }
  }

  lemma FindFiled(m: FlatMap, kind: Kind, full: seq<string>)
    requires FiledAt(m, kind, full)
    ensures FindItem(m, kind, PathString(full)) == Ok(m[Key(kind, full)])
  {
  }

  /** The parts of a rebuilt group: its own fields back-filled, its children those filed. */
  lemma RebuiltGroup(m: FlatMap, path: seq<string>)
    requires path != [] && Closed(m) && FiledAt(m, GroupKind, path)
    ensures var g, r, fix := m[Key(GroupKind, path)].group, Rebuild(PathString(path), m), ORDERER_CAPABILITIES in m;
            && r.Some?
            && r.value.version == g.version && r.value.modPolicy == Fill(fix, g.modPolicy)
            && r.value.groups.Keys == g.groups.Keys
            && r.value.values.Keys == g.values.Keys
            && r.value.policies.Keys == g.policies.Keys
            && (forall k | k in g.groups ::
                  FiledAt(m, GroupKind, path + [k]) && Rebuild(PathString(path + [k]), m) == Some(r.value.groups[k]))
            && (forall k | k in g.values ::
                  FiledAt(m, ValueKind, path + [k]) &&
                  r.value.values[k] == FillValue(fix, m[Key(ValueKind, path + [k])].value))
            && (forall k | k in g.policies ::
                  FiledAt(m, PolicyKind, path + [k]) &&
                  r.value.policies[k] == FillPolicy(fix, m[Key(PolicyKind, path + [k])].policy))
  {
    hide LongKeys, Closed, Key, PathString;
    ClosedRebuilds(m, path);
    FindFiled(m, GroupKind, path);
    var g := m[Key(GroupKind, path)].group;
    forall k | k in g.groups
      ensures FiledAt(m, GroupKind, path + [k]) && PathString(path + [k]) == PathString(path) + SLASH + k
    {
      ChildFiled(m, path, GroupKind, k);
    }
    forall k | k in g.values
      ensures FiledAt(m, ValueKind, path + [k])
      ensures FindItem(m, ValueKind, PathString(path) + SLASH + k) == Ok(m[Key(ValueKind, path + [k])])
    {
      ChildFiled(m, path, ValueKind, k);
    }
    forall k | k in g.policies
      ensures FiledAt(m, PolicyKind, path + [k])
      ensures FindItem(m, PolicyKind, PathString(path) + SLASH + k) == Ok(m[Key(PolicyKind, path + [k])])
    {
      ChildFiled(m, path, PolicyKind, k);
    }
  }

  /** What is neither the group itself nor one of its values and policies lies below a sub-group. */
  lemma BelowUnfolds(path: seq<string>, g: ConfigGroup, kind: Kind, rel: seq<string>)
    requires path != [] && rel != [] && (kind.GroupKind? || |rel| > 1)
    ensures Below(path, g, kind, rel) ==
            if rel[0] in g.groups then Below(path + [rel[0]], g.groups[rel[0]], kind, rel[1..]) else None
  {
  }

  /** What is filed for a place of the rebuilt tree. */
  ghost predicate RebuiltFrom(m: FlatMap, kind: Kind, full: seq<string>, it: Option<Item>)
    requires full != []
  {
    it.Some? ==>
      FiledAt(m, kind, full) && it.value.Shell() == FillShell(ORDERER_CAPABILITIES in m, m[Key(kind, full)].Shell())
  }

  /** The group itself, and its values and policies. */
  lemma RebuiltNearby(m: FlatMap, path: seq<string>, kind: Kind, rel: seq<string>)
    requires path != [] && Closed(m) && FiledAt(m, GroupKind, path)
    requires rel == [] || (|rel| == 1 && !kind.GroupKind?)
    ensures Rebuild(PathString(path), m).Some?
    ensures RebuiltFrom(m, kind, path + rel, Below(path, Rebuild(PathString(path), m).value, kind, rel))
  {
    hide LongKeys, Closed, Key, PathString, Rebuild;
    RebuiltGroup(m, path);
    assert path + [] == path;
    assert rel != [] ==> rel == [rel[0]];
  }

  /** Every element of a rebuilt tree has the shell filed under its key, back-fill aside. */
  lemma {:induction false} RebuiltElement(m: FlatMap, path: seq<string>, kind: Kind, rel: seq<string>)
    requires path != [] && Closed(m) && FiledAt(m, GroupKind, path)
    ensures Rebuild(PathString(path), m).Some?
    ensures RebuiltFrom(m, kind, path + rel, Below(path, Rebuild(PathString(path), m).value, kind, rel))
    decreases |rel|
  {
    hide LongKeys, Closed, Key, PathString, Rebuild, RebuiltFrom, Below;
    RebuiltGroup(m, path);
    if rel == [] || (|rel| == 1 && !kind.GroupKind?) {
      RebuiltNearby(m, path, kind, rel);
    } else {
      BelowUnfolds(path, Rebuild(PathString(path), m).value, kind, rel);
      if rel[0] in Rebuild(PathString(path), m).value.groups {
        RebuiltElement(m, path + [rel[0]], kind, rel[1..]);
        assert path + rel == (path + [rel[0]]) + rel[1..];
      } else {
        NothingRebuilt(m, kind, path + rel);
      }
    }
  }

  lemma NothingRebuilt(m: FlatMap, kind: Kind, full: seq<string>)
    requires full != []
    ensures RebuiltFrom(m, kind, full, None)
  {
  }

  // ----- Well-filed maps -----

  /** Every entry is filed under its own key, which is built from validated names. */
  ghost predicate Keyed(m: FlatMap) {
    forall s | s in m :: s == Key(m[s].Kind(), m[s].Full()) && ValidPath(m[s].Full())
  }

  /** Every child that a group entry of `m` lists has a valid name and a key in `keys`. */
  ghost predicate ListsWithin(m: FlatMap, keys: set<string>) {
    forall s, kind, k | s in m && m[s].GroupItem? && Lists(m[s].group, kind, k) ::
      ValidID(k) && Key(kind, m[s].Full() + [k]) in keys
  }

  lemma KeyedFiles(m: FlatMap, kind: Kind, full: seq<string>)
    requires Keyed(m) && ValidPath(full) && Key(kind, full) in m
    ensures FiledAt(m, kind, full)
  {
    hide Key;
    var it := m[Key(kind, full)];
    KeyInjective(kind, full, it.Kind(), it.Full());
  }

  lemma KeyedListsClosed(m: FlatMap)
    requires Keyed(m) && ListsWithin(m, m.Keys)
    ensures Closed(m)
  {
    hide Key;
    forall full, kind, k | FiledAt(m, GroupKind, full) && Lists(m[Key(GroupKind, full)].group, kind, k)
      ensures FiledAt(m, kind, full + [k])
    {
      KeyedFiles(m, kind, full + [k]);
    }
  }

  lemma FlatWellFiled(path: seq<string>, g: ConfigGroup)
    requires path != [] && ValidPath(path) && ValidKeys(g)
    ensures Keyed(Flat(path, g)) && ListsWithin(Flat(path, g), Flat(path, g).Keys)
  {
    hide Key, Flat, IsFlat;
    var m := Flat(path, g);
    forall s | s in m
      ensures s == Key(m[s].Kind(), m[s].Full()) && ValidPath(m[s].Full())
    {
      FlatEntry(path, g, s);
      BelowValid(path, g, m[s].Kind(), m[s].Full()[|path|..]);
      assert path + m[s].Full()[|path|..] == m[s].Full();
    }
    forall s, kind, k | s in m && m[s].GroupItem? && Lists(m[s].group, kind, k)
      ensures ValidID(k) && Key(kind, m[s].Full() + [k]) in m
    {
      FlatEntry(path, g, s);
      FlatChild(path, g, m[s].Full()[|path|..], kind, k);
      assert m[s].Full() + [k] == path + (m[s].Full()[|path|..] + [k]);
    }
  }

  lemma FlatChild(path: seq<string>, g: ConfigGroup, rel: seq<string>, kind: Kind, k: string)
    requires path != [] && ValidPath(path) && ValidKeys(g)
    requires var it := Below(path, g, GroupKind, rel); it.Some? && Lists(it.value.group, kind, k)
    ensures ValidID(k) && Key(kind, path + (rel + [k])) in Flat(path, g)
  {
    hide Key, ValidID;
    assert (rel + [k])[..|rel + [k]| - 1] == rel;
    BelowParent(path, g, kind, rel + [k]);
    FlatLookup(Flat(path, g), path, g, kind, rel + [k]);
    BelowValid(path, g, kind, rel + [k]);
    assert (path + (rel + [k]))[|path| + |rel|] == k;
  }

  // ----- Round trip -----

  /** `configMapToConfig`. */
  function ConfigMapToConfig(m: FlatMap, root: string): Option<ConfigGroup> {
    Rebuild(SLASH + root, m)
  }

  /** Does the tree configure the orderer capabilities? */
  predicate HasCapabilities(root: string, g: ConfigGroup) {
    At(root, g, ValueKind, ["Channel", "Orderer", "Capabilities"]).Some?
  }

  lemma CapabilitiesPath()
    ensures ValidPath(["Channel", "Orderer", "Capabilities"])
  {
  }

  lemma CapabilitiesPathString()
    ensures PathString(["Channel", "Orderer", "Capabilities"]) == SLASH + "Channel" + SLASH + "Orderer" + SLASH +
            "Capabilities"
  {
    hide PathString;
    RootPath("Channel");
    PathStringSnoc(["Channel"], "Orderer");
    assert ["Channel"] + ["Orderer"] == ["Channel", "Orderer"];
    PathStringSnoc(["Channel", "Orderer"], "Capabilities");
    assert ["Channel", "Orderer"] + ["Capabilities"] == ["Channel", "Orderer", "Capabilities"];
  }

  lemma CapabilitiesKey()
    ensures ORDERER_CAPABILITIES == Key(ValueKind, ["Channel", "Orderer", "Capabilities"])
  {
    CapabilitiesPathString();
    hide PathString;
    ChannelLiteral();
    OrdererLiteral();
    CapabilitiesLiteral();
  }

  lemma ChannelLiteral()
    ensures SLASH + "Channel" + SLASH == "/Channel/"
  {
  }

  lemma OrdererLiteral()
    ensures "/Channel/" + "Orderer" + SLASH == "/Channel/Orderer/"
  {
  }

  lemma CapabilitiesLiteral()
    ensures ORDERER_CAPABILITIES == VALUE_PREFIX + ("/Channel/Orderer/" + "Capabilities")
  {
    assert "/Channel/Orderer/" + "Capabilities" == "/Channel/Orderer/Capabilities";
  }

  lemma FlatHasCapabilities(root: string, g: ConfigGroup)
    requires ValidID(root) && ValidKeys(g)
    ensures ORDERER_CAPABILITIES in Flat([root], g) <==> HasCapabilities(root, g)
  {
    hide Key, ValidID, IsFlat, Flat;
    CapabilitiesKey();
    CapabilitiesPath();
    var full := ["Channel", "Orderer", "Capabilities"];
    if HasCapabilities(root, g) {
      FlatLookup(Flat([root], g), [root], g, ValueKind, full[1..]);
      assert [root] + full[1..] == full;
    }
    if ORDERER_CAPABILITIES in Flat([root], g) {
      FlatWellFiled([root], g);
      KeyedFiles(Flat([root], g), ValueKind, full);
      FlatEntry([root], g, ORDERER_CAPABILITIES);
    }
  }

  /** `m` files every element of the tree at `path`. */
  ghost predicate HoldsTree(m: FlatMap, path: seq<string>, g: ConfigGroup)
    requires path != []
  {
    forall kind, rel :: Below(path, g, kind, rel).Some? ==>
      FiledAt(m, kind, path + rel) && m[Key(kind, path + rel)] == Below(path, g, kind, rel).value
  }

  lemma HoldsParts(m: FlatMap, path: seq<string>, g: ConfigGroup)
    requires path != [] && HoldsTree(m, path, g)
    ensures FiledAt(m, GroupKind, path) && m[Key(GroupKind, path)].group == g
    ensures forall k | k in g.values ::
              FiledAt(m, ValueKind, path + [k]) && m[Key(ValueKind, path + [k])].value == g.values[k]
    ensures forall k | k in g.policies ::
              FiledAt(m, PolicyKind, path + [k]) && m[Key(PolicyKind, path + [k])].policy == g.policies[k]
  {
    hide Key;
    assert Below(path, g, GroupKind, []).Some?;
    assert path + [] == path;
    assert forall k | k in g.values :: Below(path, g, ValueKind, [k]).Some?;
    assert forall k | k in g.policies :: Below(path, g, PolicyKind, [k]).Some?;
  }

  lemma HoldsChild(m: FlatMap, path: seq<string>, g: ConfigGroup, k: string)
    requires path != [] && HoldsTree(m, path, g) && k in g.groups
    ensures HoldsTree(m, path + [k], g.groups[k])
  {
    hide Key;
    forall kind, rel | Below(path + [k], g.groups[k], kind, rel).Some?
      ensures FiledAt(m, kind, path + [k] + rel)
      ensures m[Key(kind, path + [k] + rel)] == Below(path + [k], g.groups[k], kind, rel).value
    {
      BelowStep(path, g, k, kind, rel);
      assert path + ([k] + rel) == path + [k] + rel;
    }
  }

  /** A map that files every element of a tree rebuilds to that tree, back-filled. */
  lemma {:induction false} RebuildOfTree(m: FlatMap, path: seq<string>, g: ConfigGroup)
    requires path != [] && Closed(m) && HoldsTree(m, path, g)
    ensures Rebuild(PathString(path), m) == Some(BackFill(ORDERER_CAPABILITIES in m, g))
    decreases g
  {
    hide Key, Closed, PathString, Rebuild, HoldsTree, FiledAt, FillValue, FillPolicy;
    HoldsParts(m, path, g);
    RebuiltGroup(m, path);
    var fix, g' := ORDERER_CAPABILITIES in m, Rebuild(PathString(path), m).value;
    forall k | k in g.groups
      ensures g'.groups[k] == BackFill(fix, g.groups[k])
    {
      HoldsChild(m, path, g, k);
      RebuildOfTree(m, path + [k], g.groups[k]);
    }
    assert g'.groups == BackFill(fix, g).groups;
    assert g'.values == BackFill(fix, g).values;
    assert g'.policies == BackFill(fix, g).policies;
  }

  lemma BelowStep(path: seq<string>, g: ConfigGroup, k: string, kind: Kind, rel: seq<string>)
    requires path != [] && k in g.groups
    requires Below(path + [k], g.groups[k], kind, rel).Some?
    ensures Below(path, g, kind, [k] + rel) == Below(path + [k], g.groups[k], kind, rel)
  {
    assert ([k] + rel)[1..] == rel;
    assert rel == [] ==> kind.GroupKind?;
  }

  /** `configMapToConfig(mapConfig(g))` is `g` with empty mod policies filled in exactly when
      the orderer capabilities are configured. */
  lemma RoundTrip(root: string, g: ConfigGroup)
    requires ValidID(root) && ValidKeys(g)
    ensures ConfigMapToConfig(Flat([root], g), root) == Some(BackFill(HasCapabilities(root, g), g))
  {
    hide Key, ValidID, IsFlat, Flat, Rebuild;
    var m := Flat([root], g);
    FlatWellFiled([root], g);
    KeyedListsClosed(m);
    FlatHasCapabilities(root, g);
    assert HoldsTree(m, [root], g) by {
      forall kind, rel | Below([root], g, kind, rel).Some?
        ensures FiledAt(m, kind, [root] + rel) && m[Key(kind, [root] + rel)] == Below([root], g, kind, rel).value
      {
        FlatLookup(m, [root], g, kind, rel);
      }
    }
    RebuildOfTree(m, [root], g);
    RootPath(root);
  }

  lemma RootPath(root: string)
    ensures PathString([root]) == SLASH + root
  {
    assert PathString([]) == "";
    PathStringSnoc([], root);
    assert [] + [root] == [root];
  }

  lemma {:induction false} BackFillTwice(fix: bool, g: ConfigGroup)
    ensures BackFill(fix, BackFill(fix, g)) == BackFill(fix, g)
  {
    var b := BackFill(fix, g);
    var bb := BackFill(fix, b);
    forall k | k in g.groups
      ensures bb.groups[k] == b.groups[k]
    {
      BackFillTwice(fix, g.groups[k]);
    }
    assert bb.groups == b.groups;
    assert bb.values == b.values;
    assert bb.policies == b.policies;
  }

  lemma BackFillParts(fix: bool, g: ConfigGroup)
    ensures BackFill(fix, g).groups.Keys == g.groups.Keys
    ensures BackFill(fix, g).values.Keys == g.values.Keys && BackFill(fix, g).policies.Keys == g.policies.Keys
    ensures forall k | k in g.groups :: BackFill(fix, g).groups[k] == BackFill(fix, g.groups[k])
  {
    hide Fill, FillValue, FillPolicy;
  }

  lemma {:induction false} BackFillKeepsKeys(fix: bool, g: ConfigGroup)
    ensures ValidKeys(BackFill(fix, g)) <==> ValidKeys(g)
  {
    BackFillParts(fix, g);
    hide ValidID, BackFill;
    forall k | k in g.groups
      ensures ValidKeys(BackFill(fix, g).groups[k]) <==> ValidKeys(g.groups[k])
    {
      BackFillKeepsKeys(fix, g.groups[k]);
    }
  }

  lemma CapabilitiesInTree(root: string, g: ConfigGroup)
    ensures HasCapabilities(root, g) <==>
            root == "Channel" && "Orderer" in g.groups && "Capabilities" in g.groups["Orderer"].values
  {
    var rel := ["Orderer", "Capabilities"];
    assert ["Channel", "Orderer", "Capabilities"][1..] == rel;
    assert rel[1..] == ["Capabilities"];
    if "Orderer" in g.groups {
      assert Below([root], g, ValueKind, rel) ==
             Below([root] + ["Orderer"], g.groups["Orderer"], ValueKind, ["Capabilities"]);
    }
  }

  /** The second round trip is the identity. */
  lemma RoundTripTwice(root: string, g: ConfigGroup)
    requires ValidID(root) && ValidKeys(g)
    ensures var once := BackFill(HasCapabilities(root, g), g);
            && ValidKeys(once)
            && ConfigMapToConfig(Flat([root], once), root) == Some(once)
  {
    hide ValidID, ValidKeys, Flat, Rebuild, ConfigMapToConfig, HasCapabilities, Fill;
    var fix := HasCapabilities(root, g);
    var once := BackFill(fix, g);
    BackFillTwice(fix, g);
    BackFillKeepsKeys(fix, g);
    RoundTrip(root, once);
    CapabilitiesInTree(root, g);
    CapabilitiesInTree(root, once);
  }
}
