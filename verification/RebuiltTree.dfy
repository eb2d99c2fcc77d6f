/** Flattening and rebuilding a configuration tree, element by element
    (common/configtx/configmap.go). */
module RebuiltTree {
  import opened Basics
  import opened ConfigTree
  import opened ConfigMap

  /** The capabilities of the orderer group of a channel configuration. */
  predicate CapabilitiesOn(root: string, g: ConfigGroup) {
    root == "Channel" && "Orderer" in g.groups && "Capabilities" in g.groups["Orderer"].values
  }

  /** Version, content and child names are the same; so is the mod policy, unless it is empty and to be filled. */
  predicate SameButFilled(before: Item, after: Item, fill: bool) {
    var filled := (modPolicy: string) => if fill && modPolicy == "" then "Admins" else modPolicy;
    match (before, after)
    case (GroupItem(_, _, g), GroupItem(_, _, g')) =>
      && g'.version == g.version && g'.modPolicy == filled(g.modPolicy)
      && g'.groups.Keys == g.groups.Keys && g'.values.Keys == g.values.Keys && g'.policies.Keys == g.policies.Keys
    case (ValueItem(_, _, v), ValueItem(_, _, v')) =>
      v'.version == v.version && v'.modPolicy == filled(v.modPolicy) && v'.value == v.value
    case (PolicyItem(_, _, p), PolicyItem(_, _, p')) =>
      p'.version == p.version && p'.modPolicy == filled(p.modPolicy) && p'.policy == p.policy
    case _ => false
  }

  /** The element that stands at each place of the rebuilt tree. */
  lemma RebuiltElements(root: string, g: ConfigGroup, kind: Kind, full: seq<string>)
    requires ValidID(root) && ValidKeys(g)
    ensures ConfigMapToConfig(Flat([root], g), root).Some?
    ensures var before := At(root, g, kind, full);
            var after := At(root, ConfigMapToConfig(Flat([root], g), root).value, kind, full);
            if before.None? then after.None?
            else after.Some? && SameButFilled(before.value, after.value, CapabilitiesOn(root, g))
  {
    hide SameButFilled, ValidID, ValidKeys, BackFill, Below, Rebuild;
    RoundTrip(root, g);
    CapabilitiesInTree(root, g);
    if full != [] && full[0] == root { FilledBelow(CapabilitiesOn(root, g), [root], g, kind, full[1..]); }
  }

  /** With the capabilities configured, no element of the rebuilt tree lacks a mod policy. */
  lemma NoEmptyModPolicy(root: string, g: ConfigGroup, kind: Kind, full: seq<string>)
    requires ValidID(root) && ValidKeys(g) && CapabilitiesOn(root, g)
    ensures var r := ConfigMapToConfig(Flat([root], g), root);
            r.Some? && (At(root, r.value, kind, full).Some? ==> At(root, r.value, kind, full).value.ModPolicy() != "")
  {
    hide ConfigMapToConfig, At, ValidID, ValidKeys;
    RebuiltElements(root, g, kind, full);
  }

  lemma {:induction false} FilledBelow(fill: bool, path: seq<string>, g: ConfigGroup, kind: Kind, rel: seq<string>)
    requires path != []
    ensures var before, after := Below(path, g, kind, rel), Below(path, BackFill(fill, g), kind, rel);
            if before.None? then after.None? else after.Some? && SameButFilled(before.value, after.value, fill)
    decreases |rel|
  {
    hide SameButFilled, BackFill, Below;
    if rel == [] || (|rel| == 1 && !kind.GroupKind?) {
      FilledNearby(fill, path, g, kind, rel);
    } else {
      BelowUnfolds(path, g, kind, rel);
      BelowUnfolds(path, BackFill(fill, g), kind, rel);
      BackFillParts(fill, g);
      if rel[0] in g.groups { FilledBelow(fill, path + [rel[0]], g.groups[rel[0]], kind, rel[1..]); }
    }
  }

  lemma FilledNearby(fill: bool, path: seq<string>, g: ConfigGroup, kind: Kind, rel: seq<string>)
    requires path != [] && (rel == [] || (|rel| == 1 && !kind.GroupKind?))
    ensures var before, after := Below(path, g, kind, rel), Below(path, BackFill(fill, g), kind, rel);
            if before.None? then after.None? else after.Some? && SameButFilled(before.value, after.value, fill)
  {
    BackFillParts(fill, g);
  }

  // ----- When an arbitrary map can be rebuilt -----

  /** The map has an element of this kind under the key of the path. */
  predicate Has(m: FlatMap, kind: Kind, path: string) {
    Prefix(kind) + path in m && m[Prefix(kind) + path].Kind() == kind
  }

  /** The groups on the way from `path` list one another, and the last one lists this. */
  predicate Asked(m: FlatMap, path: string, kind: Kind, rel: seq<string>)
    decreases |rel|
  {
    if rel == [] then kind.GroupKind?
    else
      && Has(m, GroupKind, path)
      && var g := m[GROUP_PREFIX + path].group;
         if |rel| == 1 && !kind.GroupKind? then Lists(g, kind, rel[0])
         else rel[0] in g.groups && Asked(m, path + SLASH + rel[0], kind, rel[1..])
  }

  ghost predicate Answered(m: FlatMap, path: string, kind: Kind, rel: seq<string>) {
    Asked(m, path, kind, rel) ==> Has(m, kind, path + PathString(rel))
  }

  /** Rebuilding any map fails exactly when something that is listed on the way is missing or of the wrong kind. */
  lemma {:induction false} RebuildsExactly(path: string, m: FlatMap)
    ensures Rebuild(path, m).Some? <==> forall kind, rel :: Answered(m, path, kind, rel)
    decreases LongKeys(m, |path| + 9)
  {
    hide Rebuild, Answered, LongKeys;
    if Rebuild(path, m).Some? {
      forall kind, rel
        ensures Answered(m, path, kind, rel)
      {
        RebuiltAnswers(path, m, kind, rel);
      }
    }
    if forall kind, rel :: Answered(m, path, kind, rel) {
      AnsweredNearby(path, m);
      LongerPath(path, m);
      forall k | k in m[GROUP_PREFIX + path].group.groups
        ensures Rebuild(path + SLASH + k, m).Some?
      {
        AnsweredBelow(path, m, k);
        RebuildsExactly(path + SLASH + k, m);
      }
      RebuildStep(path, m);
    }
  }

  /** One call of the recursion. */
  lemma RebuildStep(path: string, m: FlatMap)
    ensures Rebuild(path, m).Some? <==>
            && Has(m, GroupKind, path)
            && var g := m[GROUP_PREFIX + path].group;
               && (forall k | k in g.groups :: Rebuild(path + SLASH + k, m).Some?)
               && (forall k | k in g.values :: Has(m, ValueKind, path + SLASH + k))
               && (forall k | k in g.policies :: Has(m, PolicyKind, path + SLASH + k))
  {
    hide LongKeys, Assemble;
    assert FindItem(m, GroupKind, path).Ok? <==> Has(m, GroupKind, path);
    if Has(m, GroupKind, path) {
      var g := m[GROUP_PREFIX + path].group;
      assert ValuesAt(path, m, g).Some? <==> forall k | k in g.values :: Has(m, ValueKind, path + SLASH + k);
      assert PoliciesAt(path, m, g).Some? <==> forall k | k in g.policies :: Has(m, PolicyKind, path + SLASH + k);
    }
  }

  lemma PathStringHead(k: string, rel: seq<string>)
    ensures PathString([k] + rel) == SLASH + k + PathString(rel)
    decreases |rel|
  {
    if rel == [] {
      assert [k] + rel == [k];
      RootPath(k);
    } else {
      var n := |rel| - 1;
      assert ([k] + rel)[..n + 1] == [k] + rel[..n];
      PathStringHead(k, rel[..n]);
    }
  }

  lemma {:induction false} RebuiltAnswers(path: string, m: FlatMap, kind: Kind, rel: seq<string>)
    requires Rebuild(path, m).Some?
    ensures Answered(m, path, kind, rel)
    decreases |rel|
  {
    hide Rebuild;
    RebuildStep(path, m);
    if rel == [] {
      assert path + PathString(rel) == path;
    } else {
      var g := m[GROUP_PREFIX + path].group;
      assert rel == [rel[0]] + rel[1..];
      PathStringHead(rel[0], rel[1..]);
      var next := path + SLASH + rel[0];
      assert path + PathString(rel) == next + PathString(rel[1..]);
      if |rel| == 1 && !kind.GroupKind? {
        assert next + PathString(rel[1..]) == next;
      } else if rel[0] in g.groups {
        RebuiltAnswers(next, m, kind, rel[1..]);
      }
    }
  }

  lemma AnsweredNearby(path: string, m: FlatMap)
    requires forall kind, rel :: Answered(m, path, kind, rel)
    ensures Has(m, GroupKind, path)
    ensures var g := m[GROUP_PREFIX + path].group;
            && (forall k | k in g.values :: Has(m, ValueKind, path + SLASH + k))
            && (forall k | k in g.policies :: Has(m, PolicyKind, path + SLASH + k))
  {
    assert Answered(m, path, GroupKind, []);
    assert path + PathString([]) == path;
    var g := m[GROUP_PREFIX + path].group;
    forall kind, k | Lists(g, kind, k) && !kind.GroupKind?
      ensures Has(m, kind, path + SLASH + k)
    {
      assert Answered(m, path, kind, [k]);
      RootPath(k);
      assert path + (SLASH + k) == path + SLASH + k;
    }
    assert forall k | k in g.values :: Lists(g, ValueKind, k);
    assert forall k | k in g.policies :: Lists(g, PolicyKind, k);
  }

  lemma AnsweredBelow(path: string, m: FlatMap, k: string)
    requires Has(m, GroupKind, path) && k in m[GROUP_PREFIX + path].group.groups
    requires forall kind, rel :: Answered(m, path, kind, rel)
    ensures forall kind, rel :: Answered(m, path + SLASH + k, kind, rel)
  {
    forall kind, rel
      ensures Answered(m, path + SLASH + k, kind, rel)
    {
      assert Answered(m, path, kind, [k] + rel);
      assert ([k] + rel)[1..] == rel;
      PathStringHead(k, rel);
      assert path + (SLASH + k + PathString(rel)) == path + SLASH + k + PathString(rel);
      assert rel == [] && !kind.GroupKind? ==> !Asked(m, path + SLASH + k, kind, rel);
    }
  }
}
