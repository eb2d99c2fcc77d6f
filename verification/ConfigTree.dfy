/** The channel configuration tree and the keys under which its elements are filed
    (common/configtx/compare.go, and the key scheme of common/configtx/configmap.go). */
module ConfigTree {
  import opened Basics

  datatype ConfigValue = ConfigValue(version: Uint64, modPolicy: string, value: Bytes)

  datatype PolicyBlob = PolicyBlob(kind: int, value: Bytes)

  datatype ConfigPolicy = ConfigPolicy(version: Uint64, modPolicy: string, policy: Option<PolicyBlob>)

  datatype ConfigGroup = ConfigGroup(
    version: Uint64,
    modPolicy: string,
    groups: map<string, ConfigGroup>,
    values: map<string, ConfigValue>,
    policies: map<string, ConfigPolicy>)

  datatype Kind = GroupKind | ValueKind | PolicyKind

  /** What one element holds itself, without the contents of its children. */
  datatype Shell =
    | GroupShell(version: Uint64, modPolicy: string,
                 groups: set<string>, values: set<string>, policies: set<string>)
    | ValueShell(version: Uint64, modPolicy: string, value: Bytes)
    | PolicyShell(version: Uint64, modPolicy: string, policy: Option<PolicyBlob>)

  /** The source's `comparable`: an element together with its name and the names of its ancestors. */
  datatype Item =
    | GroupItem(path: seq<string>, key: string, group: ConfigGroup)
    | ValueItem(path: seq<string>, key: string, value: ConfigValue)
    | PolicyItem(path: seq<string>, key: string, policy: ConfigPolicy)
  {
    function Kind(): Kind {
      match this
      case GroupItem(_, _, _) => GroupKind
      case ValueItem(_, _, _) => ValueKind
      case PolicyItem(_, _, _) => PolicyKind
    }

    function Full(): seq<string> { path + [key] }

    function Version(): Uint64 {
      match this
      case GroupItem(_, _, g) => g.version
      case ValueItem(_, _, v) => v.version
      case PolicyItem(_, _, p) => p.version
    }

    function ModPolicy(): string {
      match this
      case GroupItem(_, _, g) => g.modPolicy
      case ValueItem(_, _, v) => v.modPolicy
      case PolicyItem(_, _, p) => p.modPolicy
    }

    function Shell(): Shell {
      match this
      case GroupItem(_, _, g) =>
        GroupShell(g.version, g.modPolicy, g.groups.Keys, g.values.Keys, g.policies.Keys)
      case ValueItem(_, _, v) => ValueShell(v.version, v.modPolicy, v.value)
      case PolicyItem(_, _, p) => PolicyShell(p.version, p.modPolicy, p.policy)
    }

    /** `comparable.equals`. */
    predicate Equals(other: Item) {
      match this
      case GroupItem(_, _, g) => other.GroupItem? && EqualConfigGroup(g, other.group)
      case ValueItem(_, _, v) => other.ValueItem? && v == other.value
      case PolicyItem(_, _, p) => other.PolicyItem? && p == other.policy
    }
  }

  /** `subsetOfGroups`, `subsetOfPolicies` and `subsetOfValues`, size shortcuts included. */
  predicate SubsetOf<T>(inner: map<string, T>, outer: map<string, T>) {
    if |inner| == 0 then true
    else if |inner| > |outer| then false
    else forall k | k in inner :: k in outer
  }

  /** `equalConfigGroup`. */
  predicate EqualConfigGroup(a: ConfigGroup, b: ConfigGroup) {
    && a.version == b.version && a.modPolicy == b.modPolicy
    && SubsetOf(a.groups, b.groups) && SubsetOf(b.groups, a.groups)
    && SubsetOf(a.policies, b.policies) && SubsetOf(b.policies, a.policies)
    && SubsetOf(a.values, b.values) && SubsetOf(b.values, a.values)
  }

  lemma SubsetOfMeansKeys<T>(inner: map<string, T>, outer: map<string, T>)
    ensures SubsetOf(inner, outer) <==> inner.Keys <= outer.Keys
  {
    if inner.Keys <= outer.Keys && !SubsetOf(inner, outer) {
      SubsetSize(inner.Keys, outer.Keys);
    }
  }

  /** The source's element comparison is exactly equality of shells. */
  lemma EqualsIsShellEquality(a: Item, b: Item)
    ensures a.Equals(b) <==> a.Shell() == b.Shell()
  {
    if a.GroupItem? && b.GroupItem? {
      SubsetOfMeansKeys(a.group.groups, b.group.groups);
      SubsetOfMeansKeys(b.group.groups, a.group.groups);
      SubsetOfMeansKeys(a.group.values, b.group.values);
      SubsetOfMeansKeys(b.group.values, a.group.values);
      SubsetOfMeansKeys(a.group.policies, b.group.policies);
      SubsetOfMeansKeys(b.group.policies, a.group.policies);
    }
  }

  // ----- Element names -----

  const MAX_LENGTH := 249

  predicate AllowedChar(c: char) {
    'a' <= c <= 'z' || 'A' <= c <= 'Z' || '0' <= c <= '9' || c == '.' || c == '-'
  }

  /** `validateConfigID`. */
  predicate ValidID(id: string) {
    && 0 < |id| <= MAX_LENGTH
    && id != "." && id != ".."
    && forall i | 0 <= i < |id| :: AllowedChar(id[i])
  }

  /** `validateModPolicy`. */
  predicate ValidModPolicy(modPolicy: string) {
    && modPolicy != ""
    && var trimmed := if modPolicy[0] == '/' then modPolicy[1..] else modPolicy;
       forall part | part in Split(trimmed, '/') :: ValidID(part)
  }

  predicate ValidPath(path: seq<string>) {
    forall i | 0 <= i < |path| :: ValidID(path[i])
  }

  /** Every name below this group passes `validateConfigID`. */
  predicate ValidKeys(g: ConfigGroup)
    decreases g
  {
    && (forall k | k in g.groups :: ValidID(k) && ValidKeys(g.groups[k]))
    && (forall k | k in g.values :: ValidID(k))
    && (forall k | k in g.policies :: ValidID(k))
  }

  // ----- Keys of the flat map -----

  const GROUP_PREFIX := "[Group]  "
  const VALUE_PREFIX := "[Value]  "
  const POLICY_PREFIX := "[Policy] "

  function Prefix(kind: Kind): string {
    match kind
    case GroupKind => GROUP_PREFIX
    case ValueKind => VALUE_PREFIX
    case PolicyKind => POLICY_PREFIX
  }

  /** `/a/b/c`. */
  function PathString(path: seq<string>): string {
    if path == [] then "" else PathString(path[..|path| - 1]) + SLASH + path[|path| - 1]
  }

  function Key(kind: Kind, full: seq<string>): string {
    Prefix(kind) + PathString(full)
  }

  /** The key as `addToMap` builds it. */
  function FqPath(it: Item): string {
    if |it.path| == 0 then Prefix(it.Kind()) + SLASH + it.key
    else Prefix(it.Kind()) + SLASH + Join(it.path, SLASH) + SLASH + it.key
  }

  lemma {:induction false} PathStringIsJoin(path: seq<string>)
    requires path != []
    ensures PathString(path) == SLASH + Join(path, SLASH)
  {
    if |path| > 1 {
      PathStringIsJoin(path[..|path| - 1]);
    }
  }

  lemma PathStringSnoc(path: seq<string>, k: string)
    ensures PathString(path + [k]) == PathString(path) + SLASH + k
  {
    assert (path + [k])[..|path|] == path;
  }

  lemma FqPathIsKey(it: Item)
    ensures FqPath(it) == Key(it.Kind(), it.Full())
  {
    PathStringSnoc(it.path, it.key);
    if it.path != [] {
      PathStringIsJoin(it.path);
    } else {
      assert PathString(it.path) == "";
    }
  }

  lemma {:induction false} PathStringInjective(p: seq<string>, q: seq<string>)
    requires ValidPath(p) && ValidPath(q)
    requires PathString(p) == PathString(q)
    ensures p == q
  {
    if p != [] && q != [] {
      var n, m := |p| - 1, |q| - 1;
      SplitAtLast(PathString(p[..n]), p[n], PathString(q[..m]), q[m], '/');
      PathStringInjective(p[..n], q[..m]);
      assert p == p[..n] + [p[n]] && q == q[..m] + [q[m]];
    }
  }

  /** Two elements share a key only when they share kind and path: validated names
      contain no separator, and no kind prefix begins another. */
  lemma KeyInjective(k1: Kind, p1: seq<string>, k2: Kind, p2: seq<string>)
    requires ValidPath(p1) && ValidPath(p2)
    requires Key(k1, p1) == Key(k2, p2)
    ensures k1 == k2 && p1 == p2
  {
    var a, b := Key(k1, p1), Key(k2, p2);
    assert a[..9] == Prefix(k1) && b[..9] == Prefix(k2);
    assert a[1] == Prefix(k1)[1] && b[1] == Prefix(k2)[1];
    assert a[9..] == PathString(p1) && b[9..] == PathString(p2);
    PathStringInjective(p1, p2);
  }

  // ----- Elements of a tree -----

  /** The element of kind `kind` found by walking `rel` down from the group `g` that sits at `path`. */
  function Below(path: seq<string>, g: ConfigGroup, kind: Kind, rel: seq<string>): (r: Option<Item>)
    requires path != []
    ensures r.Some? ==> r.value.Kind() == kind && r.value.Full() == path + rel
    decreases g
  {
    if rel == [] then
      if kind.GroupKind? then Some(GroupItem(path[..|path| - 1], path[|path| - 1], g)) else None
    else if |rel| == 1 && kind.ValueKind? then
      if rel[0] in g.values then Some(ValueItem(path, rel[0], g.values[rel[0]])) else None
    else if |rel| == 1 && kind.PolicyKind? then
      if rel[0] in g.policies then Some(PolicyItem(path, rel[0], g.policies[rel[0]])) else None
    else if rel[0] in g.groups then
      assert path + rel == (path + [rel[0]]) + rel[1..];
      Below(path + [rel[0]], g.groups[rel[0]], kind, rel[1..])
    else None
  }

  /** The element at a full path of the tree whose root group is named `root`. */
  function At(root: string, g: ConfigGroup, kind: Kind, full: seq<string>): (r: Option<Item>)
    ensures r.Some? ==> r.value.Kind() == kind && r.value.Full() == full
  {
    if full != [] && full[0] == root then
      assert full == [root] + full[1..];
      Below([root], g, kind, full[1..])
    else None
  }

  /** Does a group list a child of this kind and name? */
  predicate Lists(g: ConfigGroup, kind: Kind, k: string) {
    match kind
    case GroupKind => k in g.groups
    case ValueKind => k in g.values
    case PolicyKind => k in g.policies
  }

  /** An element is in the tree exactly when its parent group is and lists it. */
  lemma {:induction false} BelowParent(path: seq<string>, g: ConfigGroup, kind: Kind, rel: seq<string>)
    requires path != [] && rel != []
    ensures var parent := Below(path, g, GroupKind, rel[..|rel| - 1]);
            Below(path, g, kind, rel).Some? <==>
            parent.Some? && Lists(parent.value.group, kind, rel[|rel| - 1])
    decreases g
  {
    if |rel| > 1 {
      assert rel[..|rel| - 1][1..] == rel[1..][..|rel[1..]| - 1];
      if rel[0] in g.groups {
        BelowParent(path + [rel[0]], g.groups[rel[0]], kind, rel[1..]);
      }
    }
  }

  lemma AtParent(root: string, g: ConfigGroup, kind: Kind, full: seq<string>)
    requires |full| > 1
    ensures var parent := At(root, g, GroupKind, full[..|full| - 1]);
            At(root, g, kind, full).Some? <==>
            parent.Some? && Lists(parent.value.group, kind, full[|full| - 1])
  {
    if full[0] == root {
      BelowParent([root], g, kind, full[1..]);
      assert full[1..][..|full[1..]| - 1] == full[..|full| - 1][1..];
    }
  }

  /** Every prefix of an element's path is a group of the tree. */
  lemma {:induction false} AtAncestor(root: string, g: ConfigGroup, kind: Kind, full: seq<string>, i: nat)
    requires At(root, g, kind, full).Some?
    requires 0 < i < |full|
    ensures At(root, g, GroupKind, full[..i]).Some?
    decreases |full|
  {
    AtParent(root, g, kind, full);
    var up := full[..|full| - 1];
    if i == |up| {
    } else {
      AtAncestor(root, g, GroupKind, up, i);
      assert up[..i] == full[..i];
    }
  }

  /** The tree has a group at this place that lists the child. */
  predicate ListsAt(root: string, g: ConfigGroup, full: seq<string>, kind: Kind, k: string) {
    var at := At(root, g, GroupKind, full);
    at.Some? && Lists(at.value.group, kind, k)
  }

  /** Both trees have a group at this place. */
  predicate GroupAtBoth(root: string, a: ConfigGroup, b: ConfigGroup, full: seq<string>) {
    At(root, a, GroupKind, full).Some? && At(root, b, GroupKind, full).Some?
  }

  /** The place next to the deepest common ancestor is in one of the trees only. */
  lemma NextStepDiffers(root: string, a: ConfigGroup, b: ConfigGroup, kind: Kind, full: seq<string>, i: nat)
    requires At(root, a, kind, full).Some? != At(root, b, kind, full).Some?
    requires 0 < i && i + 1 < |full| && !GroupAtBoth(root, a, b, full[..i + 1])
    ensures At(root, a, GroupKind, full[..i + 1]).Some? != At(root, b, GroupKind, full[..i + 1]).Some?
  {
    hide At;
    if At(root, a, kind, full).Some? {
      AtAncestor(root, a, kind, full, i + 1);
    } else {
      AtAncestor(root, b, kind, full, i + 1);
    }
  }

  /** The deepest ancestor that two trees have in common lists the next step in one of them only. */
  lemma DeepestListsDiffer(root: string, a: ConfigGroup, b: ConfigGroup, kind: Kind, full: seq<string>, i: nat)
    requires At(root, a, kind, full).Some? != At(root, b, kind, full).Some?
    requires 0 < i < |full| && GroupAtBoth(root, a, b, full[..i])
    requires forall j | i < j < |full| :: !GroupAtBoth(root, a, b, full[..j])
    ensures var k := if i + 1 == |full| then kind else GroupKind;
            ListsAt(root, a, full[..i], k, full[i]) != ListsAt(root, b, full[..i], k, full[i])
  {
    var k := if i + 1 == |full| then kind else GroupKind;
    var step := full[..i + 1];
    assert step[..|step| - 1] == full[..i] && step[|step| - 1] == full[i];
    assert i + 1 == |full| ==> step == full;
    if i + 1 < |full| { NextStepDiffers(root, a, b, kind, full, i); }
    hide At;
    AtParent(root, a, k, step);
    AtParent(root, b, k, step);
  }

  /** With validated names, every path of the tree is valid. */
  lemma {:induction false} BelowValid(path: seq<string>, g: ConfigGroup, kind: Kind, rel: seq<string>)
    requires path != [] && ValidPath(path) && ValidKeys(g)
    requires Below(path, g, kind, rel).Some?
    ensures ValidPath(path + rel)
    decreases g
  {
    if |rel| == 1 && !kind.GroupKind? {
    } else if rel != [] {
      BelowValid(path + [rel[0]], g.groups[rel[0]], kind, rel[1..]);
      assert path + rel == (path + [rel[0]]) + rel[1..];
    }
  }

  lemma AtValid(root: string, g: ConfigGroup, kind: Kind, full: seq<string>)
    requires ValidID(root) && ValidKeys(g)
    requires At(root, g, kind, full).Some?
    ensures ValidPath(full)
  {
    BelowValid([root], g, kind, full[1..]);
    assert full == [root] + full[1..];
  }
}
