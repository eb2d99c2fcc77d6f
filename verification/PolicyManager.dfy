/** The policy manager tree and its flattened policy map (common/policies/policy.go). */
module PolicyManager {
  import opened Basics
  import opened ConfigTree

  datatype Manager<P> = Manager(path: string, policies: map<string, P>, managers: map<string, Manager<P>>)

  /** What a lookup comes to. Slicing past the end of the id panics. */
  datatype Lookup<+P> = Found(policy: P) | Missing | Panics

  /** `ManagerImpl.Manager`. */
  function SubManager<P>(m: Manager<P>, path: seq<string>): Option<Manager<P>>
    decreases |path|
  {
    if path == [] then Some(m)
    else if path[0] !in m.managers then None
    else SubManager(m.managers[path[0]], path[1..])
  }

  /** `ManagerImpl.GetPolicy`. */
  function GetPolicy<P>(m: Manager<P>, id: string): Lookup<P> {
    if id == "" then Missing
    else if id[0] == '/' then
      if !(SLASH + m.path <= id) then Missing
      else if |id| < 1 + |m.path| + 1 then Panics
      else FindPolicy(m, id[1 + |m.path| + 1..])
    else FindPolicy(m, id)
  }

  function FindPolicy<P>(m: Manager<P>, relpath: string): Lookup<P> {
    if relpath in m.policies then Found(m.policies[relpath]) else Missing
  }

  // ----- The flattened map -----

  /** The entry `key` is what the sub-manager `g` files under `q`. */
  ghost predicate Lifted<P>(managers: map<string, Manager<P>>, key: string, g: string, q: string, policy: P) {
    && g in managers && q in managers[g].policies
    && key == g + SLASH + q && policy == managers[g].policies[q]
  }

  ghost predicate FromBelow<P(!new)>(managers: map<string, Manager<P>>, key: string, policy: P) {
    exists g, q :: Lifted(managers, key, g, q, policy)
  }

  /** The policies of a group together with those of its sub-managers under prefixed names. A
      prefixed name wins over an equal name of the group's own. */
  ghost predicate Flattens<P(!new)>(policies: map<string, P>, own: map<string, P>, managers: map<string, Manager<P>>) {
    && (forall k | k in own :: k in policies)
    && (forall g, q | g in managers && q in managers[g].policies ::
          g + SLASH + q in policies && FromBelow(managers, g + SLASH + q, policies[g + SLASH + q]))
    && (forall k | k in policies :: FromBelow(managers, k, policies[k]) || (k in own && policies[k] == own[k]))
  }

  /** `own` are the policies that the group itself defines. */
  ghost predicate Holds<P(!new)>(m: Manager<P>, own: map<string, P>, root: ConfigGroup) {
    own.Keys == root.policies.Keys && Flattens(m.policies, own, m.managers)
  }

  /** `m` has the shape of a manager tree for this group. */
  ghost predicate Shaped<P(!new)>(m: Manager<P>, path: string, root: ConfigGroup)
    decreases root
  {
    && m.path == path
    && m.managers.Keys == root.groups.Keys
    && (forall k | k in root.groups :: Shaped(m.managers[k], path + SLASH + k, root.groups[k]))
    && exists own :: Holds(m, own, root)
  }

  /** The last two nested loops of `NewManagerImpl`. */
  method LiftPolicies<P(!new)>(own: map<string, P>, managers: map<string, Manager<P>>)
    returns (policies: map<string, P>)
    ensures Flattens(policies, own, managers)
  {
    policies := own;
    var groups := managers.Keys;
    while groups != {}
      invariant groups <= managers.Keys
      invariant forall k | k in own :: k in policies
      invariant forall g, q | g in managers && g !in groups && q in managers[g].policies ::
                  g + SLASH + q in policies && FromBelow(managers, g + SLASH + q, policies[g + SLASH + q])
      invariant forall k | k in policies ::
                  FromBelow(managers, k, policies[k]) || (k in own && policies[k] == own[k])
      decreases groups
    {
      var g :| g in groups;
      var names := managers[g].policies.Keys;
      while names != {}
        invariant names <= managers[g].policies.Keys
        invariant forall k | k in own :: k in policies
        invariant forall g', q | g' in managers && g' !in groups && q in managers[g'].policies ::
                    g' + SLASH + q in policies && FromBelow(managers, g' + SLASH + q, policies[g' + SLASH + q])
        invariant forall q | q in managers[g].policies && q !in names ::
                    g + SLASH + q in policies && FromBelow(managers, g + SLASH + q, policies[g + SLASH + q])
        invariant forall k | k in policies ::
                    FromBelow(managers, k, policies[k]) || (k in own && policies[k] == own[k])
        decreases names
      {
        var q :| q in names;
        assert Lifted(managers, g + SLASH + q, g, q, managers[g].policies[q]);
        policies := policies[g + SLASH + q := managers[g].policies[q]];
        names := names - {q};
      }
      groups := groups - {g};
    }
  }

  // ----- The flattened map agrees with the walk down the tree -----

  predicate NoSlash(s: string) { '/' !in s }

  /** No group or policy name of the tree contains the separator. */
  predicate SlashFree(root: ConfigGroup)
    decreases root
  {
    && (forall k | k in root.groups :: NoSlash(k) && SlashFree(root.groups[k]))
    && (forall k | k in root.policies :: NoSlash(k))
  }

  /** `g1/../gk/p`. */
  function RelativeId(groups: seq<string>, p: string): string {
    if groups == [] then p else groups[0] + SLASH + RelativeId(groups[1..], p)
  }

  lemma LiftedLookup<P(!new)>(m: Manager<P>, path: string, root: ConfigGroup, g: string, rest: string)
    requires Shaped(m, path, root) && SlashFree(root) && NoSlash(g)
    ensures FindPolicy(m, g + SLASH + rest) == if g in m.managers then FindPolicy(m.managers[g], rest) else Missing
  {
    var key := g + SLASH + rest;
    assert key[|g|] == '/';
    if key in m.policies {
      var g', q :| Lifted(m.managers, key, g', q, m.policies[key]);
      SplitAtFirst(g, rest, g', q, '/');
    }
  }

  /** `GetPolicy("g1/../gk/p")` is `Manager([g1..gk])` followed by `GetPolicy("p")`: it finds a policy
      exactly when the walk does, and the same one. */
  lemma {:induction false} FlatMapAgreesWithTree<P(!new)>(m: Manager<P>, path: string, root: ConfigGroup,
                                                          groups: seq<string>, p: string)
    requires Shaped(m, path, root) && SlashFree(root)
    requires p != "" && p[0] != '/' && (forall i | 0 <= i < |groups| :: NoSlash(groups[i]))
    requires groups != [] ==> groups[0] != ""
    ensures GetPolicy(m, RelativeId(groups, p)) ==
            match SubManager(m, groups)
            case Some(sub) => GetPolicy(sub, p)
            case None => Missing
  {
    hide Shaped, SlashFree;
    FindAgrees(m, path, root, groups, p);
    if groups != [] {
      assert RelativeId(groups, p)[0] == groups[0][0];
      assert groups[0][0] in groups[0];
    }
  }

  lemma {:induction false} FindAgrees<P(!new)>(m: Manager<P>, path: string, root: ConfigGroup,
                                               groups: seq<string>, p: string)
    requires Shaped(m, path, root) && SlashFree(root)
    requires forall i | 0 <= i < |groups| :: NoSlash(groups[i])
    ensures FindPolicy(m, RelativeId(groups, p)) ==
            match SubManager(m, groups)
            case Some(sub) => FindPolicy(sub, p)
            case None => Missing
    decreases |groups|
  {
    if groups != [] {
      LiftedLookup(m, path, root, groups[0], RelativeId(groups[1..], p));
      if groups[0] in m.managers {
        FindAgrees(m.managers[groups[0]], path + SLASH + groups[0], root.groups[groups[0]], groups[1..], p);
      }
    }
  }

  /** A manager reached by a walk carries the path of that walk. */
  lemma {:induction false} SubManagerPath<P(!new)>(m: Manager<P>, path: string, root: ConfigGroup,
                                                   groups: seq<string>, p: string)
    returns (sub: ConfigGroup)
    requires Shaped(m, path, root) && SlashFree(root) && SubManager(m, groups).Some?
    ensures var s := SubManager(m, groups).value;
            SlashFree(sub) && Shaped(s, s.path, sub) && s.path + SLASH + p == path + SLASH + RelativeId(groups, p)
    decreases |groups|
  {
    hide Flattens;
    if groups == [] {
      sub := root;
    } else {
      var g := groups[0];
      sub := SubManagerPath(m.managers[g], path + SLASH + g, root.groups[g], groups[1..], p);
      NestedPath(path, g, RelativeId(groups[1..], p));
    }
  }

  lemma NestedPath(path: string, g: string, rest: string)
    ensures (path + SLASH + g) + SLASH + rest == path + SLASH + (g + SLASH + rest)
  {
  }

  /** An absolute id resolves to the same policy from every manager on its path, and to none when the rest of
      the path does not exist. */
  lemma AbsoluteIdAgrees<P(!new)>(m: Manager<P>, path: string, root: ConfigGroup, groups: seq<string>, i: nat,
                                  p: string)
    requires Shaped(m, path, root) && SlashFree(root) && i <= |groups|
    requires p != "" && p[0] != '/' && (forall j | 0 <= j < |groups| :: NoSlash(groups[j]))
    requires SubManager(m, groups[..i]).Some?
    ensures GetPolicy(SubManager(m, groups[..i]).value, SLASH + path + SLASH + RelativeId(groups, p)) ==
            match SubManager(m, groups)
            case Some(end) => GetPolicy(end, p)
            case None => Missing
  {
    hide Shaped, SlashFree, SubManager, RelativeId, FindPolicy, GetPolicy;
    WalkSplits(m, groups, i);
    var on := SubManager(m, groups[..i]).value;
    var rel := RelativeId(groups[i..], p);
    var sub := SubManagerPath(m, path, root, groups[..i], rel);
    RelativeIdSplits(groups, i, p);
    assert SLASH + path + SLASH + RelativeId(groups, p) == SLASH + on.path + SLASH + rel by {
      Reassociate(path, RelativeId(groups, p));
      Reassociate(on.path, rel);
    }
    SeparatorIsNotChecked(on, rel, '/');
    FindAgrees(on, on.path, sub, groups[i..], p);
    if SubManager(m, groups).Some? { SimpleName(SubManager(m, groups).value, p); }
  }

  lemma Reassociate(a: string, b: string)
    ensures SLASH + a + SLASH + b == SLASH + (a + SLASH + b)
  {
  }

  lemma SimpleName<P>(m: Manager<P>, p: string)
    requires p != "" && p[0] != '/'
    ensures GetPolicy(m, p) == FindPolicy(m, p)
  {
  }

  lemma {:induction false} WalkSplits<P>(m: Manager<P>, groups: seq<string>, i: nat)
    requires i <= |groups|
    ensures SubManager(m, groups) == match SubManager(m, groups[..i])
                                     case Some(on) => SubManager(on, groups[i..])
                                     case None => None
    decreases i
  {
    if i > 0 {
      if groups[0] in m.managers { WalkSplits(m.managers[groups[0]], groups[1..], i - 1); }
      assert groups[1..][..i - 1] == groups[..i][1..];
      assert groups[1..][i - 1..] == groups[i..];
    } else {
      assert groups[..0] == [] && groups[0..] == groups;
    }
  }

  lemma {:induction false} RelativeIdSplits(groups: seq<string>, i: nat, p: string)
    requires i <= |groups|
    ensures RelativeId(groups, p) == RelativeId(groups[..i], RelativeId(groups[i..], p))
    decreases i
  {
    if i > 0 {
      RelativeIdSplits(groups[1..], i - 1, p);
      assert groups[1..][..i - 1] == groups[..i][1..];
      assert groups[1..][i - 1..] == groups[i..];
    } else {
      assert groups[..0] == [] && groups[0..] == groups;
    }
  }

  // ----- Where the code departs from its documentation -----

  /** An absolute lookup slices out of range exactly for the manager's own path with nothing after it. */
  lemma PanicsExactlyOnOwnPath<P>(m: Manager<P>, id: string)
    ensures GetPolicy(m, id).Panics? <==> id == SLASH + m.path
  {
    if SLASH + m.path <= id && |id| < 1 + |m.path| + 1 {
      assert id == id[..|SLASH + m.path|];
    }
  }

  /** The id asks the manager for the policy filed under `rel`: by that name itself, unless it begins with a slash, or
      by a slash, the manager's path, any one character and the name. */
  ghost predicate AsksFor<P>(m: Manager<P>, id: string, rel: string) {
    || (id == rel && rel != "" && rel[0] != '/')
    || exists sep: char :: id == SLASH + m.path + [sep] + rel
  }

  /** A policy is found exactly when the id asks for one that is filed. In particular an absolute id outside the
      manager's path finds nothing. */
  lemma GetPolicyExactly<P>(m: Manager<P>, id: string, policy: P)
    ensures GetPolicy(m, id) == Found(policy) <==>
            exists rel :: AsksFor(m, id, rel) && rel in m.policies && m.policies[rel] == policy
    ensures id != "" && id[0] == '/' && !(SLASH + m.path <= id) ==> GetPolicy(m, id) == Missing
  {
    var n := 1 + |m.path|;
    if GetPolicy(m, id) == Found(policy) {
      if id[0] == '/' {
        assert id == SLASH + m.path + [id[n]] + id[n + 1..];
        assert AsksFor(m, id, id[n + 1..]);
      } else {
        assert AsksFor(m, id, id);
      }
    }
    forall rel | AsksFor(m, id, rel) && rel in m.policies && m.policies[rel] == policy
      ensures GetPolicy(m, id) == Found(policy)
    {
      if sep: char :| id == SLASH + m.path + [sep] + rel { SeparatorIsNotChecked(m, rel, sep); }
    }
  }

  /** The character after the manager's path is skipped unread, separator or not. */
  lemma SeparatorIsNotChecked<P>(m: Manager<P>, rel: string, sep: char)
    ensures GetPolicy(m, SLASH + m.path + [sep] + rel) == FindPolicy(m, rel)
  {
    var id := SLASH + m.path + [sep] + rel;
    assert id[..1 + |m.path|] == SLASH + m.path && id[1 + |m.path| + 1..] == rel;
  }
}
