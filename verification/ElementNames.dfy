/** Legal names of configuration elements, mod policies and channels, and where they stand
    (common/configtx/validator.go, common/configtx/update.go). */
module ElementNames {
  import opened Basics
  import opened ConfigTree
  import opened ConfigMap
  import opened ConfigUpdate

  /** A digit, a dot, a dash or a small letter, by its ASCII code. */
  predicate SmallCode(c: char) {
    var code := c as int;
    48 <= code < 58 || 97 <= code < 123 || code == 45 || code == 46
  }

  /** The same, or a capital letter. */
  predicate NameCode(c: char) { SmallCode(c) || 65 <= c as int < 91 }

  lemma NameExactly(id: string)
    ensures ValidID(id) <==>
            1 <= |id| < 250 && id !in {".", ".."} && forall c | c in id :: NameCode(c)
  {
    hide NameCode, AllowedChar;
    forall c
      ensures AllowedChar(c) <==> NameCode(c)
    {
      CodeIsAllowed(c);
    }
    if ValidID(id) {
      forall c | c in id
        ensures NameCode(c)
      {
        var i :| 0 <= i < |id| && id[i] == c;
      }
    }
  }

  lemma CodeIsAllowed(c: char)
    ensures AllowedChar(c) <==> NameCode(c)
  {
  }

  lemma ChannelNameExactly(id: string)
    ensures ValidChannelID(id) <==>
            1 <= |id| < 250 && 97 <= id[0] as int < 123 && forall c | c in id :: SmallCode(c)
  {
    if ValidChannelID(id) {
      forall c | c in id
        ensures SmallCode(c)
      {
        var i :| 0 <= i < |id| && id[i] == c;
      }
    }
    if forall c | c in id :: SmallCode(c) { assert forall i | 0 <= i < |id| :: id[i] in id; }
  }

  /** A mod policy is legal names with slashes between them, and perhaps a slash before. */
  ghost predicate NamesPolicy(modPolicy: string, names: seq<string>) {
    && names != [] && ValidPath(names)
    && (modPolicy == Join(names, "/") || modPolicy == "/" + Join(names, "/"))
  }

  lemma ModPolicyExactly(modPolicy: string)
    ensures ValidModPolicy(modPolicy) <==> exists names :: NamesPolicy(modPolicy, names)
  {
    hide ValidID, Split, Join;
    assert "/" == ['/'];
    if ValidModPolicy(modPolicy) {
      var trimmed := if modPolicy[0] == '/' then modPolicy[1..] else modPolicy;
      JoinSplit(trimmed, '/');
      var names := Split(trimmed, '/');
      assert modPolicy[0] == '/' ==> modPolicy == "/" + trimmed;
      assert forall i | 0 <= i < |names| :: names[i] in names;
      assert NamesPolicy(modPolicy, names);
    }
    if names :| NamesPolicy(modPolicy, names) { PolicyOfNames(modPolicy, names); }
  }

  lemma PolicyOfNames(modPolicy: string, names: seq<string>)
    requires NamesPolicy(modPolicy, names)
    ensures ValidModPolicy(modPolicy)
  {
    hide ValidID, Split, Join;
    assert "/" == ['/'];
    forall i | 0 <= i < |names|
      ensures '/' !in names[i] && names[i] != ""
    {
      NameHasNoSlash(names[i]);
    }
    SplitJoin(names, '/');
    JoinStarts(names, "/");
    assert modPolicy == "/" + Join(names, "/") ==> modPolicy[1..] == Join(names, "/");
  }

  lemma NameHasNoSlash(id: string)
    requires ValidID(id)
    ensures '/' !in id && id != ""
  {
  }

  /** A joined text starts with its first part. */
  lemma {:induction false} JoinStarts(parts: seq<string>, sep: string)
    requires parts != [] && parts[0] != ""
    ensures Join(parts, sep) != "" && Join(parts, sep)[0] == parts[0][0]
    decreases |parts|
  {
    if |parts| > 1 { JoinStarts(parts[..|parts| - 1], sep); }
  }

  /** The names of a tree are legal exactly when every element stands at a path of legal names. */
  lemma TreeNamesExactly(root: string, g: ConfigGroup)
    ensures ValidTree(Some(g), root) <==>
            forall kind, full :: At(root, g, kind, full).Some? ==> ValidPath(full)
  {
    hide At, ValidID, ValidKeys;
    if ValidTree(Some(g), root) {
      forall kind, full | At(root, g, kind, full).Some?
        ensures ValidPath(full)
      {
        AtValid(root, g, kind, full);
      }
    }
    if forall kind, full :: At(root, g, kind, full).Some? ==> ValidPath(full) {
      RootStands(root, g);
      assert ValidPath([root]) && [root][0] == root;
      forall kind, rel | Below([root], g, kind, rel).Some?
        ensures ValidPath([root] + rel)
      {
        StandsBelow(root, g, kind, rel);
      }
      NamesBelow([root], g);
    }
  }

  lemma RootStands(root: string, g: ConfigGroup)
    ensures At(root, g, GroupKind, [root]).Some?
  {
    assert [root][1..] == [];
  }

  lemma StandsBelow(root: string, g: ConfigGroup, kind: Kind, rel: seq<string>)
    ensures At(root, g, kind, [root] + rel) == Below([root], g, kind, rel)
  {
    assert ([root] + rel)[1..] == rel;
  }

  lemma {:induction false} NamesBelow(path: seq<string>, g: ConfigGroup)
    requires path != []
    requires forall kind, rel :: Below(path, g, kind, rel).Some? ==> ValidPath(path + rel)
    ensures ValidKeys(g)
    decreases g
  {
    hide ValidID, Below;
    forall kind, k | Lists(g, kind, k)
      ensures ValidID(k)
    {
      ListedStands(path, g, kind, k);
      assert (path + [k])[|path|] == k;
    }
    assert forall k | k in g.groups :: Lists(g, GroupKind, k);
    assert forall k | k in g.values :: Lists(g, ValueKind, k);
    assert forall k | k in g.policies :: Lists(g, PolicyKind, k);
    forall k | k in g.groups
      ensures ValidKeys(g.groups[k])
    {
      forall kind, rel | Below(path + [k], g.groups[k], kind, rel).Some?
        ensures ValidPath(path + [k] + rel)
      {
        BelowStep(path, g, k, kind, rel);
        assert path + ([k] + rel) == path + [k] + rel;
      }
      NamesBelow(path + [k], g.groups[k]);
    }
  }

  lemma ListedStands(path: seq<string>, g: ConfigGroup, kind: Kind, k: string)
    requires path != [] && Lists(g, kind, k)
    ensures Below(path, g, kind, [k]).Some?
  {
    assert [k][1..] == [];
  }
}
