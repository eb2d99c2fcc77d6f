/** The levels of named loggers: activation, cached longest-prefix lookup, the fast filter and the
    printed specification (common/flogging/loggerlevels.go). */
module LoggerLevels {
  import opened Basics
  import opened LogLevels

  // ----- Which level a logger has -----

  /** The specification keys that apply to a logger: the exact form with a trailing dot, the name itself
      and its dotted prefixes. */
  predicate Applies(key: string, name: string) {
    key != "" && (key == name + "." || key + "." <= name + ".")
  }

  /** `key` is the longest key of the specification that applies to the logger. */
  ghost predicate LongestMatch(specs: map<string, Level>, name: string, key: string) {
    key in specs && Applies(key, name) && forall k | k in specs && Applies(k, name) :: |k| <= |key|
  }

  /** The level is that of the longest key that applies, or the default when none does. */
  ghost predicate IsLevelOf(specs: map<string, Level>, defaultLevel: Level, name: string, level: Level) {
    || (exists key :: LongestMatch(specs, name, key) && level == specs[key])
    || ((forall k | k in specs :: !Applies(k, name)) && level == defaultLevel)
  }

  /** There is one such level only. */
  lemma LevelIsUnique(specs: map<string, Level>, defaultLevel: Level, name: string, a: Level, b: Level)
    requires IsLevelOf(specs, defaultLevel, name, a) && IsLevelOf(specs, defaultLevel, name, b)
    ensures a == b
  {
    if k :| LongestMatch(specs, name, k) && a == specs[k] {
      var l :| LongestMatch(specs, name, l) && b == specs[l];
      SameLength(k, l, name);
    }
  }

  /** A key applies when it is the dotted name or what stands before one of its dots. */
  lemma AppliesAtDot(key: string, name: string)
    requires Applies(key, name)
    ensures var full := name + "."; |key| <= |full| && key == full[..|key|] && (|key| < |full| ==> full[|key|] == '.')
  {
    var full := name + ".";
    if key != full {
      assert key == (key + ".")[..|key|] && (key + ".")[|key|] == '.';
    }
  }

  lemma DotApplies(name: string, n: nat)
    requires 0 < n <= |name| && (name + ".")[n] == '.'
    ensures Applies((name + ".")[..n], name)
  {
    var full := name + ".";
    assert full[..n] + "." == full[..n + 1];
  }

  lemma SameLength(k: string, l: string, name: string)
    requires Applies(k, name) && Applies(l, name) && |k| == |l|
    ensures k == l
  {
    AppliesAtDot(k, name);
    AppliesAtDot(l, name);
  }

  /** `strings.LastIndex(s, ".")`. */
  function LastDot(s: string): (r: int)
    ensures -1 <= r < |s|
    ensures r >= 0 ==> s[r] == '.'
    ensures forall i | r < i < |s| :: s[i] != '.'
  {
    if s == "" then -1
    else if s[|s| - 1] == '.' then |s| - 1
    else LastDot(s[..|s| - 1])
  }

  /** A key applies to the logger of its name and to those below it; with a dot after it, to that logger only. */
  lemma AppliesExactly(key: string, name: string)
    ensures Applies(key, name) <==>
            key != "" && (key == name || key == name + "." || exists rest :: name == key + "." + rest)
  {
    if Applies(key, name) && key != name && key != name + "." {
      AppliesAtDot(key, name);
      assert |key| < |name| && key == name[..|key|] && name[|key|] == '.';
      assert name == key + "." + name[|key| + 1..];
    }
  }

  /** The dotted exact key decides, then the name itself; else the level is that of the group the logger is in,
      the exact key of the group aside, and at the top the default. */
  lemma LevelWalksUp(specs: map<string, Level>, defaultLevel: Level, name: string, level: Level)
    ensures IsLevelOf(specs, defaultLevel, name, level) <==>
            if name + "." in specs then level == specs[name + "."]
            else if name != "" && name in specs then level == specs[name]
            else if LastDot(name) <= 0 then level == defaultLevel
            else
              var group := name[..LastDot(name)];
              IsLevelOf(specs - {group + "."}, defaultLevel, group, level)
  {
    var dot := LastDot(name);
    if name + "." in specs {
      assert LongestMatch(specs, name, name + ".") by { ApplyingIsShort(specs, name); }
      OneLevel(specs, defaultLevel, name, name + ".", level);
    } else if name != "" && name in specs {
      assert LongestMatch(specs, name, name) by { ApplyingIsShort(specs, name); }
      OneLevel(specs, defaultLevel, name, name, level);
    } else {
      forall k | k in specs
        ensures Applies(k, name) <==> dot > 0 && k != name[..dot] + "." && Applies(k, name[..dot])
      {
        AppliesToGroup(k, name);
      }
      hide Applies;
      if dot > 0 { SameMatches(specs, specs - {name[..dot] + "."}, defaultLevel, name, name[..dot], level); }
    }
  }

  lemma ApplyingIsShort(specs: map<string, Level>, name: string)
    ensures forall k | k in specs && Applies(k, name) :: k == name + "." || |k| <= |name|
  {
    forall k | k in specs && Applies(k, name)
      ensures k == name + "." || |k| <= |name|
    {
      AppliesAtDot(k, name);
    }
  }

  lemma OneLevel(specs: map<string, Level>, defaultLevel: Level, name: string, key: string, level: Level)
    requires LongestMatch(specs, name, key)
    ensures IsLevelOf(specs, defaultLevel, name, level) <==> level == specs[key]
  {
    hide Applies;
    if IsLevelOf(specs, defaultLevel, name, level) {
      assert IsLevelOf(specs, defaultLevel, name, specs[key]);
      LevelIsUnique(specs, defaultLevel, name, level, specs[key]);
    }
  }

  /** Apart from the name and its exact form, the keys that apply to a logger are those that apply to its group. */
  lemma AppliesToGroup(k: string, name: string)
    requires k != name + "." && (k != name || name == "")
    ensures var dot := LastDot(name);
            Applies(k, name) <==> dot > 0 && k != name[..dot] + "." && Applies(k, name[..dot])
  {
    var dot, full := LastDot(name), name + ".";
    if Applies(k, name) {
      AppliesAtDot(k, name);
      assert |k| < |name| && name[|k|] == '.';
      assert k == name[..dot][..|k|];
      assert k + "." == full[..|k| + 1];
      assert k + "." <= name[..dot] + "." by { assert name[..dot] + "." == full[..dot + 1]; }
    }
    if dot > 0 && k != name[..dot] + "." && Applies(k, name[..dot]) {
      assert name[..dot] + "." == full[..dot + 1];
      assert k + "." <= full;
    }
  }

  lemma SameMatches(specs: map<string, Level>, specs': map<string, Level>, defaultLevel: Level, name: string,
                    name': string, level: Level)
    requires forall k | k in specs' :: k in specs && specs'[k] == specs[k]
    requires forall k | k in specs :: Applies(k, name) <==> k in specs' && Applies(k, name')
    ensures IsLevelOf(specs, defaultLevel, name, level) <==> IsLevelOf(specs', defaultLevel, name', level)
  {
    hide Applies;
    forall key
      ensures LongestMatch(specs, name, key) <==> LongestMatch(specs', name', key)
    {
    }
  }

  /** `calculateLevel`: walks the logger name back to find the level. */
  method CalculateLevel(specs: map<string, Level>, defaultLevel: Level, name: string) returns (level: Level)
    ensures IsLevelOf(specs, defaultLevel, name, level)
  {
    var candidate := name + ".";
    while true
      invariant candidate == name + "." || Applies(candidate, name)
      invariant forall k | k in specs && Applies(k, name) :: |k| <= |candidate|
      decreases |candidate|
    {
      if candidate in specs {
        assert LongestMatch(specs, name, candidate);
        return specs[candidate];
      }
      var idx := LastDot(candidate);
      forall k | k in specs && Applies(k, name) ensures |k| <= idx { NoKeySkipped(k, name, candidate, idx); }
      if idx <= 0 { return defaultLevel; }
      CutApplies(name, candidate, idx);
      candidate := candidate[..idx];
    }
  }

  /** Cutting at the last dot skips no key that applies. */
  lemma NoKeySkipped(k: string, name: string, candidate: string, idx: int)
    requires candidate == name + "." || Applies(candidate, name)
    requires Applies(k, name) && |k| <= |candidate| && k != candidate && idx == LastDot(candidate)
    ensures |k| <= idx
  {
    hide Applies;
    var full := name + ".";
    AppliesAtDot(k, name);
    if candidate != full { AppliesAtDot(candidate, name); }
    assert candidate == full[..|candidate|];
    assert |k| < |candidate|;
    assert candidate[|k|] == '.';
  }

  lemma CutApplies(name: string, candidate: string, idx: int)
    requires candidate == name + "." || Applies(candidate, name)
    requires idx == LastDot(candidate) && idx > 0
    ensures Applies(candidate[..idx], name)
  {
    hide Applies;
    var full := name + ".";
    if candidate != full { AppliesAtDot(candidate, name); }
    assert candidate == full[..|candidate|];
    assert full[idx] == '.' && candidate[..idx] == full[..idx];
    DotApplies(name, idx);
  }

  /** The smallest level that any logger can have. */
  ghost predicate IsMinimum(min: Level, specs: map<string, Level>, defaultLevel: Level) {
    && min <= defaultLevel && (forall k | k in specs :: min <= specs[k])
    && (min == defaultLevel || exists k | k in specs :: min == specs[k])
  }

  /** The order of `sort.Strings`. */
  predicate StringLeq(a: string, b: string) {
    a == "" || (b != "" && (a[0] < b[0] || (a[0] == b[0] && StringLeq(a[1..], b[1..]))))
  }

  predicate Sorted(s: seq<string>) {
    forall i, j | 0 <= i < j < |s| :: StringLeq(s[i], s[j])
  }

  // ----- The loops of activation and printing -----

  /** The loop that looks for the minimum level. */
  method Minimum(specs: map<string, Level>, defaultLevel: Level) returns (min: Level)
    ensures IsMinimum(min, specs, defaultLevel)
  {
    min := defaultLevel;
    var todo := specs.Keys;
    while todo != {}
      invariant todo <= specs.Keys && min <= defaultLevel
      invariant forall k | k in specs && k !in todo :: min <= specs[k]
      invariant min == defaultLevel || exists k | k in specs :: min == specs[k]
      decreases todo
    {
      var k :| k in todo;
      if specs[k] < min { min := specs[k]; }
      todo := todo - {k};
    }
  }

  /** The loop over the loggers of one field. */
  method AssignLoggers(loggers: seq<string>, level: Level, specs: map<string, Level>)
    returns (r: Option<map<string, Level>>)
    ensures r == SetLoggers(loggers, level, specs)
  {
    var acc: map<string, Level> := specs;
    for i := 0 to |loggers|
      invariant SetLoggers(loggers, level, specs) == SetLoggers(loggers[i..], level, acc)
    {
      assert loggers[i..][1..] == loggers[i + 1..];
      if !IsValidKey(loggers[i]) { return None; }
      acc := acc[loggers[i] := level];
    }
    return Some(acc);
  }

  /** The loop of `ActivateSpec` over the fields. */
  method ParseSpec(spec: string) returns (r: Option<Parsed>)
    ensures r == Parse(spec)
    ensures r.Some? ==> Printable(r.value.specs)
  {
    hide IsValidKey, IsValidLevel;
    var fields := Split(spec, ':');
    var acc := EMPTY;
    for i := 0 to |fields|
      invariant Parse(spec) == ParseFields(fields[i..], acc)
      invariant Printable(acc.specs)
    {
      assert fields[i..][1..] == fields[i + 1..];
      var field := fields[i];
      assert field in fields;
      var split := Split(field, '=');
      if |split| == 1 {
        if field != "" && !IsValidLevel(field) { return None; }
        acc := acc.(defaultLevel := NameToLevel(field));
      } else if |split| == 2 {
        if split[0] == "" { return None; }
        if !IsValidLevel(split[1]) { return None; }
        var loggers := Split(split[0], ',');
        var specs := AssignLoggers(loggers, NameToLevel(split[1]), acc.specs);
        if specs.None? { return None; }
        FieldKeysPrintable(field, acc.specs, NameToLevel(split[1]));
        acc := acc.(specs := specs.value);
      } else {
        return None;
      }
    }
    return Some(acc);
  }

  lemma {:induction false} PartsAvoid(s: string, sep: char, c: char)
    requires c !in s
    ensures forall part | part in Split(s, sep) :: c !in part
    decreases |s|
  {
    if s != "" { PartsAvoid(s[1..], sep, c); }
  }

  lemma FieldKeysPrintable(field: string, specs: map<string, Level>, level: Level)
    requires ':' !in field && Printable(specs)
    ensures var loggers := Split(Split(field, '=')[0], ',');
            var r := SetLoggers(loggers, level, specs);
            r.Some? ==> Printable(r.value)
  {
    hide IsValidKey, SetLoggers, Split;
    PartsAvoid(field, '=', ':');
    var names := Split(field, '=')[0];
    assert names in Split(field, '=');
    PartsAvoid(names, ',', ':');
    SetLoggersPrintable(Split(names, ','), level, specs);
  }

  lemma {:induction false} SetLoggersPrintable(loggers: seq<string>, level: Level, specs: map<string, Level>)
    requires Printable(specs) && forall l | l in loggers :: ':' !in l
    ensures var r := SetLoggers(loggers, level, specs); r.Some? ==> Printable(r.value)
    decreases |loggers|
  {
    hide IsValidKey;
    if loggers != [] && IsValidKey(loggers[0]) {
      assert loggers[0] in loggers;
      SetLoggersPrintable(loggers[1..], level, specs[loggers[0] := level]);
    }
  }

  lemma {:induction false} StringLeqTotal(a: string, b: string)
    ensures StringLeq(a, b) || StringLeq(b, a)
    decreases |a|
  {
    if a != "" && b != "" { StringLeqTotal(a[1..], b[1..]); }
  }

  lemma {:induction false} StringLeqTransitive(a: string, b: string, c: string)
    requires StringLeq(a, b) && StringLeq(b, c)
    ensures StringLeq(a, c)
    decreases |a|
  {
    if a != "" && a[0] == b[0] == c[0] { StringLeqTransitive(a[1..], b[1..], c[1..]); }
  }

  /** The strings agree before the place and the first has the smaller character there. */
  ghost predicate SmallerAt(a: string, b: string, i: int) {
    0 <= i < |a| && i < |b| && a[..i] == b[..i] && a[i] < b[i]
  }

  /** Strings are ordered by the first place where they differ, a prefix before what it begins. */
  lemma {:induction false} OrderedByFirstDifference(a: string, b: string)
    ensures StringLeq(a, b) <==> a <= b || exists i :: SmallerAt(a, b, i)
    decreases |a|
  {
    if a != "" && b != "" {
      var a', b' := a[1..], b[1..];
      OrderedByFirstDifference(a', b');
      assert a == [a[0]] + a' && b == [b[0]] + b';
      if a[0] < b[0] { assert SmallerAt(a, b, 0); }
      forall i | SmallerAt(a, b, i)
        ensures a[0] < b[0] || (a[0] == b[0] && SmallerAt(a', b', i - 1))
      {
        assert i > 0 ==> a[..i][0] == b[..i][0];
        assert i > 0 ==> a'[..i - 1] == a[..i][1..] && b'[..i - 1] == b[..i][1..];
      }
      forall i | a[0] == b[0] && SmallerAt(a', b', i)
        ensures SmallerAt(a, b, i + 1)
      {
        assert a[..i + 1] == [a[0]] + a'[..i] && b[..i + 1] == [b[0]] + b'[..i];
      }
    }
  }

  /** Where a string belongs in a sorted list. */
  method InsertSorted(s: seq<string>, x: string) returns (r: seq<string>)
    requires Sorted(s)
    ensures Sorted(r) && |r| == |s| + 1 && forall y :: y in r <==> y in s || y == x
  {
    var i := |s|;
    while i > 0 && !StringLeq(s[i - 1], x)
      invariant 0 <= i <= |s|
      invariant forall j | i <= j < |s| :: StringLeq(x, s[j])
    {
      StringLeqTotal(s[i - 1], x);
      i := i - 1;
    }
    forall j | 0 <= j < i
      ensures StringLeq(s[j], x)
    {
      if j < i - 1 { StringLeqTransitive(s[j], s[i - 1], x); }
    }
    r := s[..i] + [x] + s[i..];
    assert s == s[..i] + s[i..];
  }

  /** The fields of `Spec`, collected in any order and sorted. */
  method SortedFields(specs: map<string, Level>) returns (fields: seq<string>)
    ensures FieldsOf(fields, specs) && Sorted(fields) && |fields| == |specs|
  {
    hide Field, StringLeq;
    fields := [];
    var todo := specs.Keys;
    while todo != {}
      invariant todo <= specs.Keys && Sorted(fields) && |fields| + |todo| == |specs|
      invariant forall i | 0 <= i < |fields| :: IsField(fields[i], specs)
      invariant forall k | k in specs && k !in todo :: Field(k, specs[k]) in fields
      decreases todo
    {
      var k :| k in todo;
      ghost var before := fields;
      fields := InsertSorted(fields, Field(k, specs[k]));
      assert IsField(Field(k, specs[k]), specs);
      forall i | 0 <= i < |fields|
        ensures IsField(fields[i], specs)
      {
        assert fields[i] in fields;
      }
      todo := todo - {k};
    }
  }

  /** A cached level is the level of its logger. */
  ghost predicate CacheOk(cache: map<string, Level>, specs: map<string, Level>, defaultLevel: Level) {
    forall name | name in cache :: IsLevelOf(specs, defaultLevel, name, cache[name])
  }

  class LoggerLevels {
    /** `None` is the nil map that the object starts with. */
    var levelCache: Option<map<string, Level>>
    var specs: map<string, Level>
    var defaultLevel: Level
    var minLevel: Level
    /** A panic has left the mutex locked; whoever asks for it again waits forever. */
    var locked: bool

    /** The mutex is free, cached levels are right, the filter is exact, and the keys can be printed. */
    ghost predicate Valid()
      reads this
    {
      && !locked
      && (levelCache.Some? ==> CacheOk(levelCache.value, specs, defaultLevel))
      && IsMinimum(minLevel, specs, defaultLevel)
      && Printable(specs)
    }

    constructor ()
      ensures Valid() && levelCache.None? && specs == map[] && defaultLevel == INFO
    {
      levelCache, specs, defaultLevel, minLevel, locked := None, map[], INFO, INFO, false;
    }

    /** `ActivateSpec`: takes effect as a whole or not at all. */
    method ActivateSpec(spec: string) returns (ok: bool)
      requires Valid()
      modifies this
      ensures Valid()
      ensures ok <==> Parse(spec).Some?
      ensures ok ==> Parsed(specs, defaultLevel) == Parse(spec).value && levelCache == Some(map[])
      ensures !ok ==> specs == old(specs) && defaultLevel == old(defaultLevel)
      ensures !ok ==> minLevel == old(minLevel) && levelCache == old(levelCache)
    {
      hide Parse, Printable, IsMinimum, IsLevelOf;
      var parsed := ParseSpec(spec);
      if parsed.None? { return false; }
      var min := Minimum(parsed.value.specs, parsed.value.defaultLevel);
      minLevel, defaultLevel, specs, levelCache := min, parsed.value.defaultLevel, parsed.value.specs, Some(map[]);
      return true;
    }

    /** `cachedLevel`, under the read lock. */
    method CachedLevel(name: string) returns (level: Option<Level>)
      requires Valid()
      ensures level.Some? <==> levelCache.Some? && name in levelCache.value
      ensures level.Some? ==> IsLevelOf(specs, defaultLevel, name, level.value)
    {
      level := if levelCache.Some? && name in levelCache.value then Some(levelCache.value[name]) else None;
    }

    /** The part of `Level` under the write lock: writing to the nil cache panics, and the mutex stays locked. */
    method ComputeLevel(name: string) returns (level: Option<Level>)
      requires Valid()
      modifies this`levelCache, this`locked
      ensures level.None? <==> old(levelCache).None?
      ensures level.None? ==> levelCache == old(levelCache) && locked
      ensures level.Some? ==> Valid() && IsLevelOf(specs, defaultLevel, name, level.value)
      ensures level.Some? ==> levelCache == Some(old(levelCache).value[name := level.value])
    {
      locked := true;
      var calculated := CalculateLevel(specs, defaultLevel, name);
      if levelCache.None? { return None; }
      levelCache := Some(levelCache.value[name := calculated]);
      locked := false;
      return Some(calculated);
    }

    /** `Level` without interference: the same whether or not it is cached, and before the first activation a
        panic that leaves the mutex locked. */
    method EffectiveLevel(name: string) returns (level: Option<Level>)
      requires Valid()
      modifies this`levelCache, this`locked
      ensures level.None? <==> old(levelCache).None?
      ensures level.None? ==> locked
      ensures level.Some? ==> Valid() && IsLevelOf(specs, defaultLevel, name, level.value)
    {
      var cached := CachedLevel(name);
      if cached.Some? { return cached; }
      level := ComputeLevel(name);
    }

    /** `Enabled`: a record that the fast filter rejects is below the level of every logger, and one that it
        lets through is enabled at the default or at some key of the specification. */
    method Enabled(lvl: int) returns (enabled: bool)
      requires Valid()
      ensures !enabled ==> forall name, level | IsLevelOf(specs, defaultLevel, name, level) :: lvl < level
      ensures enabled ==> lvl >= defaultLevel || exists k | k in specs :: lvl >= specs[k]
    {
      enabled := lvl >= minLevel;
    }

    /** `Spec`: prints every entry and the default; reading the result back restores the same specification
        exactly when no level is PAYLOAD. */
    method Spec() returns (spec: string, ghost fields: seq<string>)
      requires Valid()
      ensures FieldsOf(fields, specs) && Sorted(fields) && spec == Print(fields, defaultLevel)
      ensures Parse(spec) == if HasPayload(specs, defaultLevel) then None else Some(Parsed(specs, defaultLevel))
    {
      var sorted := SortedFields(specs);
      fields := sorted;
      PrintReadsBack(fields, specs, defaultLevel);
      spec := Join(sorted + [LevelString(defaultLevel)], ":");
    }
  }
}
