/** Level names and the logging specification language: parsing and printing
    (common/flogging/levels.go, common/flogging/loggerlevels.go). */
module LogLevels {
  import opened Basics

  /** The levels that names denote, from PAYLOAD up to FATAL; a record is enabled at or above its logger's level. */
  type Level = l: int | -2 <= l <= 5

  const PAYLOAD: Level := -2
  const INFO: Level := 0

  /** `nameToLevel`. */
  function LevelOf(name: string): Option<Level> {
    if name == "PAYLOAD" || name == "payload" then Some(PAYLOAD)
    else if name == "DEBUG" || name == "debug" then Some(-1)
    else if name == "INFO" || name == "info" then Some(INFO)
    else if name == "WARNING" || name == "WARN" || name == "warning" || name == "warn" then Some(1)
    else if name == "ERROR" || name == "error" then Some(2)
    else if name == "DPANIC" || name == "dpanic" then Some(3)
    else if name == "PANIC" || name == "panic" then Some(4)
    else if name == "FATAL" || name == "fatal" then Some(5)
    else if name == "NOTICE" || name == "notice" then Some(INFO)
    else if name == "CRITICAL" || name == "critical" then Some(2)
    else None
  }

  predicate IsValidLevel(name: string) { LevelOf(name).Some? }

  function NameToLevel(name: string): Level {
    if LevelOf(name).Some? then LevelOf(name).value else INFO
  }

  /** How the logging library prints a level; it has no name for PAYLOAD. */
  function LevelString(l: Level): string {
    match l
    case -1 => "debug"
    case 0 => "info"
    case 1 => "warn"
    case 2 => "error"
    case 3 => "dpanic"
    case 4 => "panic"
    case 5 => "fatal"
    case _ => "Level(-2)"
  }

  /** Printed names are read back, except for PAYLOAD. */
  lemma LevelStringReadsBack(l: Level)
    ensures LevelOf(LevelString(l)) == if l == PAYLOAD then None else Some(l)
    ensures ':' !in LevelString(l) && '=' !in LevelString(l) && LevelString(l) != ""
  {
  }

  // ----- Logger names -----

  predicate NameChar(c: char) {
    'a' <= c <= 'z' || 'A' <= c <= 'Z' || '0' <= c <= '9' || c in "_#:-"
  }

  /** `isValidLoggerName`: dot-separated non-empty runs of name characters. */
  predicate IsValidLoggerName(name: string) {
    forall part | part in Split(name, '.') :: part != "" && forall i | 0 <= i < |part| :: NameChar(part[i])
  }

  /** `strings.TrimSuffix(s, ".")`. */
  function TrimDot(s: string): string {
    if s != "" && s[|s| - 1] == '.' then s[..|s| - 1] else s
  }

  /** A name as it may stand in a specification: valid, one trailing dot aside. */
  predicate IsValidKey(key: string) { IsValidLoggerName(TrimDot(key)) }

  /** The part in which a character of the text ends up. */
  lemma {:induction false} SplitKeepsChars(s: string, sep: char, c: char) returns (j: nat)
    requires c in s && c != sep
    ensures j < |Split(s, sep)| && c in Split(s, sep)[j]
    decreases |s|
  {
    assert s == [s[0]] + s[1..];
    if s[0] == c {
      j := 0;
    } else {
      var i := SplitKeepsChars(s[1..], sep, c);
      j := if s[0] == sep then i + 1 else i;
    }
  }

  /** A valid key has no comma and no equals sign, and is not empty. */
  lemma ValidKeyChars(key: string, c: char)
    requires IsValidKey(key) && !NameChar(c) && c != '.'
    ensures c !in key && key != ""
  {
    hide Split;
    assert key == TrimDot(key) || key == TrimDot(key) + ".";
    if c in TrimDot(key) {
      var j := SplitKeepsChars(TrimDot(key), '.', c);
      assert Split(TrimDot(key), '.')[j] in Split(TrimDot(key), '.');
    }
    NoEmptyName();
  }

  lemma NoEmptyName()
    ensures !IsValidLoggerName("")
  {
    assert "" in Split("", '.');
  }

  // ----- Parsing -----

  datatype Parsed = Parsed(specs: map<string, Level>, defaultLevel: Level)

  const EMPTY: Parsed := Parsed(map[], INFO)

  /** Each of the loggers gets the level; a bad name fails the whole specification. */
  function SetLoggers(loggers: seq<string>, level: Level, specs: map<string, Level>): Option<map<string, Level>> {
    if loggers == [] then Some(specs)
    else if !IsValidKey(loggers[0]) then None
    else SetLoggers(loggers[1..], level, specs[loggers[0] := level])
  }

  /** One field of a specification: a default level, or loggers and their level. */
  function ParseField(field: string, acc: Parsed): Option<Parsed> {
    var split := Split(field, '=');
    if |split| == 1 then
      if field != "" && !IsValidLevel(field) then None
      else Some(acc.(defaultLevel := NameToLevel(field)))
    else if |split| == 2 then
      if split[0] == "" || !IsValidLevel(split[1]) then None
      else
        var specs := SetLoggers(Split(split[0], ','), NameToLevel(split[1]), acc.specs);
        if specs.None? then None else Some(acc.(specs := specs.value))
    else None
  }

  function ParseFields(fields: seq<string>, acc: Parsed): Option<Parsed> {
    if fields == [] then Some(acc)
    else
      var first := ParseField(fields[0], acc);
      if first.None? then None else ParseFields(fields[1..], first.value)
  }

  /** What a specification means, if anything. */
  function Parse(spec: string): Option<Parsed> { ParseFields(Split(spec, ':'), EMPTY) }

  // ----- Printing -----

  /** `logger=level`. */
  function Field(key: string, level: Level): string { key + "=" + LevelString(level) }

  ghost predicate IsField(field: string, specs: map<string, Level>) {
    exists k | k in specs :: field == Field(k, specs[k])
  }

  /** The fields are those of the map, in any order. */
  ghost predicate FieldsOf(fields: seq<string>, specs: map<string, Level>) {
    && (forall i | 0 <= i < |fields| :: IsField(fields[i], specs))
    && (forall k | k in specs :: Field(k, specs[k]) in fields)
  }

  /** Keys that survive printing: valid, and free of the field separator. */
  predicate Printable(specs: map<string, Level>) {
    forall k | k in specs :: IsValidKey(k) && ':' !in k
  }

  predicate HasPayload(specs: map<string, Level>, defaultLevel: Level) {
    defaultLevel == PAYLOAD || exists k | k in specs :: specs[k] == PAYLOAD
  }

  /** A printed field sets its logger, unless its level is PAYLOAD. */
  lemma ParsePrintedField(key: string, level: Level, acc: Parsed)
    requires IsValidKey(key)
    ensures ParseField(Field(key, level), acc) ==
            if level == PAYLOAD then None else Some(acc.(specs := acc.specs[key := level]))
  {
    hide LevelString, LevelOf, IsValidKey, Split;
    ValidKeyChars(key, '=');
    ValidKeyChars(key, ',');
    LevelStringReadsBack(level);
    assert Field(key, level) == key + ['='] + LevelString(level);
    SplitAppend(key, '=', LevelString(level));
    assert Split(Field(key, level), '=') == [key, LevelString(level)];
    assert [key][1..] == [];
    assert SetLoggers([key], level, acc.specs) == Some(acc.specs[key := level]);
  }

  lemma ParsePrintedDefault(level: Level, acc: Parsed)
    ensures ParseField(LevelString(level), acc) ==
            if level == PAYLOAD then None else Some(acc.(defaultLevel := level))
  {
    LevelStringReadsBack(level);
  }

  /** The fields of these keys. */
  ghost predicate FieldsOfKeys(fields: seq<string>, keys: seq<string>, specs: map<string, Level>) {
    |fields| == |keys| && forall i | 0 <= i < |keys| :: keys[i] in specs && fields[i] == Field(keys[i], specs[keys[i]])
  }

  ghost predicate PayloadAmong(keys: seq<string>, specs: map<string, Level>) {
    exists i | 0 <= i < |keys| :: keys[i] in specs && specs[keys[i]] == PAYLOAD
  }

  ghost function Listed(keys: seq<string>, specs: map<string, Level>): map<string, Level> {
    map k | k in specs && k in keys :: specs[k]
  }

  /** Reading printed fields back adds exactly their entries, or fails at a PAYLOAD. */
  lemma {:induction false} ParsePrintedFields(fields: seq<string>, keys: seq<string>, specs: map<string, Level>,
                                              last: Level, acc: Parsed)
    requires FieldsOfKeys(fields, keys, specs) && Printable(specs)
    ensures ParseFields(fields + [LevelString(last)], acc) ==
            if last == PAYLOAD || PayloadAmong(keys, specs) then None
            else Some(Parsed(acc.specs + Listed(keys, specs), last))
    decreases |fields|
  {
    hide ParseField, Field, LevelString, IsValidKey, PayloadAmong, Listed;
    var all := fields + [LevelString(last)];
    if fields == [] {
      ParsePrintedDefault(last, acc);
      assert all[1..] == [];
      NothingListed(keys, specs, acc.specs);
    } else {
      assert all[0] == fields[0] && all[1..] == fields[1..] + [LevelString(last)];
      var key := keys[0];
      ParsePrintedField(key, specs[key], acc);
      ListedStep(keys, specs, acc.specs);
      if specs[key] != PAYLOAD {
        ParsePrintedFields(fields[1..], keys[1..], specs, last, acc.(specs := acc.specs[key := specs[key]]));
      }
    }
  }

  lemma NothingListed(keys: seq<string>, specs: map<string, Level>, base: map<string, Level>)
    requires keys == []
    ensures base + Listed(keys, specs) == base && !PayloadAmong(keys, specs)
  {
  }

  lemma ListedStep(keys: seq<string>, specs: map<string, Level>, base: map<string, Level>)
    requires keys != [] && keys[0] in specs
    ensures PayloadAmong(keys, specs) <==> specs[keys[0]] == PAYLOAD || PayloadAmong(keys[1..], specs)
    ensures base[keys[0] := specs[keys[0]]] + Listed(keys[1..], specs) == base + Listed(keys, specs)
  {
    assert keys == [keys[0]] + keys[1..];
    if i :| 0 < i < |keys| && keys[i] in specs && specs[keys[i]] == PAYLOAD {
      assert keys[1..][i - 1] == keys[i];
    }
  }

  /** The printed specification. */
  function Print(fields: seq<string>, defaultLevel: Level): string {
    Join(fields + [LevelString(defaultLevel)], ":")
  }

  /** Printing and reading back restores the specification exactly when no level is PAYLOAD; otherwise
      the printed text is not a valid specification. */
  lemma PrintReadsBack(fields: seq<string>, specs: map<string, Level>, defaultLevel: Level)
    requires FieldsOf(fields, specs) && Printable(specs)
    ensures Parse(Print(fields, defaultLevel)) ==
            if HasPayload(specs, defaultLevel) then None else Some(Parsed(specs, defaultLevel))
  {
    hide ParseFields, Split, Join, Field, LevelString, IsValidKey, FieldsOf;
    var keys := KeysOfFields(fields, specs);
    var all := fields + [LevelString(defaultLevel)];
    forall i | 0 <= i < |all|
      ensures ':' !in all[i]
    {
      if i < |fields| { FieldHasNoColon(keys[i], specs[keys[i]]); } else { LevelStringReadsBack(defaultLevel); }
    }
    assert ":" == [':'];
    SplitJoin(all, ':');
    ParsePrintedFields(fields, keys, specs, defaultLevel, EMPTY);
    KeysCover(fields, keys, specs);
    assert EMPTY.specs + Listed(keys, specs) == specs;
  }

  lemma FieldHasNoColon(key: string, level: Level)
    requires ':' !in key
    ensures ':' !in Field(key, level)
  {
    hide LevelString;
    LevelStringReadsBack(level);
  }

  lemma FieldInjective(key: string, level: Level, key': string, level': Level)
    requires IsValidKey(key) && IsValidKey(key') && Field(key, level) == Field(key', level')
    ensures key == key'
  {
    hide LevelString, IsValidKey;
    ValidKeyChars(key, '=');
    ValidKeyChars(key', '=');
    assert "=" == ['='];
    SplitAtFirst(key, LevelString(level), key', LevelString(level'), '=');
  }

  lemma {:induction false} KeysOfFields(fields: seq<string>, specs: map<string, Level>) returns (keys: seq<string>)
    requires FieldsOf(fields, specs)
    ensures FieldsOfKeys(fields, keys, specs)
  {
    keys := KeysOfSome(fields, specs, |fields|);
    assert fields[..|fields|] == fields;
  }

  lemma {:induction false} KeysOfSome(fields: seq<string>, specs: map<string, Level>, n: nat)
    returns (keys: seq<string>)
    requires FieldsOf(fields, specs) && n <= |fields|
    ensures FieldsOfKeys(fields[..n], keys, specs)
    decreases n
  {
    hide Field;
    if n == 0 {
      keys := [];
    } else {
      keys := KeysOfSome(fields, specs, n - 1);
      assert IsField(fields[n - 1], specs);
      var k :| k in specs && fields[n - 1] == Field(k, specs[k]);
      keys := keys + [k];
    }
  }

  lemma KeysCover(fields: seq<string>, keys: seq<string>, specs: map<string, Level>)
    requires FieldsOf(fields, specs) && Printable(specs) && FieldsOfKeys(fields, keys, specs)
    ensures forall k | k in specs :: k in keys
  {
    hide Field, IsValidKey;
    forall k | k in specs
      ensures k in keys
    {
      var i :| 0 <= i < |fields| && fields[i] == Field(k, specs[k]);
      FieldInjective(k, specs[k], keys[i], specs[keys[i]]);
    }
  }
}
