/** What a logging specification means, read off its text clause by clause
    (common/flogging/levels.go, common/flogging/loggerlevels.go). */
module SpecMeaning {
  import opened Basics
  import opened LogLevels

  // ----- Level names -----

  /** The lower-case names of a level. */
  function LowerNames(l: Level): set<string> {
    match l
    case -1 => {"debug"}
    case 0 => {"info", "notice"}
    case 1 => {"warn", "warning"}
    case 2 => {"error", "critical"}
    case 3 => {"dpanic"}
    case 4 => {"panic"}
    case 5 => {"fatal"}
    case _ => {"payload"}
  }

  function UpperChar(c: char): char {
    if 'a' <= c <= 'z' then (c as int - 'a' as int + 'A' as int) as char else c
  }

  function Upper(s: string): string {
    if s == "" then "" else [UpperChar(s[0])] + Upper(s[1..])
  }

  /** A level has its lower-case names and their capitals; no other text, in mixed case or not, is a level. */
  lemma LevelNames(name: string, l: Level)
    ensures LevelOf(name) == Some(l) <==> exists w | w in LowerNames(l) :: name == w || name == Upper(w)
  {
    hide LevelOf, LowerNames, Upper;
    forall w | w in LowerNames(l)
      ensures LevelOf(w) == Some(l) && LevelOf(Upper(w)) == Some(l)
    {
      NamesLevel(w, l);
    }
    if LevelOf(name) == Some(l) { var w := LevelHasName(name, l); }
  }

  lemma NamesLevel(w: string, l: Level)
    requires w in LowerNames(l)
    ensures LevelOf(w) == Some(l) && LevelOf(Upper(w)) == Some(l)
  {
    hide Upper, LevelOf;
    Capitals();
    LowLevels();
    MiddleLevels();
    HighLevels();
  }

  lemma LowLevels()
    ensures LevelOf("payload") == Some(-2) && LevelOf("PAYLOAD") == Some(-2)
    ensures LevelOf("debug") == Some(-1) && LevelOf("DEBUG") == Some(-1)
    ensures LevelOf("info") == Some(0) && LevelOf("INFO") == Some(0)
    ensures LevelOf("notice") == Some(0) && LevelOf("NOTICE") == Some(0)
  {
  }

  lemma MiddleLevels()
    ensures LevelOf("warn") == Some(1) && LevelOf("WARN") == Some(1)
    ensures LevelOf("warning") == Some(1) && LevelOf("WARNING") == Some(1)
    ensures LevelOf("error") == Some(2) && LevelOf("ERROR") == Some(2)
    ensures LevelOf("critical") == Some(2) && LevelOf("CRITICAL") == Some(2)
  {
  }

  lemma HighLevels()
    ensures LevelOf("dpanic") == Some(3) && LevelOf("DPANIC") == Some(3)
    ensures LevelOf("panic") == Some(4) && LevelOf("PANIC") == Some(4)
    ensures LevelOf("fatal") == Some(5) && LevelOf("FATAL") == Some(5)
  {
  }

  lemma LevelHasName(name: string, l: Level) returns (w: string)
    requires LevelOf(name) == Some(l)
    ensures w in LowerNames(l) && (name == w || name == Upper(w))
  {
    Capitals();
    hide Upper;
    w := match l
      case -1 => "debug"
      case 0 => if name == "info" || name == "INFO" then "info" else "notice"
      case 1 => if name == "warn" || name == "WARN" then "warn" else "warning"
      case 2 => if name == "error" || name == "ERROR" then "error" else "critical"
      case 3 => "dpanic"
      case 4 => "panic"
      case 5 => "fatal"
      case _ => "payload";
  }

  lemma Capitals()
    ensures Upper("payload") == "PAYLOAD" && Upper("debug") == "DEBUG" && Upper("info") == "INFO"
    ensures Upper("notice") == "NOTICE" && Upper("warn") == "WARN" && Upper("warning") == "WARNING"
    ensures Upper("error") == "ERROR" && Upper("critical") == "CRITICAL" && Upper("dpanic") == "DPANIC"
    ensures Upper("panic") == "PANIC" && Upper("fatal") == "FATAL"
  {
    hide Upper;
    Capital("payload", "PAYLOAD");
    Capital("debug", "DEBUG");
    Capital("info", "INFO");
    Capital("notice", "NOTICE");
    Capital("warn", "WARN");
    Capital("warning", "WARNING");
    Capital("error", "ERROR");
    Capital("critical", "CRITICAL");
    Capital("dpanic", "DPANIC");
    Capital("panic", "PANIC");
    Capital("fatal", "FATAL");
  }

  lemma {:induction false} Capital(w: string, u: string)
    requires |u| == |w| && forall i | 0 <= i < |w| :: u[i] == UpperChar(w[i])
    ensures Upper(w) == u
    decreases |w|
  {
    if w == "" {
      assert u == "";
    } else {
      Capital(w[1..], u[1..]);
      assert u == [u[0]] + u[1..];
    }
  }

  // ----- Logger names -----

  /** A digit, a letter, or one of `#`, `-`, `:` and `_`, by its ASCII code. */
  predicate NameCode(c: char) {
    var code := c as int;
    48 <= code < 58 || 65 <= code < 91 || 97 <= code < 123 || code in {35, 45, 58, 95}
  }

  /** Name characters and dots, no dot first, last or after another. */
  ghost predicate Dotted(name: string) {
    && name != ""
    && (forall i | 0 <= i < |name| :: name[i] == '.' || NameCode(name[i]))
    && forall i | 0 <= i < |name| && name[i] == '.' :: 0 < i < |name| - 1 && name[i - 1] != '.'
  }

  /** A key is a dotted name, or one with a single dot after it. */
  lemma KeyShape(key: string)
    ensures IsValidKey(key) <==> exists name :: Dotted(name) && (key == name || key == name + ".")
  {
    hide Dotted, IsValidLoggerName;
    NameShape(TrimDot(key));
    assert key == TrimDot(key) || key == TrimDot(key) + ".";
    forall name | Dotted(name) && (key == name || key == name + ".")
      ensures name == TrimDot(key)
    {
      DottedEnd(name);
    }
  }

  lemma DottedEnd(name: string)
    requires Dotted(name)
    ensures name != "" && name[|name| - 1] != '.'
  {
  }

  lemma NameShape(name: string)
    ensures IsValidLoggerName(name) <==> Dotted(name)
  {
    hide *;
    if name == "" {
      NothingDotted();
    } else {
      ValidIsParts(name);
      TailsAre(name);
      DottedTail(name);
    }
  }

  lemma NothingDotted()
    ensures !Dotted("") && !IsValidLoggerName("")
  {
    NoEmptyName();
  }

  lemma ValidIsParts(name: string)
    requires name != ""
    ensures IsValidLoggerName(name) <==> name[0] != '.' && NameParts(name)
  {
    hide NameChar, Split;
    FirstPart(name);
    var parts := Split(name, '.');
    if IsValidLoggerName(name) {
      assert forall i | 0 <= i < |parts| :: parts[i] in parts;
    }
    if NameParts(name) && parts[0] != "" {
      forall part | part in parts
        ensures part != "" && forall i | 0 <= i < |part| :: NameChar(part[i])
      {
        var k :| 0 <= k < |parts| && parts[k] == part;
      }
    }
  }

  /** The parts have name characters only, and all but the first have some. */
  ghost predicate PartsOk(parts: seq<string>) {
    && (forall i, j | 0 <= i < |parts| && 0 <= j < |parts[i]| :: NameChar(parts[i][j]))
    && forall i | 0 < i < |parts| :: parts[i] != ""
  }

  ghost predicate NameParts(s: string) { PartsOk(Split(s, '.')) }

  ghost predicate TailDotted(s: string) {
    && (forall i | 0 <= i < |s| :: s[i] == '.' || NameCode(s[i]))
    && forall i | 0 <= i < |s| && s[i] == '.' :: i < |s| - 1 && s[i + 1] != '.'
  }

  lemma DottedTail(s: string)
    requires s != ""
    ensures Dotted(s) <==> s[0] != '.' && TailDotted(s)
  {
    hide NameCode;
    if Dotted(s) {
      forall i | 0 <= i < |s| && s[i] == '.'
        ensures i < |s| - 1 && s[i + 1] != '.'
      {
        assert s[(i + 1) - 1] == '.';
      }
    }
    if s[0] != '.' && TailDotted(s) {
      forall i | 0 <= i < |s| && s[i] == '.'
        ensures 0 < i < |s| - 1 && s[i - 1] != '.'
      {
        assert s[(i - 1) + 1] == '.';
      }
    }
  }

  lemma FirstPart(s: string)
    requires s != ""
    ensures Split(s, '.')[0] == "" <==> s[0] == '.'
  {
  }

  lemma NameCharsAre(c: char)
    ensures NameChar(c) <==> NameCode(c)
  {
  }

  lemma {:induction false} TailsAre(s: string)
    ensures NameParts(s) <==> TailDotted(s)
    decreases |s|
  {
    hide NameParts, TailDotted;
    if s == "" {
      NoTail();
    } else {
      TailsAre(s[1..]);
      PartsStep(s);
      TailStep(s);
    }
  }

  lemma NoTail()
    ensures NameParts("") && TailDotted("")
  {
  }

  lemma TailStep(s: string)
    requires s != ""
    ensures TailDotted(s) <==>
            && TailDotted(s[1..])
            && if s[0] == '.' then |s| > 1 && s[1] != '.' else NameCode(s[0])
  {
    hide NameCode;
    var t := s[1..];
    assert forall i | 0 <= i < |t| :: t[i] == s[i + 1];
    if TailDotted(s) {
      assert TailDotted(t);
    }
    if TailDotted(t) {
      assert forall i | 0 < i < |s| :: s[i] == t[i - 1];
    }
  }

  lemma PartsStep(s: string)
    requires s != ""
    ensures NameParts(s) <==>
            && NameParts(s[1..])
            && if s[0] == '.' then |s| > 1 && s[1] != '.' else NameCode(s[0])
  {
    hide NameChar, NameCode, PartsOk;
    NameCharsAre(s[0]);
    var rest := Split(s[1..], '.');
    if s[0] == '.' {
      PartsAfterDot(rest);
      assert |s| > 1 ==> s[1..][0] == s[1];
      if |s| > 1 { FirstPart(s[1..]); } else { assert s[1..] == ""; }
    } else {
      PartsHead(s[0], rest);
    }
  }

  lemma PartsAfterDot(rest: seq<string>)
    requires rest != []
    ensures PartsOk([""] + rest) <==> PartsOk(rest) && rest[0] != ""
  {
    hide NameChar;
    var parts := [""] + rest;
    assert forall i | 0 <= i < |rest| :: parts[i + 1] == rest[i];
    if PartsOk(parts) {
      assert parts[1] != "";
      assert forall i, j | 0 <= i < |rest| && 0 <= j < |rest[i]| :: rest[i][j] == parts[i + 1][j];
    }
    if PartsOk(rest) {
      assert forall i, j | 0 <= i < |parts| && 0 <= j < |parts[i]| :: i > 0 && parts[i][j] == rest[i - 1][j];
    }
  }

  lemma PartsHead(c: char, rest: seq<string>)
    requires rest != []
    ensures PartsOk([[c] + rest[0]] + rest[1..]) <==> NameChar(c) && PartsOk(rest)
  {
    hide NameChar;
    var parts := [[c] + rest[0]] + rest[1..];
    assert forall i | 0 < i < |rest| :: parts[i] == rest[i];
    assert parts[0][0] == c && forall j | 0 <= j < |rest[0]| :: parts[0][j + 1] == rest[0][j];
    if PartsOk(parts) {
      forall i, j | 0 <= i < |rest| && 0 <= j < |rest[i]|
        ensures NameChar(rest[i][j])
      {
        assert rest[i][j] == if i == 0 then parts[0][j + 1] else parts[i][j];
      }
    }
    if NameChar(c) && PartsOk(rest) {
      forall i, j | 0 <= i < |parts| && 0 <= j < |parts[i]|
        ensures NameChar(parts[i][j])
      {
        assert parts[i][j] == if i > 0 then rest[i][j] else if j == 0 then c else rest[0][j - 1];
      }
    }
  }

  // ----- Clauses -----

  /** What one field says. */
  datatype Clause = Default(level: Level) | Loggers(names: seq<string>, level: Level)

  /** The field says this: a bare level, INFO when it is empty; or names, an equals sign and a level. */
  ghost predicate Says(field: string, c: Clause) {
    match c
    case Default(l) => if field == "" then l == 0 else LevelOf(field) == Some(l)
    case Loggers(names, l) =>
      && names != []
      && (forall i | 0 <= i < |names| :: IsValidKey(names[i]))
      && exists text :: LevelOf(text) == Some(l) && field == Join(names, ",") + "=" + text
  }

  ghost predicate SayInTurn(fields: seq<string>, clauses: seq<Clause>) {
    |fields| == |clauses| && forall i | 0 <= i < |fields| :: Says(fields[i], clauses[i])
  }

  /** The text is colon-separated fields that say these clauses. */
  ghost predicate Reads(spec: string, clauses: seq<Clause>) {
    exists fields: seq<string> ::
      && fields != []
      && spec == Join(fields, ":")
      && (forall i | 0 <= i < |fields| :: ':' !in fields[i])
      && SayInTurn(fields, clauses)
  }

  predicate Names(c: Clause, key: string) { c.Loggers? && key in c.names }

  /** The last clause that names the key. */
  ghost predicate LastToName(clauses: seq<Clause>, i: int, key: string) {
    && 0 <= i < |clauses|
    && Names(clauses[i], key)
    && forall j | i < j < |clauses| :: !Names(clauses[j], key)
  }

  ghost predicate LastDefault(clauses: seq<Clause>, i: int) {
    && 0 <= i < |clauses|
    && clauses[i].Default?
    && forall j | i < j < |clauses| :: clauses[j].Loggers?
  }

  /** The keys are those that some clause names, each with the level of the last clause that names it; the
      default is that of the last bare level, INFO when there is none. */
  ghost predicate Denotes(p: Parsed, clauses: seq<Clause>) {
    && (forall key :: key in p.specs <==> exists i | 0 <= i < |clauses| :: Names(clauses[i], key))
    && (forall i, key | LastToName(clauses, i, key) :: key in p.specs && p.specs[key] == clauses[i].level)
    && (forall i | LastDefault(clauses, i) :: p.defaultLevel == clauses[i].level)
    && ((forall i | 0 <= i < |clauses| :: clauses[i].Loggers?) ==> p.defaultLevel == 0)
  }

  /** The parser accepts exactly the texts that read as clauses, and then holds what the clauses denote. */
  lemma ParseMeans(spec: string)
    ensures Parse(spec).Some? <==> exists clauses :: Reads(spec, clauses)
    ensures forall clauses | Reads(spec, clauses) :: Parse(spec).Some? && Denotes(Parse(spec).value, clauses)
  {
    hide Reads, Denotes, Parse;
    forall clauses | Reads(spec, clauses)
      ensures Parse(spec).Some? && Denotes(Parse(spec).value, clauses)
    {
      ReadsParses(spec, clauses);
    }
    if Parse(spec).Some? { var clauses := ParsedReads(spec); }
  }

  /** Names that share a field all get its level, and nothing else does. */
  lemma NamesShareLevel(names: seq<string>, text: string, l: Level)
    requires names != [] && LevelOf(text) == Some(l)
    requires forall i | 0 <= i < |names| :: IsValidKey(names[i]) && ':' !in names[i]
    ensures Parse(Join(names, ",") + "=" + text) == Some(Parsed(map key | key in names :: l, 0))
  {
    hide IsValidKey, LevelOf, Parse, Join, Split, Denotes;
    var field := Join(names, ",") + "=" + text;
    var clauses := [Loggers(names, l)];
    JoinLacks(names, ",", ':');
    NoMarks(text, ':');
    assert Join([field], ":") == field by { JoinOne(field, ":"); }
    assert Says(field, clauses[0]);
    assert SayInTurn([field], clauses);
    assert Reads(field, clauses);
    ReadsParses(field, clauses);
    OneClause(Parse(field).value, clauses[0]);
  }

  lemma OneClause(p: Parsed, c: Clause)
    requires Denotes(p, [c]) && c.Loggers?
    ensures p == Parsed(map key | key in c.names :: c.level, 0)
  {
    var clauses := [c];
    var specs := map key | key in c.names :: c.level;
    forall key
      ensures key in p.specs <==> key in specs
    {
      if key in specs { assert Names(clauses[0], key); }
    }
    forall key | key in p.specs
      ensures p.specs[key] == specs[key]
    {
      assert LastToName(clauses, 0, key);
    }
    assert p.specs == specs;
  }

  // ----- Texts -----

  lemma {:induction false} JoinLacks(parts: seq<string>, sep: string, c: char)
    requires c !in sep && forall i | 0 <= i < |parts| :: c !in parts[i]
    ensures c !in Join(parts, sep)
    decreases |parts|
  {
    if |parts| > 1 { JoinLacks(parts[..|parts| - 1], sep, c); }
  }

  /** Level names have none of the marks that separate names, levels and fields. */
  lemma NoMarks(text: string, c: char)
    requires LevelOf(text).Some? && c in ":=,"
    ensures c !in text && text != ""
  {
  }

  lemma EmptyIsNoLevel()
    ensures LevelOf("").None?
  {
  }

  // ----- One field -----

  /** What a clause does to what was read before it. */
  function Step(acc: Parsed, c: Clause): Parsed {
    match c
    case Default(l) => acc.(defaultLevel := l)
    case Loggers(names, l) => acc.(specs := acc.specs + map key | key in names :: l)
  }

  lemma {:induction false} SetLoggersSets(names: seq<string>, l: Level, specs: map<string, Level>)
    ensures SetLoggers(names, l, specs) ==
            if forall i | 0 <= i < |names| :: IsValidKey(names[i])
            then Some(specs + map key | key in names :: l) else None
    decreases |names|
  {
    hide IsValidKey;
    if names == [] {
      assert specs + (map key | key in names :: l) == specs;
    } else {
      SetLoggersSets(names[1..], l, specs[names[0] := l]);
      SetFirst(names, l, specs);
    }
  }

  lemma SetFirst(names: seq<string>, l: Level, specs: map<string, Level>)
    requires names != []
    ensures specs[names[0] := l] + (map key | key in names[1..] :: l) == specs + map key | key in names :: l
  {
    assert names == [names[0]] + names[1..];
  }

  lemma FieldParses(field: string, c: Clause, acc: Parsed)
    requires Says(field, c)
    ensures ParseField(field, acc) == Some(Step(acc, c))
  {
    hide IsValidKey, LevelOf, Split, Join, SetLoggers;
    if c.Default? {
      if field == "" { EmptyIsNoLevel(); } else { NoMarks(field, '='); }
    } else {
      LoggersParse(field, c.names, c.level, acc);
    }
  }

  lemma LoggersParse(field: string, names: seq<string>, l: Level, acc: Parsed)
    requires Says(field, Loggers(names, l))
    ensures ParseField(field, acc) == Some(Step(acc, Loggers(names, l)))
  {
    hide IsValidKey, LevelOf, Split, Join, SetLoggers, Step;
    var text :| LevelOf(text) == Some(l) && field == Join(names, ",") + "=" + text;
    forall i | 0 <= i < |names|
      ensures ',' !in names[i] && '=' !in names[i] && names[i] != ""
    {
      ValidKeyChars(names[i], ',');
      ValidKeyChars(names[i], '=');
    }
    var list := Join(names, ",");
    JoinLacks(names, ",", '=');
    NoMarks(text, '=');
    assert "=" == ['='] && "," == [','];
    SplitAppend(list, '=', text);
    assert Split(field, '=') == [list, text];
    SplitJoin(names, ',');
    EmptyListIsNoName(names);
    SetLoggersSets(names, l, acc.specs);
    StepSets(acc, names, l);
  }

  lemma StepSets(acc: Parsed, names: seq<string>, l: Level)
    ensures Step(acc, Loggers(names, l)) == acc.(specs := acc.specs + map key | key in names :: l)
  {
  }

  lemma EmptyListIsNoName(names: seq<string>)
    requires names != [] && forall i | 0 <= i < |names| :: ',' !in names[i] && names[i] != ""
    ensures Join(names, ",") != ""
  {
  }

  lemma FieldSays(field: string, acc: Parsed) returns (c: Clause)
    requires ParseField(field, acc).Some?
    ensures Says(field, c)
  {
    hide IsValidKey, LevelOf, Split, Join, SetLoggers;
    var split := Split(field, '=');
    assert "=" == ['='] && "," == [','];
    JoinSplit(field, '=');
    if |split| == 1 {
      assert split == [split[0]];
      JoinOne(split[0], "=");
      EmptyIsNoLevel();
      c := Default(NameToLevel(field));
    } else {
      var names := Split(split[0], ',');
      assert split == [split[0], split[1]];
      JoinTwo(split[0], split[1], "=");
      JoinSplit(split[0], ',');
      SetLoggersSets(names, NameToLevel(split[1]), acc.specs);
      c := Loggers(names, NameToLevel(split[1]));
      assert LevelOf(split[1]) == Some(c.level) && field == Join(names, ",") + "=" + split[1];
    }
  }

  // ----- All fields -----

  lemma DenotesNothing()
    ensures Denotes(EMPTY, [])
  {
  }

  lemma DenotesStep(acc: Parsed, clauses: seq<Clause>, c: Clause)
    requires Denotes(acc, clauses)
    ensures Denotes(Step(acc, c), clauses + [c])
  {
    var all, n, p := clauses + [c], |clauses|, Step(acc, c);
    assert forall j | 0 <= j < n :: clauses[j] == all[j];
    forall key
      ensures key in p.specs <==> exists i | 0 <= i < |all| :: Names(all[i], key)
    {
      NamedStep(clauses, c, key);
    }
    forall i, key | LastToName(all, i, key)
      ensures key in p.specs && p.specs[key] == all[i].level
    {
      if i < n {
        assert !Names(all[n], key);
        assert LastToName(clauses, i, key);
      }
    }
    forall i | LastDefault(all, i)
      ensures p.defaultLevel == all[i].level
    {
      if i < n {
        assert all[n].Loggers?;
        assert LastDefault(clauses, i);
      }
    }
    if forall i | 0 <= i < |all| :: all[i].Loggers? {
      assert all[n].Loggers?;
    }
  }

  lemma NamedStep(clauses: seq<Clause>, c: Clause, key: string)
    ensures (exists i | 0 <= i < |clauses + [c]| :: Names((clauses + [c])[i], key)) <==>
            Names(c, key) || exists i | 0 <= i < |clauses| :: Names(clauses[i], key)
  {
    var all := clauses + [c];
    if Names(c, key) { assert Names(all[|clauses|], key); }
    if i :| 0 <= i < |clauses| && Names(clauses[i], key) { assert Names(all[i], key); }
  }

  lemma {:induction false} FieldsParse(fields: seq<string>, clauses: seq<Clause>, acc: Parsed, before: seq<Clause>)
    requires SayInTurn(fields, clauses) && Denotes(acc, before)
    ensures ParseFields(fields, acc).Some? && Denotes(ParseFields(fields, acc).value, before + clauses)
    decreases |fields|
  {
    hide ParseField, Says, Denotes, Step;
    if fields == [] {
      assert before + clauses == before;
    } else {
      FieldParses(fields[0], clauses[0], acc);
      DenotesStep(acc, before, clauses[0]);
      assert SayInTurn(fields[1..], clauses[1..]);
      FieldsParse(fields[1..], clauses[1..], Step(acc, clauses[0]), before + [clauses[0]]);
      assert before + [clauses[0]] + clauses[1..] == before + clauses;
    }
  }

  lemma {:induction false} FieldsSay(fields: seq<string>, acc: Parsed) returns (clauses: seq<Clause>)
    requires ParseFields(fields, acc).Some?
    ensures SayInTurn(fields, clauses)
    decreases |fields|
  {
    hide ParseField, Says;
    if fields == [] {
      clauses := [];
    } else {
      var c := FieldSays(fields[0], acc);
      var rest := FieldsSay(fields[1..], ParseField(fields[0], acc).value);
      clauses := [c] + rest;
      assert forall i | 0 < i < |fields| :: fields[i] == fields[1..][i - 1] && clauses[i] == rest[i - 1];
    }
  }

  lemma ReadsParses(spec: string, clauses: seq<Clause>)
    requires Reads(spec, clauses)
    ensures Parse(spec).Some? && Denotes(Parse(spec).value, clauses)
  {
    hide Says, Denotes, ParseFields, Join, Split;
    var fields: seq<string> :|
      && fields != []
      && spec == Join(fields, ":")
      && (forall i | 0 <= i < |fields| :: ':' !in fields[i])
      && SayInTurn(fields, clauses);
    assert ":" == [':'];
    SplitJoin(fields, ':');
    DenotesNothing();
    FieldsParse(fields, clauses, EMPTY, []);
    assert [] + clauses == clauses;
  }

  lemma ParsedReads(spec: string) returns (clauses: seq<Clause>)
    requires Parse(spec).Some?
    ensures Reads(spec, clauses)
  {
    hide Says, ParseFields, Join, Split;
    var fields := Split(spec, ':');
    assert ":" == [':'];
    JoinSplit(spec, ':');
    clauses := FieldsSay(fields, EMPTY);
    assert forall i | 0 <= i < |fields| :: fields[i] in fields;
  }
}
