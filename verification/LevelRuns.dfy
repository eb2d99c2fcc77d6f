/** Concurrent calls of `Level` and `ActivateSpec`: each lock region is one step, specifications may be
    activated between any two steps of a call, and a panic leaves the mutex locked for good
    (common/flogging/loggerlevels.go). */
module LevelRuns {
  import opened Basics
  import opened LogLevels
  import opened LoggerLevels

  /** The next thing a call does. */
  datatype Pc = Consult | Compute | Return(level: Level)

  /** A call of `Level` in progress. `start` is the position in the history at which it began. */
  datatype Call = Call(name: string, start: nat, pc: Pc)

  /** A call that has returned, with the positions in the history of its start and its return. */
  datatype Returned = Returned(name: string, start: nat, end: nat, level: Level)

  /** `history` lists the specifications that have been active, the last one being active now. `stuck` tells
      that a call has panicked while it held the mutex. */
  datatype State = State(
    history: seq<Parsed>,
    cache: Option<map<string, Level>>,
    calls: map<nat, Call>,
    returned: seq<Returned>,
    stuck: bool)
  {
    function Active(): Parsed requires |history| > 0 { history[|history| - 1] }

    function Goto(id: nat, pc: Pc): State
      requires id in calls
    {
      this.(calls := calls[id := calls[id].(pc := pc)])
    }
  }

  ghost predicate Init(s: State) {
    s.history == [Parsed(map[], INFO)] && s.cache == None && s.calls == map[] && s.returned == [] && !s.stuck
  }

  /** A specification that does not parse changes nothing. */
  ghost predicate Activates(s: State, s': State) {
    && !s.stuck
    && exists spec :: Parse(spec).Some? && s' == s.(history := s.history + [Parse(spec).value], cache := Some(map[]))
  }

  ghost predicate Begins(s: State, s': State, id: nat) {
    && |s.history| > 0 && id !in s.calls && id in s'.calls
    && s'.calls[id].start == |s.history| - 1 && s'.calls[id].pc.Consult?
    && s' == s.(calls := s.calls[id := s'.calls[id]])
  }

  /** The part of `Level` under the read lock. */
  ghost predicate Consults(s: State, s': State, id: nat) {
    && !s.stuck && |s.history| > 0 && id in s.calls && s.calls[id].pc.Consult?
    && var name := s.calls[id].name;
       s' == s.Goto(id, if s.cache.Some? && name in s.cache.value then Return(s.cache.value[name]) else Compute)
  }

  ghost predicate IsLevelIn(spec: Parsed, name: string, level: Level) {
    IsLevelOf(spec.specs, spec.defaultLevel, name, level)
  }

  /** The part of `Level` under the write lock. Writing to the nil cache panics before the unlocking. */
  ghost predicate Computes(s: State, s': State, id: nat) {
    && !s.stuck && |s.history| > 0 && id in s.calls && s.calls[id].pc.Compute?
    && var name := s.calls[id].name;
       if s.cache.None? then s' == s.(calls := s.calls - {id}, stuck := true)
       else exists level :: IsLevelIn(s.Active(), name, level) &&
              s' == s.Goto(id, Return(level)).(cache := Some(s.cache.value[name := level]))
  }

  /** The return itself, after the mutex has been given back. */
  ghost predicate Returns(s: State, s': State, id: nat) {
    && |s.history| > 0 && id in s.calls && s.calls[id].pc.Return?
    && var c := s.calls[id];
       s' == s.(calls := s.calls - {id},
         returned := s.returned + [Returned(c.name, c.start, |s.history| - 1, c.pc.level)])
  }

  ghost predicate Next(s: State, s': State) {
    || Activates(s, s')
    || exists id :: Begins(s, s', id) || Consults(s, s', id) || Computes(s, s', id) || Returns(s, s', id)
  }

  ghost predicate Run(run: seq<State>) {
    |run| > 0 && Init(run[0]) && forall i | 0 <= i < |run| - 1 :: Next(run[i], run[i + 1])
  }

  // ----- Levels -----

  /** The level is that of the logger under some specification of the history between these positions. */
  ghost predicate LevelBetween(history: seq<Parsed>, start: nat, end: nat, name: string, level: Level) {
    end < |history| && exists i :: start <= i <= end && IsLevelIn(history[i], name, level)
  }

  ghost predicate CallOk(history: seq<Parsed>, c: Call) {
    c.start < |history| && (c.pc.Return? ==> LevelBetween(history, c.start, |history| - 1, c.name, c.pc.level))
  }

  ghost predicate ReturnOk(history: seq<Parsed>, r: Returned) {
    LevelBetween(history, r.start, r.end, r.name, r.level)
  }

  /** Before the first activation nobody has got a level. */
  ghost predicate Unused(s: State) {
    s.history == [Parsed(map[], INFO)] && s.returned == [] && forall id | id in s.calls :: !s.calls[id].pc.Return?
  }

  ghost predicate Inv(s: State) {
    && |s.history| > 0
    && (if s.cache.None? then Unused(s)
        else forall name | name in s.cache.value :: IsLevelIn(s.Active(), name, s.cache.value[name]))
    && (s.stuck ==> s.cache.None?)
    && (forall id | id in s.calls :: CallOk(s.history, s.calls[id]))
    && (forall i | 0 <= i < |s.returned| :: ReturnOk(s.history, s.returned[i]))
  }

  lemma LevelBetweenExtends(history: seq<Parsed>, spec: Parsed, start: nat, end: nat, name: string, level: Level)
    requires LevelBetween(history, start, end, name, level)
    ensures forall e | end <= e <= |history| :: LevelBetween(history + [spec], start, e, name, level)
  {
    hide IsLevelIn;
    var i :| start <= i <= end && IsLevelIn(history[i], name, level);
    assert (history + [spec])[i] == history[i];
  }

  lemma ActivationKeepsInv(s: State, s': State)
    requires Inv(s) && Activates(s, s')
    ensures Inv(s')
  {
    hide IsLevelIn, Parse, LevelBetween;
    var spec := s'.history[|s.history|];
    assert s'.history == s.history + [spec];
    forall id | id in s.calls && s.calls[id].pc.Return?
      ensures CallOk(s'.history, s.calls[id])
    {
      var c := s.calls[id];
      LevelBetweenExtends(s.history, spec, c.start, |s.history| - 1, c.name, c.pc.level);
    }
    forall i | 0 <= i < |s.returned|
      ensures ReturnOk(s'.history, s.returned[i])
    {
      var r := s.returned[i];
      assert r.end < |s.history| by { EndsWithin(s.history, r); }
      LevelBetweenExtends(s.history, spec, r.start, r.end, r.name, r.level);
    }
  }

  lemma EndsWithin(history: seq<Parsed>, r: Returned)
    requires ReturnOk(history, r)
    ensures r.end < |history|
  {
  }

  /** A level that holds now holds between a call's start and now. */
  lemma LevelNow(history: seq<Parsed>, start: nat, name: string, level: Level)
    requires start < |history| && IsLevelIn(history[|history| - 1], name, level)
    ensures LevelBetween(history, start, |history| - 1, name, level)
  {
  }

  lemma CallStepKeepsInv(s: State, s': State, id: nat)
    requires Inv(s) && (Begins(s, s', id) || Consults(s, s', id) || Computes(s, s', id) || Returns(s, s', id))
    ensures Inv(s')
  {
    hide IsLevelIn, LevelBetween;
    if id in s'.calls && s'.calls[id].pc.Return? {
      LevelNow(s.history, s.calls[id].start, s.calls[id].name, s'.calls[id].pc.level);
    }
  }

  lemma StepKeepsInv(s: State, s': State)
    requires Inv(s) && Next(s, s')
    ensures Inv(s')
  {
    hide Inv, Activates, Begins, Consults, Computes, Returns;
    if Activates(s, s') {
      ActivationKeepsInv(s, s');
    } else {
      var id :| Begins(s, s', id) || Consults(s, s', id) || Computes(s, s', id) || Returns(s, s', id);
      CallStepKeepsInv(s, s', id);
    }
  }

  /** In every interleaving, every level returned is that of the logger under some specification that was active
      between the call's start and its return. */
  lemma {:induction false} LevelsAreCurrent(run: seq<State>, n: nat)
    requires Run(run) && n < |run|
    ensures Inv(run[n])
    ensures forall i | 0 <= i < |run[n].returned| :: ReturnOk(run[n].history, run[n].returned[i])
  {
    hide Next;
    if n == 0 {
    } else {
      LevelsAreCurrent(run, n - 1);
      assert Next(run[n - 1], run[n - 1 + 1]);
      StepKeepsInv(run[n - 1], run[n]);
    }
  }

  // ----- Panics -----

  lemma StuckStays(s: State, s': State)
    requires s.stuck && Next(s, s')
    ensures s'.stuck
  {
  }

  /** A panic leaves the mutex locked for good. It happens only when a level is asked for before the first
      activation, and then no specification is ever activated and no call ever returns. */
  lemma {:induction false} PanicIsFinal(run: seq<State>, n: nat, m: nat)
    requires Run(run) && n <= m < |run| && run[n].stuck
    ensures run[m].stuck && run[m].history == [Parsed(map[], INFO)] && run[m].returned == []
    decreases m
  {
    hide Next;
    LevelsAreCurrent(run, m);
    if n < m {
      PanicIsFinal(run, n, m - 1);
      assert Next(run[m - 1], run[m - 1 + 1]);
      StuckStays(run[m - 1], run[m]);
    }
  }
}
