/** The levels that concurrent lookups return, told by the states of a run in which a lookup is in progress
    (common/flogging/loggerlevels.go). */
module LevelWindows {
  import opened LogLevels
  import opened LevelRuns
  import opened Histories

  /** The call begins in state `a`, is in progress until it returns in state `b`, and this is what it returns. */
  ghost predicate Spans(run: seq<State>, id: nat, a: nat, b: nat, name: string, level: Level) {
    && 0 < a < b < |run| && id !in run[a - 1].calls && id !in run[b].calls
    && (forall k | a <= k < b :: id in run[k].calls && run[k].calls[id].name == name)
    && exists start, end :: run[b].returned == run[b - 1].returned + [Returned(name, start, end, level)]
  }

  /** The specification that is active in this state of the run gives the logger this level. */
  ghost predicate RightAt(s: State, name: string, level: Level) {
    |s.history| > 0 && IsLevelIn(s.Active(), name, level)
  }

  /** Whatever a run has returned, some lookup returned it, and it is the level of the logger under the specification
      that was active in one of the states in which that lookup was in progress. */
  lemma LevelsWithinCalls(run: seq<State>, n: nat, i: nat)
    requires Run(run) && n < |run| && i < |run[n].returned|
    ensures var r := run[n].returned[i];
            exists id, a: nat, b: nat, k ::
              Spans(run, id, a, b, r.name, r.level) && b <= n && a <= k < b && RightAt(run[k], r.name, r.level)
  {
    hide Run, ReturnOk, Next, RightAt;
    var r := run[n].returned[i];
    var id, b := ReturnedAt(run, n, i);
    var a := BegunAt(run, b - 1, id);
    var k := MomentIn(run, b, a, r);
    assert Spans(run, id, a, b, r.name, r.level) by {
      assert run[b].returned == run[b - 1].returned + [Returned(r.name, r.start, r.end, r.level)];
    }
  }

  ghost predicate Leaves(s: State, s': State, id: nat) {
    && id in s.calls && id !in s'.calls && |s.history| > 0 && s'.history == s.history
    && |s'.returned| == |s.returned| + 1 && s.returned <= s'.returned
    && var r := s'.returned[|s.returned|];
       r.name == s.calls[id].name && r.start == s.calls[id].start && r.end == |s.history| - 1
  }

  /** What a step does to the calls and to what has been returned. */
  lemma StepFacts(s: State, s': State)
    requires Next(s, s')
    ensures s.history <= s'.history && |s'.history| <= |s.history| + 1
    ensures forall id | id in s'.calls && id in s.calls ::
              s'.calls[id].name == s.calls[id].name && s'.calls[id].start == s.calls[id].start
    ensures forall id | id in s'.calls && id !in s.calls ::
              |s.history| > 0 && s'.calls[id].start == |s.history| - 1 && s'.history == s.history
    ensures s'.returned == s.returned || exists id :: Leaves(s, s', id)
  {
    hide IsLevelIn, Parse;
    if id :| Returns(s, s', id) { assert Leaves(s, s', id); }
  }

  lemma StepOf(run: seq<State>, n: nat)
    requires Run(run) && 0 < n < |run|
    ensures Next(run[n - 1], run[n])
  {
    assert Next(run[n - 1], run[n - 1 + 1]);
  }

  lemma NothingYet(run: seq<State>)
    requires Run(run)
    ensures run[0].returned == [] && run[0].calls == map[]
  {
  }

  lemma {:induction false} ReturnedAt(run: seq<State>, n: nat, i: nat) returns (id: nat, b: nat)
    requires Run(run) && n < |run| && i < |run[n].returned|
    ensures 0 < b <= n && Leaves(run[b - 1], run[b], id)
    ensures run[b].returned == run[b - 1].returned + [run[n].returned[i]]
    decreases n
  {
    hide Run, Next;
    NothingYet(run);
    StepOf(run, n);
    StepFacts(run[n - 1], run[n]);
    if i < |run[n - 1].returned| {
      id, b := ReturnedAt(run, n - 1, i);
    } else {
      id :| Leaves(run[n - 1], run[n], id);
      b := n;
    }
  }

  lemma {:induction false} BegunAt(run: seq<State>, n: nat, id: nat) returns (a: nat)
    requires Run(run) && n < |run| && id in run[n].calls
    ensures 0 < a <= n && id !in run[a - 1].calls
    ensures forall k | a <= k <= n :: id in run[k].calls && run[k].calls[id].name == run[n].calls[id].name
    ensures |run[a].history| > 0 && run[n].calls[id].start == |run[a].history| - 1
    decreases n
  {
    hide Run, Next;
    NothingYet(run);
    StepOf(run, n);
    StepFacts(run[n - 1], run[n]);
    if id in run[n - 1].calls {
      a := BegunAt(run, n - 1, id);
    } else {
      a := n;
    }
  }

  ghost function Logs(run: seq<State>): (logs: seq<seq<Parsed>>)
    ensures |logs| == |run| && forall k | 0 <= k < |run| :: logs[k] == run[k].history
  {
    seq(|run|, k requires 0 <= k < |run| => run[k].history)
  }

  lemma LogsGrow(run: seq<State>)
    requires Run(run)
    ensures Grows(Logs(run))
  {
    hide Run, Next;
    forall k | 0 <= k < |run| - 1
      ensures run[k].history <= run[k + 1].history && |run[k + 1].history| <= |run[k].history| + 1
    {
      StepOf(run, k + 1);
      StepFacts(run[k], run[k + 1]);
    }
  }

  lemma MomentIn(run: seq<State>, b: nat, a: nat, r: Returned) returns (k: nat)
    requires Run(run) && 0 < a < b < |run|
    requires |run[b].returned| > 0 && run[b].returned[|run[b].returned| - 1] == r
    requires |run[a].history| > 0 && r.start == |run[a].history| - 1 && r.end == |run[b - 1].history| - 1
    requires run[b].history == run[b - 1].history
    ensures a <= k < b && RightAt(run[k], r.name, r.level)
  {
    hide Run, Inv, ReturnOk, Grows, IsLevelIn;
    LevelsAreCurrent(run, b);
    var j := ReturnMoment(run[b].history, r);
    LogsGrow(run);
    k := WasLast(Logs(run), a, b - 1, j);
  }

  lemma ReturnMoment(history: seq<Parsed>, r: Returned) returns (j: nat)
    requires ReturnOk(history, r)
    ensures r.start <= j <= r.end < |history| && IsLevelIn(history[j], r.name, r.level)
  {
    j :| r.start <= j <= r.end && IsLevelIn(history[j], r.name, r.level);
  }
}
