/** The verdicts of concurrent calls, told by the states of a run in which a call is in progress
    (discovery/authcache.go). */
module AuthCacheWindows {
  import opened AccessCache
  import opened AuthCacheProtocol
  import opened Histories

  /** The call begins in state `a`, is in progress until it returns in state `b`, and this is what it returns. */
  ghost predicate Spans(run: seq<State>, id: nat, a: nat, b: nat, data: Data, verdict: Verdict) {
    && 0 < a < b < |run| && id !in run[a - 1].calls && id !in run[b].calls
    && (forall k | a <= k < b :: id in run[k].calls && run[k].calls[id].data == data)
    && exists start, end :: run[b].returned == run[b - 1].returned + [Return(data, start, end, verdict)]
  }

  /** The config sequence that is current in this state of the run makes the request come out so. */
  ghost predicate RightAt(elig: Eligibility, s: State, data: Data, verdict: Verdict) {
    |s.history| > 0 && verdict == elig(s.Current(), data)
  }

  /** Whatever a run has returned, some call returned it, and it is the eligibility under the sequence that was
      current in one of the states in which that call was in progress. */
  lemma VerdictsWithinCalls(elig: Eligibility, conf: Settings, run: seq<State>, n: nat, i: nat)
    requires Run(elig, conf, run) && n < |run| && i < |run[n].returned|
    ensures var r := run[n].returned[i];
            exists id, a: nat, b: nat, k ::
              && Spans(run, id, a, b, r.data, r.verdict) && b <= n
              && a <= k < b && RightAt(elig, run[k], r.data, r.verdict)
  {
    hide Run, ReturnOk, Steps;
    var r := run[n].returned[i];
    var id, b := ReturnedAt(elig, conf, run, n, i);
    var a := BegunAt(elig, conf, run, b - 1, id);
    var k := MomentIn(elig, conf, run, b, a, r);
    assert Spans(run, id, a, b, r.data, r.verdict) by {
      assert run[b].returned == run[b - 1].returned + [Return(r.data, r.start, r.end, r.verdict)];
    }
  }

  /** What a step does to the calls and to what has been returned. */
  lemma StepFacts(elig: Eligibility, conf: Settings, s: State, s': State)
    requires Steps(elig, conf, s, s')
    ensures |s.history| > 0 && s.history <= s'.history && |s'.history| <= |s.history| + 1
    ensures forall id | id in s'.calls && id in s.calls ::
              s'.calls[id].data == s.calls[id].data && s'.calls[id].start == s.calls[id].start
    ensures forall id | id in s'.calls && id !in s.calls ::
              s'.calls[id].start == |s.history| - 1 && s'.history == s.history
    ensures s'.returned == s.returned || exists id :: Leaves(s, s', id)
  {
    hide CallSteps, Leaves;
    if id :| CallSteps(elig, conf, s, s', id) { CallFacts(elig, conf, s, s', id); }
  }

  lemma CallFacts(elig: Eligibility, conf: Settings, s: State, s': State, id: nat)
    requires CallSteps(elig, conf, s, s', id)
    ensures |s.history| > 0 && s'.history == s.history && s'.calls.Keys <= s.calls.Keys
    ensures forall k | k in s'.calls ::
              s'.calls[k].data == s.calls[k].data && s'.calls[k].start == s.calls[k].start
    ensures s'.returned == s.returned || Leaves(s, s', id)
  {
    hide Purged, Leaves;
    if id in s'.calls {
    } else {
      ReturnLeaves(elig, conf, s, s', id);
    }
  }

  lemma ReturnLeaves(elig: Eligibility, conf: Settings, s: State, s': State, id: nat)
    requires CallSteps(elig, conf, s, s', id) && id !in s'.calls
    ensures Leaves(s, s', id)
  {
    hide Purged;
  }

  ghost predicate Leaves(s: State, s': State, id: nat) {
    && id in s.calls && id !in s'.calls && |s.history| > 0 && s'.history == s.history
    && |s'.returned| == |s.returned| + 1 && s.returned <= s'.returned
    && var r := s'.returned[|s.returned|];
       r.data == s.calls[id].data && r.start == s.calls[id].start && r.end == |s.history| - 1
  }

  lemma StepOf(elig: Eligibility, conf: Settings, run: seq<State>, n: nat)
    requires Run(elig, conf, run) && 0 < n < |run|
    ensures Steps(elig, conf, run[n - 1], run[n])
  {
    assert Steps(elig, conf, run[n - 1], run[n - 1 + 1]);
  }

  lemma {:induction false} ReturnedAt(elig: Eligibility, conf: Settings, run: seq<State>, n: nat, i: nat)
    returns (id: nat, b: nat)
    requires Run(elig, conf, run) && n < |run| && i < |run[n].returned|
    ensures 0 < b <= n && Leaves(run[b - 1], run[b], id)
    ensures run[b].returned == run[b - 1].returned + [run[n].returned[i]]
    decreases n
  {
    hide Run, Steps;
    assert n > 0 by { NothingReturned(elig, conf, run); }
    StepOf(elig, conf, run, n);
    StepFacts(elig, conf, run[n - 1], run[n]);
    if i < |run[n - 1].returned| {
      id, b := ReturnedAt(elig, conf, run, n - 1, i);
    } else {
      id :| Leaves(run[n - 1], run[n], id);
      b := n;
    }
  }

  lemma NothingReturned(elig: Eligibility, conf: Settings, run: seq<State>)
    requires Run(elig, conf, run)
    ensures run[0].returned == [] && run[0].calls == map[]
  {
  }

  lemma {:induction false} BegunAt(elig: Eligibility, conf: Settings, run: seq<State>, n: nat, id: nat)
    returns (a: nat)
    requires Run(elig, conf, run) && n < |run| && id in run[n].calls
    ensures 0 < a <= n && id !in run[a - 1].calls
    ensures forall k | a <= k <= n :: id in run[k].calls && run[k].calls[id].data == run[n].calls[id].data
    ensures |run[a].history| > 0 && run[n].calls[id].start == |run[a].history| - 1
    decreases n
  {
    hide Run, Steps;
    assert n > 0 by { NothingReturned(elig, conf, run); }
    StepOf(elig, conf, run, n);
    StepFacts(elig, conf, run[n - 1], run[n]);
    if id in run[n - 1].calls {
      a := BegunAt(elig, conf, run, n - 1, id);
    } else {
      a := n;
    }
  }

  ghost function Logs(run: seq<State>): (logs: seq<seq<nat>>)
    ensures |logs| == |run| && forall k | 0 <= k < |run| :: logs[k] == run[k].history
  {
    seq(|run|, k requires 0 <= k < |run| => run[k].history)
  }

  lemma LogsGrow(elig: Eligibility, conf: Settings, run: seq<State>)
    requires Run(elig, conf, run)
    ensures Grows(Logs(run))
  {
    hide Run, Steps;
    forall k | 0 <= k < |run| - 1
      ensures run[k].history <= run[k + 1].history && |run[k + 1].history| <= |run[k].history| + 1
    {
      StepOf(elig, conf, run, k + 1);
      StepFacts(elig, conf, run[k], run[k + 1]);
    }
  }

  lemma MomentIn(elig: Eligibility, conf: Settings, run: seq<State>, b: nat, a: nat, r: Return) returns (k: nat)
    requires Run(elig, conf, run) && 0 < a < b < |run|
    requires |run[b].returned| > 0 && run[b].returned[|run[b].returned| - 1] == r
    requires |run[a].history| > 0 && r.start == |run[a].history| - 1 && r.end == |run[b - 1].history| - 1
    requires run[b].history == run[b - 1].history
    ensures a <= k < b && RightAt(elig, run[k], r.data, r.verdict)
  {
    hide Run, Inv, ReturnOk, Grows;
    VerdictsAreCurrent(elig, conf, run, b);
    var j := ReturnMoment(elig, run[b].history, r);
    LogsGrow(elig, conf, run);
    k := WasLast(Logs(run), a, b - 1, j);
  }

  lemma ReturnMoment(elig: Eligibility, history: seq<nat>, r: Return) returns (j: nat)
    requires ReturnOk(elig, history, r)
    ensures r.start <= j <= r.end < |history| && r.verdict == elig(history[j], r.data)
  {
    j :| r.start <= j <= r.end && r.verdict == elig(history[j], r.data);
  }
}
