/** How large the caches grow while calls run concurrently (discovery/authcache.go). */
module AuthCacheSize {
  import opened Basics
  import opened AccessCache
  import opened AuthCacheProtocol

  /** The calls that have passed the size check of a cache and may still store an entry there. */
  ghost function Pending(s: State, i: nat): set<nat> {
    set id | id in s.calls && s.calls[id].cache == i &&
             (s.calls[id].pc.Compute? || s.calls[id].pc.Compare? || s.calls[id].pc.Store?)
  }

  ghost predicate SizeOk(conf: Settings, limit: nat, s: State, i: nat)
    requires i < |s.caches|
  {
    |s.caches[i].contents.entries| + |Pending(s, i)| <= conf.maxCacheSize + limit - 1
  }

  /** No call waits for a cache that does not exist yet. */
  ghost predicate SizeInv(conf: Settings, limit: nat, s: State) {
    && (forall id | id in s.calls && s.calls[id].Bound() :: s.calls[id].cache < |s.caches|)
    && (s.registered.Some? ==> s.registered.value < |s.caches|)
    && (forall i | 0 <= i < |s.caches| :: SizeOk(conf, limit, s, i))
  }

  /** Whether a call is pending follows from where it is. */
  lemma PendingCounts(s: State, i: nat, id: nat)
    requires id in s.calls
    ensures |Pending(s, i)| <= |s.calls|
    ensures id !in Pending(s, i) ==> |Pending(s, i)| + 1 <= |s.calls| && |Pending(s, i) + {id}| == |Pending(s, i)| + 1
    ensures id in Pending(s, i) ==> |Pending(s, i) - {id}| == |Pending(s, i)| - 1
  {
    SubsetSize(Pending(s, i), s.calls.Keys);
    if id !in Pending(s, i) { SubsetSize(Pending(s, i) + {id}, s.calls.Keys); }
  }

  /** How the pending calls of the caller's own cache change in one step. */
  lemma PendingChanges(elig: Eligibility, conf: Settings, s: State, s': State, id: nat)
    requires id in s.calls && s.calls[id].Bound() && CallSteps(elig, conf, s, s', id)
    ensures Pending(s', s.calls[id].cache) ==
            var before := Pending(s, s.calls[id].cache);
            match s.calls[id].pc
            case CheckSize => if s.caches[s.calls[id].cache].contents.Crowded(conf) then before else before + {id}
            case Purge => before + {id}
            case Compare => if s.calls[id].currSeq != s.Current() then before - {id} else before
            case Store => before - {id}
            case _ => before
  {
  }

  lemma OtherCachesKeepSize(elig: Eligibility, conf: Settings, s: State, s': State, id: nat, i: nat)
    requires id in s.calls && s.calls[id].Bound() && CallSteps(elig, conf, s, s', id)
    requires i < |s.caches| && i != s.calls[id].cache
    ensures |s'.caches| == |s.caches| && s'.caches[i] == s.caches[i] && Pending(s', i) == Pending(s, i)
  {
    StepIsLocal(elig, conf, s, s', id, i);
    hide CallSteps;
  }

  lemma CacheStepKeepsSize(elig: Eligibility, conf: Settings, limit: nat, s: State, s': State, id: nat)
    requires conf.maxCacheSize >= 1 && conf.ToEvict() != 0
    requires |s.calls| <= limit && id in s.calls && s.calls[id].Bound()
    requires SizeInv(conf, limit, s) && CallSteps(elig, conf, s, s', id)
    ensures SizeInv(conf, limit, s')
  {
    var own := s.calls[id].cache;
    assert |s'.caches| == |s.caches| && s'.registered == s.registered;
    forall i | 0 <= i < |s'.caches|
      ensures SizeOk(conf, limit, s', i)
    {
      assert SizeOk(conf, limit, s, i);
      if i == own { OwnCacheKeepsSize(elig, conf, limit, s, s', id); }
      else { OtherCachesKeepSize(elig, conf, s, s', id, i); }
    }
  }

  /** How the number of entries of the caller's own cache changes in one step. */
  lemma EntriesChange(elig: Eligibility, conf: Settings, s: State, s': State, id: nat)
    requires id in s.calls && s.calls[id].Bound() && CallSteps(elig, conf, s, s', id) && conf.ToEvict() != 0
    ensures |s'.caches| == |s.caches|
    ensures var before, after := |s.caches[s.calls[id].cache].contents.entries|,
            |s'.caches[s.calls[id].cache].contents.entries|;
            match s.calls[id].pc
            case ConfigChange => after == 0
            case Purge => after == 0 || after < before
            case Store => after <= before + 1
            case _ => after == before
  {
  }

  lemma OwnCacheKeepsSize(elig: Eligibility, conf: Settings, limit: nat, s: State, s': State, id: nat)
    requires conf.maxCacheSize >= 1 && conf.ToEvict() != 0
    requires |s.calls| <= limit && id in s.calls && s.calls[id].Bound() && s.calls[id].cache < |s.caches|
    requires SizeOk(conf, limit, s, s.calls[id].cache) && CallSteps(elig, conf, s, s', id)
    ensures |s'.caches| == |s.caches| && SizeOk(conf, limit, s', s.calls[id].cache)
  {
    var i := s.calls[id].cache;
    PendingChanges(elig, conf, s, s', id);
    EntriesChange(elig, conf, s, s', id);
    PendingCounts(s, i, id);
    assert id in Pending(s, i) <==> s.calls[id].pc.Compute? || s.calls[id].pc.Compare? || s.calls[id].pc.Store?;
    hide Pending, CallSteps;
  }

  /** A call without a cache is pending nowhere, and stays so. */
  lemma EntryKeepsPending(elig: Eligibility, conf: Settings, s: State, s': State, id: nat, i: nat)
    requires id in s.calls && !s.calls[id].Bound() && CallSteps(elig, conf, s, s', id)
    ensures Pending(s', i) == Pending(s, i) && id !in Pending(s, i)
  {
  }

  lemma EntryStepKeepsSize(elig: Eligibility, conf: Settings, limit: nat, s: State, s': State, id: nat)
    requires conf.maxCacheSize >= 1 && |s.calls| <= limit && id in s.calls && !s.calls[id].Bound()
    requires SizeInv(conf, limit, s) && CallSteps(elig, conf, s, s', id)
    ensures SizeInv(conf, limit, s')
  {
    forall i | 0 <= i < |s'.caches|
      ensures SizeOk(conf, limit, s', i)
    {
      EntryKeepsPending(elig, conf, s, s', id, i);
      PendingCounts(s, i, id);
      assert i < |s.caches| ==> SizeOk(conf, limit, s, i);
    }
    hide Pending;
  }

  lemma OtherStepKeepsSize(conf: Settings, limit: nat, s: State, s': State)
    requires SizeInv(conf, limit, s) && (SequenceMoves(s, s') || CallBegins(s, s'))
    ensures SizeInv(conf, limit, s')
  {
    forall i | 0 <= i < |s'.caches|
      ensures SizeOk(conf, limit, s', i)
    {
      assert SizeOk(conf, limit, s, i);
      assert Pending(s', i) == Pending(s, i);
    }
  }

  lemma StepKeepsSize(elig: Eligibility, conf: Settings, limit: nat, s: State, s': State)
    requires conf.maxCacheSize >= 1 && conf.ToEvict() != 0
    requires |s.calls| <= limit && SizeInv(conf, limit, s) && Steps(elig, conf, s, s')
    ensures SizeInv(conf, limit, s')
  {
    hide CallSteps, SequenceMoves, CallBegins, SizeInv;
    if SequenceMoves(s, s') || CallBegins(s, s') {
      OtherStepKeepsSize(conf, limit, s, s');
    } else {
      var id :| CallSteps(elig, conf, s, s', id);
      StepperExists(elig, conf, s, s', id);
      if s.calls[id].Bound() {
        CacheStepKeepsSize(elig, conf, limit, s, s', id);
      } else {
        EntryStepKeepsSize(elig, conf, limit, s, s', id);
      }
    }
  }

  ghost predicate Within(bound: int, s: State) {
    forall i | 0 <= i < |s.caches| :: |s.caches[i].contents.entries| <= bound
  }

  /** When a purge evicts something and there are never more than `limit` calls at once, no cache ever
      holds more than `maxCacheSize + limit - 1` entries. */
  lemma {:induction false} CacheSizeIsBounded(elig: Eligibility, conf: Settings, limit: nat, run: seq<State>, n: nat)
    requires conf.maxCacheSize >= 1 && conf.ToEvict() != 0
    requires Run(elig, conf, run) && n < |run| && AtMost(limit, run)
    ensures SizeInv(conf, limit, run[n]) && Within(conf.maxCacheSize + limit - 1, run[n])
  {
    hide Steps;
    if n == 0 {
    } else {
      CacheSizeIsBounded(elig, conf, limit, run, n - 1);
      assert Steps(elig, conf, run[n - 1], run[n - 1 + 1]);
      StepKeepsSize(elig, conf, limit, run[n - 1], run[n]);
    }
    forall i | 0 <= i < |run[n].caches|
      ensures |run[n].caches[i].contents.entries| <= conf.maxCacheSize + limit - 1
    {
      assert SizeOk(conf, limit, run[n], i);
    }
  }

  // ----- When the size is bounded at all -----

  /** One call after the other. */
  ghost predicate Serial(elig: Eligibility, conf: Settings, run: seq<State>) {
    && |run| > 0 && AtMost(1, run)
    && forall i | 0 <= i < |run| - 1 :: Steps(elig, conf, run[i], run[i + 1])
  }

  lemma SerialJoin(elig: Eligibility, conf: Settings, a: seq<State>, b: seq<State>)
    requires Serial(elig, conf, a) && Serial(elig, conf, b) && a[|a| - 1] == b[0]
    ensures Serial(elig, conf, a + b[1..]) && (a + b[1..])[0] == a[0]
    ensures (a + b[1..])[|a| + |b| - 2] == b[|b| - 1]
  {
    hide Steps;
    var run := a + b[1..];
    forall i | 0 <= i < |run| - 1
      ensures Steps(elig, conf, run[i], run[i + 1])
    {
      if i < |a| - 1 {
        assert Steps(elig, conf, a[i], a[i + 1]);
      } else {
        assert Steps(elig, conf, b[i - |a| + 1], b[i - |a| + 1 + 1]);
      }
    }
  }

  /** A single cache with these entries, at config sequence 0, and at most this call. */
  ghost function Single(entries: map<Data, Verdict>, calls: map<nat, Call>, returned: seq<Return>): State {
    State([0], [Cache(Contents(0, entries), None)], Some(0), calls, returned)
  }

  ghost function At(data: Data, pc: Pc, verdict: Verdict): map<nat, Call> {
    map[0 := Call(data, 0, pc, 0, 0, verdict)]
  }

  lemma CallMisses(elig: Eligibility, conf: Settings, e: map<Data, Verdict>, r: seq<Return>, d: Data)
    returns (run: seq<State>)
    requires conf.enabled && d !in e
    ensures Serial(elig, conf, run) && run[0] == Single(e, At(d, ReadSequence, Eligible), r)
    ensures run[|run| - 1] == Single(e, At(d, CheckSize, Eligible), r)
  {
    var s0 := Single(e, At(d, ReadSequence, Eligible), r);
    var s1 := Single(e, At(d, CheckValid, Eligible), r);
    var s2 := Single(e, At(d, LookUp, Eligible), r);
    var s3 := Single(e, At(d, CheckSize, Eligible), r);
    assert CallSteps(elig, conf, s0, s1, 0);
    assert CallSteps(elig, conf, s1, s2, 0);
    assert CallSteps(elig, conf, s2, s3, 0);
    run := [s0, s1, s2, s3];
  }

  lemma PurgeEvictsNothing(elig: Eligibility, conf: Settings, e: map<Data, Verdict>, r: seq<Return>, d: Data)
    returns (run: seq<State>)
    requires conf.enabled && conf.ToEvict() == 0
    ensures Serial(elig, conf, run) && run[0] == Single(e, At(d, CheckSize, Eligible), r)
    ensures run[|run| - 1] == Single(e, At(d, Compute, Eligible), r)
  {
    var s0 := Single(e, At(d, CheckSize, Eligible), r);
    var s1 := Single(e, At(d, Purge, Eligible), r);
    var s2 := Single(e, At(d, Compute, Eligible), r);
    if Contents(0, e).Crowded(conf) {
      assert CallSteps(elig, conf, s0, s1, 0);
      assert Purged(e, e, 0) && Contents(0, e).(entries := e) == Contents(0, e);
      assert CallSteps(elig, conf, s1, s2, 0);
      run := [s0, s1, s2];
    } else {
      assert CallSteps(elig, conf, s0, s2, 0);
      run := [s0, s2];
    }
  }

  lemma VerdictIsComputed(elig: Eligibility, conf: Settings, e: map<Data, Verdict>, r: seq<Return>, d: Data)
    returns (run: seq<State>)
    requires conf.enabled
    ensures Serial(elig, conf, run) && run[0] == Single(e, At(d, Compute, Eligible), r)
    ensures run[|run| - 1] == Single(e, At(d, Compare, elig(0, d)), r)
  {
    var s0, s1 := Single(e, At(d, Compute, Eligible), r), Single(e, At(d, Compare, elig(0, d)), r);
    assert CallSteps(elig, conf, s0, s1, 0);
    run := [s0, s1];
  }

  lemma VerdictIsStored(elig: Eligibility, conf: Settings, e: map<Data, Verdict>, r: seq<Return>, d: Data)
    returns (run: seq<State>)
    requires conf.enabled
    ensures Serial(elig, conf, run) && run[0] == Single(e, At(d, Compare, elig(0, d)), r)
    ensures run[|run| - 1] == Single(e[d := elig(0, d)], map[], r + [Return(d, 0, 0, elig(0, d))])
  {
    var v := elig(0, d);
    var s0 := Single(e, At(d, Compare, v), r);
    var s1 := Single(e, At(d, Pc.Store, v), r).Lock(0, Some(0));
    var s2 := Single(e[d := v], map[], r + [Return(d, 0, 0, v)]);
    assert CallSteps(elig, conf, s0, s1, 0);
    assert CallSteps(elig, conf, s1, s2, 0);
    run := [s0, s1, s2];
  }

  lemma CallEnters(elig: Eligibility, conf: Settings, e: map<Data, Verdict>, r: seq<Return>, d: Data)
    returns (run: seq<State>)
    requires conf.enabled
    ensures Serial(elig, conf, run) && run[0] == Single(e, map[], r)
    ensures run[|run| - 1] == Single(e, At(d, ReadSequence, Eligible), r)
  {
    var s0 := Single(e, map[], r);
    var s1 := Single(e, At(d, FindCache, Eligible), r);
    var s2 := Single(e, At(d, ReadSequence, Eligible), r);
    assert CallBegins(s0, s1);
    assert CallSteps(elig, conf, s1, s2, 0);
    run := [s0, s1, s2];
  }

  lemma FirstCallEnters(elig: Eligibility, conf: Settings, d: Data) returns (run: seq<State>)
    requires conf.enabled
    ensures Serial(elig, conf, run) && Init(run[0])
    ensures run[|run| - 1] == Single(map[], At(d, ReadSequence, Eligible), [])
  {
    var s0 := State([0], [], None, map[], []);
    var s1 := s0.Goto(0, Call(d, 0, FindCache, 0, 0, Eligible));
    var s2 := s0.Goto(0, Call(d, 0, MakeCache, 0, 0, Eligible));
    var s3 := Single(map[], At(d, ReadSequence, Eligible), []);
    assert CallBegins(s0, s1);
    assert CallSteps(elig, conf, s1, s2, 0);
    assert CallSteps(elig, conf, s2, s3, 0);
    run := [s0, s1, s2, s3];
  }

  /** When a purge evicts nothing, calls one after the other fill a cache as far as one likes. */
  lemma {:induction false} CacheGrows(elig: Eligibility, conf: Settings, n: nat)
    returns (run: seq<State>, e: map<Data, Verdict>, r: seq<Return>)
    requires conf.enabled && conf.ToEvict() == 0
    ensures Serial(elig, conf, run) && Init(run[0]) && run[|run| - 1] == Single(e, map[], r)
    ensures |e| == n + 1 && forall k | k in e :: |k| <= n
  {
    hide Steps;
    var d: Data := seq(n, _ => 'a');
    var enter;
    if n == 0 {
      e, r := map[], [];
      enter := FirstCallEnters(elig, conf, d);
    } else {
      run, e, r := CacheGrows(elig, conf, n - 1);
      assert forall k | k in e :: |k| <= n - 1;
      enter := CallEnters(elig, conf, e, r, d);
      SerialJoin(elig, conf, run, enter);
      enter := run + enter[1..];
    }
    assert d !in e;
    var miss := CallMisses(elig, conf, e, r, d);
    SerialJoin(elig, conf, enter, miss);
    run := enter + miss[1..];
    var purge := PurgeEvictsNothing(elig, conf, e, r, d);
    SerialJoin(elig, conf, run, purge);
    run := run + purge[1..];
    var computed := VerdictIsComputed(elig, conf, e, r, d);
    SerialJoin(elig, conf, run, computed);
    run := run + computed[1..];
    var stored := VerdictIsStored(elig, conf, e, r, d);
    SerialJoin(elig, conf, run, stored);
    run := run + stored[1..];
    e, r := e[d := elig(0, d)], r + [Return(d, 0, 0, elig(0, d))];
  }

  /** Every run keeps its caches within the maximum and the calls at once, less one. */
  ghost predicate Bounded(elig: Eligibility, conf: Settings) {
    forall limit: nat, run, n: nat | Run(elig, conf, run) && n < |run| && AtMost(limit, run) ::
      Within(conf.maxCacheSize + limit - 1, run[n])
  }

  /** The caches stay bounded exactly when the retention ratio lets a purge evict something. */
  lemma BoundedExactly(elig: Eligibility, conf: Settings)
    requires conf.maxCacheSize >= 1
    ensures Bounded(elig, conf) <==> !conf.enabled || conf.ToEvict() != 0
  {
    hide Run, AtMost;
    if !conf.enabled {
      forall limit: nat, run, n: nat | Run(elig, conf, run) && n < |run| && AtMost(limit, run)
        ensures Within(conf.maxCacheSize + limit - 1, run[n])
      {
        DisabledMakesNoCache(elig, conf, run, n);
      }
    } else if conf.ToEvict() != 0 {
      forall limit: nat, run, n: nat | Run(elig, conf, run) && n < |run| && AtMost(limit, run)
        ensures Within(conf.maxCacheSize + limit - 1, run[n])
      {
        CacheSizeIsBounded(elig, conf, limit, run, n);
      }
    } else {
      Overgrown(elig, conf);
    }
  }

  lemma Overgrown(elig: Eligibility, conf: Settings)
    requires conf.maxCacheSize >= 1 && conf.enabled && conf.ToEvict() == 0
    ensures !Bounded(elig, conf)
  {
    hide Steps;
    var run, e, r := CacheGrows(elig, conf, conf.maxCacheSize);
    var last := run[|run| - 1];
    assert last.caches[0].contents.entries == e;
    assert !Within(conf.maxCacheSize + 1 - 1, last);
    assert Run(elig, conf, run) && AtMost(1, run);
  }
}
