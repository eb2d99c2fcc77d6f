/** A call that meets no other call on its cache does what the class of the access cache says, whatever the config
    sequence does meanwhile (discovery/authcache.go). */
module AuthCacheAlone {
  import opened AccessCache
  import opened AuthCacheProtocol

  /** The call is about to read the sequence, and its cache is not locked. */
  ghost predicate Ready(s: State, id: nat) {
    && s.HasHistory() && id in s.calls && s.calls[id].pc.ReadSequence?
    && s.calls[id].cache < |s.caches| && s.caches[s.calls[id].cache].holder.None?
  }

  ghost predicate AloneStep(elig: Eligibility, conf: Settings, s: State, s': State, id: nat) {
    SequenceMoves(s, s') || CallSteps(elig, conf, s, s', id)
  }

  /** Only this call and the config sequence move; the call is there up to the last state, in which it has returned. */
  ghost predicate AloneRun(elig: Eligibility, conf: Settings, run: seq<State>, id: nat) {
    && |run| > 1 && Ready(run[0], id)
    && (forall n | 0 <= n < |run| - 1 :: id in run[n].calls && AloneStep(elig, conf, run[n], run[n + 1], id))
    && id !in run[|run| - 1].calls
  }

  /** The sequence was current at some time from the first state to the second. */
  ghost predicate Seen(s0: State, s: State, n: nat) {
    exists p :: 0 <= p && |s0.history| - 1 <= p < |s.history| && s.history[p] == n
  }

  /** The call has returned, and served its request with the sequences that it met. */
  ghost predicate Served(elig: Eligibility, conf: Settings, s0: State, s: State, id: nat)
    requires Ready(s0, id)
  {
    var c := s0.calls[id];
    && |s.caches| == |s0.caches| && |s.history| > 0
    && exists currSeq, at, seqAfter, verdict ::
         && Seen(s0, s, currSeq) && Seen(s0, s, at) && Seen(s0, s, seqAfter) && currSeq <= at <= seqAfter
         && Serves(conf, s0.caches[c.cache].contents, s.caches[c.cache].contents, c.data, currSeq, elig(at, c.data),
                   seqAfter, verdict)
         && s.returned == s0.returned + [Return(c.data, c.start, |s.history| - 1, verdict)]
  }

  /** A call alone with its cache serves its request as the class does. */
  lemma AloneServes(elig: Eligibility, conf: Settings, run: seq<State>, id: nat)
    requires AloneRun(elig, conf, run, id)
    ensures Served(elig, conf, run[0], run[|run| - 1], id)
  {
    hide AloneStep, Midway, Served;
    var n := 0;
    MidwayStart(elig, conf, run[0], id);
    while n < |run| - 2
      invariant 0 <= n <= |run| - 2
      invariant Midway(elig, conf, run[0], run[n], id)
    {
      assert AloneStep(elig, conf, run[n], run[n + 1], id);
      AloneStepKeeps(elig, conf, run[0], run[n], run[n + 1], id);
      n := n + 1;
    }
    assert AloneStep(elig, conf, run[n], run[n + 1], id);
    AloneStepKeeps(elig, conf, run[0], run[n], run[n + 1], id);
  }

  // ----- On the way -----

  /** What does not change before the call returns. */
  ghost predicate Alongside(s0: State, s: State, id: nat) {
    && Ready(s0, id) && id in s.calls && s.HasHistory()
    && s0.history <= s.history && s.returned == s0.returned && |s.caches| == |s0.caches|
    && var c0, c := s0.calls[id], s.calls[id];
       && c.data == c0.data && c.start == c0.start && c.cache == c0.cache && c.Bound()
       && (c.Dated() ==> Seen(s0, s, c.currSeq) && c.currSeq <= s.Current())
       && (!c.pc.Store? ==> s.caches[c.cache].holder.None?)
  }

  /** The request was not answered from the cache. */
  predicate Missed(before: Contents, data: Data, currSeq: nat) {
    currSeq != before.lastSequence || data !in before.entries
  }

  function Kept(before: Contents, currSeq: nat): map<Data, Verdict> {
    if currSeq == before.lastSequence then before.entries else map[]
  }

  ghost predicate Trimmed(conf: Settings, kept: map<Data, Verdict>, left: map<Data, Verdict>) {
    if |kept| >= conf.maxCacheSize then Purged(kept, left, conf.ToEvict()) else left == kept
  }

  ghost predicate ComputedAt(elig: Eligibility, s0: State, s: State, c: Call) {
    exists at: nat :: Seen(s0, s, at) && c.currSeq <= at && c.verdict == elig(at, c.data)
  }

  ghost predicate Midway(elig: Eligibility, conf: Settings, s0: State, s: State, id: nat) {
    && Alongside(s0, s, id)
    && var c := s.calls[id];
       var before, now := s0.caches[c.cache].contents, s.caches[c.cache].contents;
       var kept := Kept(before, c.currSeq);
       match c.pc
       case ReadSequence => now == before
       case CheckValid => now == before
       case LookUp => now == before && c.currSeq == before.lastSequence
       case ConfigChange => now == before && c.currSeq != before.lastSequence
       case CheckSize => Missed(before, c.data, c.currSeq) && now == Contents(c.currSeq, kept)
       case Purge =>
         Missed(before, c.data, c.currSeq) && now == Contents(c.currSeq, kept) && |kept| >= conf.maxCacheSize
       case Compute =>
         Missed(before, c.data, c.currSeq) && now.lastSequence == c.currSeq && Trimmed(conf, kept, now.entries)
       case Compare =>
         && Missed(before, c.data, c.currSeq) && now.lastSequence == c.currSeq && Trimmed(conf, kept, now.entries)
         && ComputedAt(elig, s0, s, c)
       case Store =>
         && Missed(before, c.data, c.currSeq) && now.lastSequence == c.currSeq && Trimmed(conf, kept, now.entries)
         && c.verdict == elig(c.currSeq, c.data)
       case _ => false
  }

  lemma MidwayStart(elig: Eligibility, conf: Settings, s: State, id: nat)
    requires Ready(s, id)
    ensures Midway(elig, conf, s, s, id)
  {
  }

  lemma AloneStepKeeps(elig: Eligibility, conf: Settings, s0: State, s: State, s': State, id: nat)
    requires Midway(elig, conf, s0, s, id) && AloneStep(elig, conf, s, s', id)
    ensures if id in s'.calls then Midway(elig, conf, s0, s', id) else Ready(s0, id) && Served(elig, conf, s0, s', id)
  {
    hide Midway, Served, CallSteps, SequenceMoves;
    if SequenceMoves(s, s') {
      MoveKeepsMidway(elig, conf, s0, s, s', id);
    } else if id in s'.calls {
      StepKeepsMidway(elig, conf, s0, s, s', id);
    } else {
      ReturnServes(elig, conf, s0, s, s', id);
    }
  }

  lemma SeenLater(s0: State, s: State, next: nat, n: nat)
    requires Seen(s0, s, n)
    ensures Seen(s0, s.(history := s.history + [next]), n)
  {
    var p :| 0 <= p && |s0.history| - 1 <= p < |s.history| && s.history[p] == n;
    assert (s.history + [next])[p] == n;
  }

  lemma SeenIsPast(s0: State, s: State, n: nat)
    requires s.HasHistory() && Seen(s0, s, n)
    ensures n <= s.Current()
  {
  }

  lemma SeenNow(s0: State, s: State)
    requires |s0.history| > 0 && s0.history <= s.history
    ensures Seen(s0, s, s.Current())
  {
    assert s.history[|s.history| - 1] == s.Current();
  }

  lemma MoveKeepsMidway(elig: Eligibility, conf: Settings, s0: State, s: State, s': State, id: nat)
    requires Midway(elig, conf, s0, s, id) && SequenceMoves(s, s')
    ensures id in s'.calls && Midway(elig, conf, s0, s', id)
  {
    hide Seen, Purged;
    var next :| next > s.Current() && s' == s.(history := s.history + [next]);
    forall n | Seen(s0, s, n)
      ensures Seen(s0, s', n)
    {
      SeenLater(s0, s, next, n);
    }
  }

  lemma StepKeepsMidway(elig: Eligibility, conf: Settings, s0: State, s: State, s': State, id: nat)
    requires Midway(elig, conf, s0, s, id) && CallSteps(elig, conf, s, s', id) && id in s'.calls
    ensures Midway(elig, conf, s0, s', id)
  {
    hide Seen, Purged;
    SeenNow(s0, s);
    assert forall n | Seen(s0, s, n) :: Seen(s0, s', n) by { SeenSame(s0, s, s'); }
    var c := s.calls[id];
    if c.pc.Compute? {
      assert Seen(s0, s', s.Current());
    } else if c.pc.Compare? {
      var at: nat :| Seen(s0, s, at) && c.currSeq <= at && c.verdict == elig(at, c.data);
      SeenIsPast(s0, s, at);
    }
  }

  lemma SeenSame(s0: State, s: State, s': State)
    requires s'.history == s.history
    ensures forall n | Seen(s0, s, n) :: Seen(s0, s', n)
  {
  }

  lemma ReturnServes(elig: Eligibility, conf: Settings, s0: State, s: State, s': State, id: nat)
    requires Midway(elig, conf, s0, s, id) && CallSteps(elig, conf, s, s', id) && id !in s'.calls
    ensures Ready(s0, id) && Served(elig, conf, s0, s', id)
  {
    hide Seen, Purged;
    SeenNow(s0, s);
    SeenSame(s0, s, s');
    var c := s.calls[id];
    var verdict := s'.returned[|s.returned|].verdict;
    if c.pc.Compare? {
      var at: nat :| Seen(s0, s, at) && c.currSeq <= at && c.verdict == elig(at, c.data);
      SeenIsPast(s0, s, at);
      ServedWith(elig, conf, s0, s', id, c.currSeq, at, s.Current(), verdict);
    } else {
      ServedWith(elig, conf, s0, s', id, c.currSeq, c.currSeq, c.currSeq, verdict);
    }
  }

  lemma ServedWith(elig: Eligibility, conf: Settings, s0: State, s: State, id: nat, currSeq: nat, at: nat,
                   seqAfter: nat, verdict: Verdict)
    requires Ready(s0, id) && |s.caches| == |s0.caches| && |s.history| > 0
    requires Seen(s0, s, currSeq) && Seen(s0, s, at) && Seen(s0, s, seqAfter) && currSeq <= at <= seqAfter
    requires var c := s0.calls[id];
             && Serves(conf, s0.caches[c.cache].contents, s.caches[c.cache].contents, c.data, currSeq,
                       elig(at, c.data), seqAfter, verdict)
             && s.returned == s0.returned + [Return(c.data, c.start, |s.history| - 1, verdict)]
    ensures Served(elig, conf, s0, s, id)
  {
  }
}
