/** Concurrent calls to `EligibleForService` for one channel as a transition system: each lock region and
    each read of shared state is one step, and the channel's config sequence may move between any two
    steps. Calls that race to create the channel's cache each create one; the last one stays registered,
    and every call goes on with the cache it got. */
module AuthCacheProtocol {
  import opened Basics
  import opened AccessCache

  /** The next thing a call does. */
  datatype Pc =
    | FindCache | MakeCache | ReadSequence | CheckValid | LookUp | ConfigChange
    | CheckSize | Purge | Compute | Compare | Store

  /** A call in progress. `start` is the position in the history at which it began, `cache` the number of
      the cache it works with. */
  datatype Call = Call(data: Data, start: nat, pc: Pc, cache: nat, currSeq: nat, verdict: Verdict) {
    /** Has the call got hold of a cache? */
    predicate Bound() { !pc.FindCache? && !pc.MakeCache? }

    /** Has the call read the config sequence? */
    predicate Dated() { Bound() && !pc.ReadSequence? }
  }

  /** A call that has returned, with the positions in the history of its start and its return. */
  datatype Return = Return(data: Data, start: nat, end: nat, verdict: Verdict)

  /** An access cache and the call that holds its lock across two steps. */
  datatype Cache = Cache(contents: Contents, holder: Option<nat>)

  /** `history` lists the config sequences that have been current, the last one being current now.
      `registered` is the cache that the channel's entry in the credential cache points to. */
  datatype State = State(
    history: seq<nat>,
    caches: seq<Cache>,
    registered: Option<nat>,
    calls: map<nat, Call>,
    returned: seq<Return>)
  {
    ghost predicate HasHistory() {
      |history| > 0 && forall i, j | 0 <= i < j < |history| :: history[i] < history[j]
    }

    function Current(): nat requires |history| > 0 { history[|history| - 1] }

    function Goto(id: nat, call: Call): State { this.(calls := calls[id := call]) }

    function Write(i: nat, contents: Contents): State
      requires i < |caches|
    {
      this.(caches := caches[i := caches[i].(contents := contents)])
    }

    function Lock(i: nat, holder: Option<nat>): State
      requires i < |caches|
    {
      this.(caches := caches[i := caches[i].(holder := holder)])
    }

    /** The call returns this verdict. */
    function Finish(id: nat, verdict: Verdict): State
      requires id in calls && |history| > 0
    {
      var c := calls[id];
      this.(calls := calls - {id},
            returned := returned + [Return(c.data, c.start, |history| - 1, verdict)])
    }
  }

  type Eligibility = (nat, Data) -> Verdict

  ghost predicate Init(s: State) {
    |s.history| == 1 && s.caches == [] && s.registered == None && s.calls == map[] && s.returned == []
  }

  ghost predicate SequenceMoves(s: State, s': State) {
    exists next :: |s.history| > 0 && next > s.Current() && s' == s.(history := s.history + [next])
  }

  ghost predicate CallBegins(s: State, s': State) {
    exists id, c: Call :: |s.history| > 0 && id !in s.calls &&
      c.start == |s.history| - 1 && c.pc == FindCache && s' == s.Goto(id, c)
  }

  /** The steps of `authCache.EligibleForService`: without caching the verdict is computed directly. */
  ghost predicate EntrySteps(elig: Eligibility, conf: Settings, s: State, s': State, id: nat)
    requires |s.history| > 0 && id in s.calls
  {
    var c := s.calls[id];
    match c.pc
    case FindCache =>
      s' == if !conf.enabled then s.Finish(id, elig(s.Current(), c.data))
            else if s.registered.Some? then s.Goto(id, c.(pc := ReadSequence, cache := s.registered.value))
            else s.Goto(id, c.(pc := MakeCache))
    case MakeCache =>
      s' == s.Goto(id, c.(pc := ReadSequence, cache := |s.caches|))
             .(caches := s.caches + [Cache(Contents(0, map[]), None)], registered := Some(|s.caches|))
    case _ => false
  }

  /** The steps of `accessCache.EligibleForService`. Every step that takes the lock of the cache waits until
      no other call holds it. */
  ghost predicate CacheSteps(elig: Eligibility, conf: Settings, s: State, s': State, id: nat)
    requires |s.history| > 0 && id in s.calls && s.calls[id].Bound() && s.calls[id].cache < |s.caches|
  {
    var c := s.calls[id];
    var i := c.cache;
    var cache, free := s.caches[i].contents, s.caches[i].holder.None?;
    match c.pc
    case ReadSequence => s' == s.Goto(id, c.(pc := CheckValid, currSeq := s.Current()))
    case CheckValid =>
      free && s' == s.Goto(id, c.(pc := if c.currSeq == cache.lastSequence then LookUp else ConfigChange))
    case LookUp =>
      && free
      && var hit := cache.Find(c.data);
         s' == if hit.Some? then s.Finish(id, hit.value) else s.Goto(id, c.(pc := CheckSize))
    case ConfigChange =>
      free && s' == s.Goto(id, c.(pc := CheckSize)).Write(i, cache.Reset(c.currSeq))
    case CheckSize =>
      free && s' == s.Goto(id, c.(pc := if cache.Crowded(conf) then Purge else Compute))
    case Purge =>
      && free
      && exists left :: Purged(cache.entries, left, conf.ToEvict()) &&
           s' == s.Goto(id, c.(pc := Compute)).Write(i, cache.(entries := left))
    case Compute => s' == s.Goto(id, c.(pc := Compare, verdict := elig(s.Current(), c.data)))
    case Compare =>
      && free
      && s' == if c.currSeq != s.Current() then s.Finish(id, c.verdict)
               else s.Goto(id, c.(pc := Store)).Lock(i, Some(id))
    case Store =>
      && s.caches[i].holder == Some(id)
      && s' == s.Finish(id, c.verdict).Write(i, cache.Put(c.data, c.verdict)).Lock(i, None)
    case _ => false
  }

  /** One step of a call. */
  ghost predicate CallSteps(elig: Eligibility, conf: Settings, s: State, s': State, id: nat) {
    && |s.history| > 0 && id in s.calls
    && if s.calls[id].Bound() then s.calls[id].cache < |s.caches| && CacheSteps(elig, conf, s, s', id)
       else EntrySteps(elig, conf, s, s', id)
  }

  ghost predicate Steps(elig: Eligibility, conf: Settings, s: State, s': State) {
    SequenceMoves(s, s') || CallBegins(s, s') || exists id :: CallSteps(elig, conf, s, s', id)
  }

  /** A run: any interleaving of calls and sequence moves. */
  ghost predicate Run(elig: Eligibility, conf: Settings, run: seq<State>) {
    && |run| > 0 && Init(run[0])
    && forall i | 0 <= i < |run| - 1 :: Steps(elig, conf, run[i], run[i + 1])
  }

  /** There are never more than `limit` calls at once. */
  ghost predicate AtMost(limit: nat, run: seq<State>) {
    forall i | 0 <= i < |run| :: |run[i].calls| <= limit
  }

  // ----- Verdicts -----

  /** The verdict is the eligibility at a sequence that was current at some position of the history
      from `from` on, and no smaller than `least`. */
  ghost predicate Justified(elig: Eligibility, history: seq<nat>, from: nat, least: nat, data: Data, verdict: Verdict) {
    exists i :: from <= i < |history| && least <= history[i] && verdict == elig(history[i], data)
  }

  /** Each entry was computed at a sequence that has been current and is at least `least`. */
  ghost predicate EntriesSince(elig: Eligibility, history: seq<nat>, entries: map<Data, Verdict>, least: nat) {
    forall k | k in entries :: Justified(elig, history, 0, least, k, entries[k])
  }

  ghost predicate CallOk(elig: Eligibility, s: State, c: Call)
    requires |s.history| > 0
  {
    && c.start < |s.history|
    && (c.Bound() ==> c.cache < |s.caches|)
    && (c.Dated() ==> s.history[c.start] <= c.currSeq <= s.Current())
    && (c.pc.LookUp? ==> EntriesSince(elig, s.history, s.caches[c.cache].contents.entries, c.currSeq))
    && (c.pc.Compare? || c.pc.Store? ==> Justified(elig, s.history, c.start, c.currSeq, c.data, c.verdict))
    && (c.pc.Store? ==> s.caches[c.cache].contents.lastSequence <= c.currSeq)
  }

  /** The lock is held across steps exactly by the call that is about to store. */
  ghost predicate LocksOk(s: State) {
    && (forall id | id in s.calls && s.calls[id].pc.Store? ::
          s.calls[id].cache < |s.caches| && s.caches[s.calls[id].cache].holder == Some(id))
    && (forall i | 0 <= i < |s.caches| && s.caches[i].holder.Some? ::
          var h := s.caches[i].holder.value; h in s.calls && s.calls[h].pc.Store? && s.calls[h].cache == i)
  }

  /** What is about to be stored is fresh enough for every call that is about to look up. */
  ghost predicate StoresOk(s: State) {
    forall id, h | id in s.calls && h in s.calls && s.calls[id].pc.LookUp? && s.calls[h].pc.Store? &&
                   s.calls[id].cache == s.calls[h].cache :: s.calls[id].currSeq <= s.calls[h].currSeq
  }

  /** The last sequence of a cache may go backwards, so its entries need not belong to it; they are never
      older. */
  ghost predicate CacheOk(elig: Eligibility, s: State, cache: Contents)
    requires |s.history| > 0
  {
    cache.lastSequence <= s.Current() && EntriesSince(elig, s.history, cache.entries, cache.lastSequence)
  }

  /** The call's verdict is the eligibility under some sequence that was current between its start
      and its return. */
  ghost predicate ReturnOk(elig: Eligibility, history: seq<nat>, r: Return) {
    && r.end < |history|
    && exists i :: r.start <= i <= r.end && r.verdict == elig(history[i], r.data)
  }

  ghost predicate Inv(elig: Eligibility, s: State) {
    && s.HasHistory()
    && (s.registered.Some? ==> s.registered.value < |s.caches|)
    && (forall i | 0 <= i < |s.caches| :: CacheOk(elig, s, s.caches[i].contents))
    && LocksOk(s) && StoresOk(s)
    && (forall id | id in s.calls :: CallOk(elig, s, s.calls[id]))
    && (forall i | 0 <= i < |s.returned| :: ReturnOk(elig, s.history, s.returned[i]))
  }

  lemma JustifiedExtends(elig: Eligibility, history: seq<nat>, next: nat, from: nat, least: nat, data: Data,
                         verdict: Verdict)
    requires Justified(elig, history, from, least, data, verdict)
    ensures Justified(elig, history + [next], from, least, data, verdict)
  {
    var i :| from <= i < |history| && least <= history[i] && verdict == elig(history[i], data);
    assert (history + [next])[i] == history[i];
  }

  lemma SequenceMoveKeepsInv(elig: Eligibility, s: State, s': State)
    requires Inv(elig, s) && SequenceMoves(s, s')
    ensures Inv(elig, s')
  {
    hide Justified;
    var next :| next > s.Current() && s' == s.(history := s.history + [next]);
    forall from, least, k, v | Justified(elig, s.history, from, least, k, v)
      ensures Justified(elig, s'.history, from, least, k, v)
    {
      JustifiedExtends(elig, s.history, next, from, least, k, v);
    }
    forall j | 0 <= j < |s.returned|
      ensures ReturnOk(elig, s'.history, s.returned[j])
    {
      var r := s.returned[j];
      var i :| r.start <= i <= r.end && r.verdict == elig(s.history[i], r.data);
      assert s'.history[i] == s.history[i];
    }
  }

  lemma CallBeginKeepsInv(elig: Eligibility, s: State, s': State)
    requires Inv(elig, s) && CallBegins(s, s')
    ensures Inv(elig, s')
  {
    hide Justified, ReturnOk, EntriesSince;
  }

  /** A step that only moves a call on, to a place where what its place asks for holds. */
  lemma GotoKeepsInv(elig: Eligibility, s: State, id: nat, call: Call)
    requires Inv(elig, s) && id in s.calls && !s.calls[id].pc.Store? && !call.pc.Store?
    requires CallOk(elig, s, call) && (call.pc.LookUp? ==> s.caches[call.cache].holder.None?)
    ensures Inv(elig, s.Goto(id, call))
  {
    GotoKeepsLocks(s, id, call);
    hide LocksOk, StoresOk, ReturnOk, CallOk, CacheOk;
    var s' := s.Goto(id, call);
    forall k | k in s'.calls
      ensures CallOk(elig, s', s'.calls[k])
    {
      SameForCall(elig, s, s', s'.calls[k]);
    }
    forall i | 0 <= i < |s'.caches|
      ensures CacheOk(elig, s', s'.caches[i].contents)
    {
      SameForCache(elig, s, s', s.caches[i].contents);
    }
  }

  /** What a call or a cache asks for depends on the history and the contents of the caches only. */
  lemma SameForCall(elig: Eligibility, s: State, s': State, c: Call)
    requires |s.history| > 0 && s'.history == s.history && |s'.caches| == |s.caches| && CallOk(elig, s, c)
    requires forall i | 0 <= i < |s.caches| :: s'.caches[i].contents == s.caches[i].contents
    ensures CallOk(elig, s', c)
  {
    hide Justified, EntriesSince;
  }

  lemma SameForCache(elig: Eligibility, s: State, s': State, contents: Contents)
    requires |s.history| > 0 && s'.history == s.history && CacheOk(elig, s, contents)
    ensures CacheOk(elig, s', contents)
  {
    hide EntriesSince;
  }

  lemma GotoKeepsLocks(s: State, id: nat, call: Call)
    requires LocksOk(s) && StoresOk(s) && id in s.calls && !s.calls[id].pc.Store? && !call.pc.Store?
    requires call.pc.LookUp? ==> call.cache < |s.caches| && s.caches[call.cache].holder.None?
    ensures LocksOk(s.Goto(id, call)) && StoresOk(s.Goto(id, call))
  {
  }

  /** A new empty cache that nobody uses yet. */
  lemma NewCacheKeepsInv(elig: Eligibility, s: State)
    requires Inv(elig, s)
    ensures Inv(elig, s.(caches := s.caches + [Cache(Contents(0, map[]), None)], registered := Some(|s.caches|)))
  {
    hide Justified, ReturnOk;
  }

  lemma MakeCacheKeepsInv(elig: Eligibility, conf: Settings, s: State, s': State, id: nat)
    requires Inv(elig, s) && id in s.calls && s.calls[id].pc.MakeCache? && CallSteps(elig, conf, s, s', id)
    ensures Inv(elig, s')
  {
    var made := s.(caches := s.caches + [Cache(Contents(0, map[]), None)], registered := Some(|s.caches|));
    var next := s.calls[id].(pc := ReadSequence, cache := |s.caches|);
    assert CallOk(elig, made, next);
    NewCacheKeepsInv(elig, s);
    hide Inv;
    GotoKeepsInv(elig, made, id, next);
  }

  /** What a cache may be given: entries no older than its last reset and than every call about to look up. */
  ghost predicate MayWrite(elig: Eligibility, s: State, i: nat, contents: Contents)
    requires |s.history| > 0
  {
    && i < |s.caches| && CacheOk(elig, s, contents)
    && (forall id | id in s.calls && s.calls[id].pc.LookUp? && s.calls[id].cache == i ::
          EntriesSince(elig, s.history, contents.entries, s.calls[id].currSeq))
    && (forall id | id in s.calls && s.calls[id].pc.Store? && s.calls[id].cache == i ::
          contents.lastSequence <= s.calls[id].currSeq)
  }

  lemma WriteKeepsInv(elig: Eligibility, s: State, i: nat, contents: Contents)
    requires Inv(elig, s) && MayWrite(elig, s, i, contents)
    ensures Inv(elig, s.Write(i, contents))
  {
    hide Justified, ReturnOk, EntriesSince;
  }

  /** A call that returns without holding a lock leaves the rest as it was. */
  lemma FinishKeepsInv(elig: Eligibility, s: State, id: nat, verdict: Verdict)
    requires Inv(elig, s) && id in s.calls && !s.calls[id].pc.Store?
    requires ReturnOk(elig, s.history, Return(s.calls[id].data, s.calls[id].start, |s.history| - 1, verdict))
    ensures Inv(elig, s.Finish(id, verdict))
  {
    hide Justified, ReturnOk, EntriesSince;
  }

  /** A verdict justified since a call's sequence was current at some point during the call. */
  lemma ReturnIsJustified(elig: Eligibility, s: State, c: Call, from: nat, verdict: Verdict)
    requires s.HasHistory() && CallOk(elig, s, c) && c.Dated()
    requires Justified(elig, s.history, from, c.currSeq, c.data, verdict)
    ensures ReturnOk(elig, s.history, Return(c.data, c.start, |s.history| - 1, verdict))
  {
    var i :| from <= i < |s.history| && c.currSeq <= s.history[i] && verdict == elig(s.history[i], c.data);
    assert c.start <= i;
  }

  /** The steps at which a call returns without storing. */
  lemma ReturnKeepsInv(elig: Eligibility, conf: Settings, s: State, s': State, id: nat)
    requires Inv(elig, s) && id in s.calls && CallSteps(elig, conf, s, s', id)
    requires s.calls[id].pc.FindCache? || s.calls[id].pc.LookUp? || s.calls[id].pc.Compare?
    requires id !in s'.calls
    ensures Inv(elig, s')
  {
    var c := s.calls[id];
    match c.pc
    case FindCache =>
      FinishKeepsInv(elig, s, id, elig(s.Current(), c.data));
    case LookUp =>
      var hit := s.caches[c.cache].contents.Find(c.data);
      assert hit.Some?;
      ReturnIsJustified(elig, s, c, 0, hit.value);
      FinishKeepsInv(elig, s, id, hit.value);
    case Compare =>
      ReturnIsJustified(elig, s, c, c.start, c.verdict);
      FinishKeepsInv(elig, s, id, c.verdict);
  }

  lemma ConfigChangeKeepsInv(elig: Eligibility, conf: Settings, s: State, s': State, id: nat)
    requires Inv(elig, s) && id in s.calls && s.calls[id].pc.ConfigChange? && CallSteps(elig, conf, s, s', id)
    ensures Inv(elig, s')
  {
    var c := s.calls[id];
    var next := c.(pc := CheckSize);
    GotoKeepsInv(elig, s, id, next);
    assert MayWrite(elig, s.Goto(id, next), c.cache, s.caches[c.cache].contents.Reset(c.currSeq));
    hide Inv;
    WriteKeepsInv(elig, s.Goto(id, next), c.cache, s.caches[c.cache].contents.Reset(c.currSeq));
  }

  /** Entries may always be taken away. */
  lemma FewerMayBeWritten(elig: Eligibility, s: State, i: nat, left: map<Data, Verdict>)
    requires Inv(elig, s) && i < |s.caches|
    requires left.Keys <= s.caches[i].contents.entries.Keys
    requires forall k | k in left :: left[k] == s.caches[i].contents.entries[k]
    ensures MayWrite(elig, s, i, s.caches[i].contents.(entries := left))
  {
    hide Justified, ReturnOk, LocksOk, StoresOk;
    assert CacheOk(elig, s, s.caches[i].contents);
  }

  lemma PurgeKeepsInv(elig: Eligibility, conf: Settings, s: State, s': State, id: nat)
    requires Inv(elig, s) && id in s.calls && s.calls[id].pc.Purge? && CallSteps(elig, conf, s, s', id)
    ensures Inv(elig, s')
  {
    hide Justified, ReturnOk, EntriesSince;
    var c := s.calls[id];
    var next, cache := c.(pc := Compute), s.caches[c.cache].contents;
    assert CallOk(elig, s, next);
    hide Inv;
    var left :| Purged(cache.entries, left, conf.ToEvict()) &&
        s' == s.Goto(id, next).Write(c.cache, cache.(entries := left));
    GotoKeepsInv(elig, s, id, next);
    FewerMayBeWritten(elig, s.Goto(id, next), c.cache, left);
    WriteKeepsInv(elig, s.Goto(id, next), c.cache, cache.(entries := left));
  }

  /** A call about to store takes the lock, at the current sequence. */
  lemma CompareKeepsLocks(s: State, id: nat, call: Call)
    requires s.HasHistory() && LocksOk(s) && StoresOk(s) && id in s.calls && !s.calls[id].pc.Store?
    requires call.pc.Store? && call.cache < |s.caches| && s.caches[call.cache].holder.None? &&
             call.currSeq == s.Current()
    requires forall k | k in s.calls && s.calls[k].pc.LookUp? :: s.calls[k].currSeq <= s.Current()
    ensures var s' := s.Goto(id, call).Lock(call.cache, Some(id)); LocksOk(s') && StoresOk(s')
  {
  }

  lemma CompareKeepsInv(elig: Eligibility, conf: Settings, s: State, s': State, id: nat)
    requires Inv(elig, s) && id in s.calls && s.calls[id].pc.Compare? && CallSteps(elig, conf, s, s', id)
    requires s.calls[id].currSeq == s.Current() && id in s'.calls
    ensures Inv(elig, s')
  {
    hide ReturnOk, Justified, EntriesSince;
    var call := s.calls[id].(pc := Store);
    CompareKeepsLocks(s, id, call);
    assert s' == s.Goto(id, call).Lock(call.cache, Some(id));
    assert CallOk(elig, s, s.calls[id]) && CacheOk(elig, s, s.caches[call.cache].contents);
    assert CallOk(elig, s, call);
    hide LocksOk, StoresOk, CallOk, CacheOk, CallSteps;
    forall k | k in s'.calls
      ensures CallOk(elig, s', s'.calls[k])
    {
      SameForCall(elig, s, s', s'.calls[k]);
    }
    forall i | 0 <= i < |s'.caches|
      ensures CacheOk(elig, s', s'.caches[i].contents)
    {
      SameForCache(elig, s, s', s.caches[i].contents);
    }
  }

  /** A call that has stored returns and gives the lock back. */
  lemma ReleaseKeepsInv(elig: Eligibility, s: State, id: nat)
    requires Inv(elig, s) && id in s.calls && s.calls[id].pc.Store?
    requires ReturnOk(elig, s.history, Return(s.calls[id].data, s.calls[id].start, |s.history| - 1,
             s.calls[id].verdict))
    ensures Inv(elig, s.Finish(id, s.calls[id].verdict).Lock(s.calls[id].cache, None))
  {
    hide ReturnOk, Justified, EntriesSince;
  }

  lemma StoreKeepsInv(elig: Eligibility, conf: Settings, s: State, s': State, id: nat)
    requires Inv(elig, s) && id in s.calls && s.calls[id].pc.Store? && CallSteps(elig, conf, s, s', id)
    ensures Inv(elig, s')
  {
    hide Justified, ReturnOk, CacheOk, StoresOk, MayWrite, EntriesSince;
    var c := s.calls[id];
    var i, put := c.cache, s.caches[c.cache].contents.Put(c.data, c.verdict);
    assert CallOk(elig, s, c);
    ReturnIsJustified(elig, s, c, c.start, c.verdict);
    PutMayBeWritten(elig, s, id);
    hide Inv, CallOk;
    WriteKeepsInv(elig, s, i, put);
    var written := s.Write(i, put);
    assert s' == written.Finish(id, c.verdict).Lock(i, None);
    ReleaseKeepsInv(elig, written, id);
  }

  lemma PutMayBeWritten(elig: Eligibility, s: State, id: nat)
    requires Inv(elig, s) && id in s.calls && s.calls[id].pc.Store?
    ensures var c := s.calls[id]; MayWrite(elig, s, c.cache, s.caches[c.cache].contents.Put(c.data, c.verdict))
  {
    hide Justified, ReturnOk;
    var c := s.calls[id];
    JustifiedEarlier(elig, s.history, c.start, c.currSeq, c.data, c.verdict);
    assert CacheOk(elig, s, s.caches[c.cache].contents);
    assert forall k | k in s.calls && s.calls[k].pc.LookUp? :: CallOk(elig, s, s.calls[k]);
  }

  /** A verdict justified from a later position on, or at larger sequences, is justified. */
  lemma JustifiedEarlier(elig: Eligibility, history: seq<nat>, from: nat, least: nat, data: Data, verdict: Verdict)
    requires Justified(elig, history, from, least, data, verdict)
    ensures forall l: nat | l <= least :: Justified(elig, history, 0, l, data, verdict)
  {
  }

  /** What the steps that only move a call on ask for. */
  lemma MoveIsOk(elig: Eligibility, conf: Settings, s: State, s': State, id: nat)
    requires s.HasHistory() && CallSteps(elig, conf, s, s', id) && id in s'.calls
    requires s.calls[id].pc in {FindCache, ReadSequence, CheckValid, LookUp, CheckSize, Compute}
    requires CallOk(elig, s, s.calls[id])
    requires s.registered.Some? ==> s.registered.value < |s.caches|
    requires s.calls[id].Bound() ==> CacheOk(elig, s, s.caches[s.calls[id].cache].contents)
    ensures s' == s.Goto(id, s'.calls[id]) && !s'.calls[id].pc.Store?
    ensures CallOk(elig, s, s'.calls[id])
    ensures s'.calls[id].pc.LookUp? ==> s.caches[s'.calls[id].cache].holder.None?
  {
    hide Justified, EntriesSince;
    assert s.history[|s.history| - 1] == s.Current();
    if s.calls[id].pc.Compute? { JustifiedNow(elig, s, s.calls[id]); }
  }

  lemma JustifiedNow(elig: Eligibility, s: State, c: Call)
    requires |s.history| > c.start && c.currSeq <= s.Current()
    ensures Justified(elig, s.history, c.start, c.currSeq, c.data, elig(s.Current(), c.data))
  {
    assert s.history[|s.history| - 1] == s.Current();
  }

  lemma MoveKeepsInv(elig: Eligibility, conf: Settings, s: State, s': State, id: nat)
    requires Inv(elig, s) && CallSteps(elig, conf, s, s', id) && id in s'.calls
    requires s.calls[id].pc in {FindCache, ReadSequence, CheckValid, LookUp, CheckSize, Compute}
    ensures Inv(elig, s')
  {
    hide CacheOk, LocksOk, StoresOk, ReturnOk, CacheSteps, EntrySteps;
    assert CallOk(elig, s, s.calls[id]);
    MoveIsOk(elig, conf, s, s', id);
    hide CallOk;
    GotoKeepsInv(elig, s, id, s'.calls[id]);
  }

  lemma StepperExists(elig: Eligibility, conf: Settings, s: State, s': State, id: nat)
    requires CallSteps(elig, conf, s, s', id)
    ensures id in s.calls
    ensures s.calls[id].pc.Compare? && id in s'.calls ==> s.calls[id].currSeq == s.Current()
    ensures id !in s'.calls ==> s.calls[id].pc in {FindCache, LookUp, Compare, Store}
  {
  }

  lemma StepKeepsInv(elig: Eligibility, conf: Settings, s: State, s': State)
    requires Inv(elig, s) && Steps(elig, conf, s, s')
    ensures Inv(elig, s')
  {
    hide Inv, CacheSteps, EntrySteps, SequenceMoves, CallBegins;
    if SequenceMoves(s, s') {
      SequenceMoveKeepsInv(elig, s, s');
    } else if CallBegins(s, s') {
      CallBeginKeepsInv(elig, s, s');
    } else {
      var id :| CallSteps(elig, conf, s, s', id);
      StepperExists(elig, conf, s, s', id);
      match s.calls[id].pc
      case MakeCache => MakeCacheKeepsInv(elig, conf, s, s', id);
      case ConfigChange => ConfigChangeKeepsInv(elig, conf, s, s', id);
      case Purge => PurgeKeepsInv(elig, conf, s, s', id);
      case Store => StoreKeepsInv(elig, conf, s, s', id);
      case Compare =>
        if id in s'.calls { CompareKeepsInv(elig, conf, s, s', id); } else { ReturnKeepsInv(elig, conf, s, s', id); }
      case _ =>
        if id in s'.calls { MoveKeepsInv(elig, conf, s, s', id); } else { ReturnKeepsInv(elig, conf, s, s', id); }
    }
  }

  /** In every interleaving, every verdict returned is the eligibility under some config sequence that
      was current between the call's start and its return. */
  lemma {:induction false} VerdictsAreCurrent(elig: Eligibility, conf: Settings, run: seq<State>, n: nat)
    requires Run(elig, conf, run) && n < |run|
    ensures Inv(elig, run[n])
    ensures forall i | 0 <= i < |run[n].returned| :: ReturnOk(elig, run[n].history, run[n].returned[i])
  {
    hide Steps, ReturnOk, CallOk;
    if n == 0 {
    } else {
      VerdictsAreCurrent(elig, conf, run, n - 1);
      assert Steps(elig, conf, run[n - 1], run[n - 1 + 1]);
      StepKeepsInv(elig, conf, run[n - 1], run[n]);
    }
  }

  /** A first call that has found its fresh cache out of date, and is about to reset it. */
  ghost function Stalled(): State {
    State([1], [Cache(Contents(0, map[]), None)], Some(0),
          map[0 := Call("slow", 0, ConfigChange, 0, 1, Eligible)], [])
  }

  lemma FirstCallStalls(elig: Eligibility, conf: Settings) returns (run: seq<State>)
    requires conf.enabled
    ensures Run(elig, conf, run) && AtMost(2, run) && |run| == 6 && run[5] == Stalled()
  {
    var slow := Call("slow", 0, FindCache, 0, 0, Eligible);
    var s0 := State([1], [], None, map[], []);
    var s1 := s0.Goto(0, slow);
    var s2 := s1.Goto(0, slow.(pc := MakeCache));
    var s3 := s2.Goto(0, slow.(pc := ReadSequence))
                .(caches := [] + [Cache(Contents(0, map[]), None)], registered := Some(0));
    var s4 := s3.Goto(0, slow.(pc := CheckValid, currSeq := 1));
    var s5 := s4.Goto(0, slow.(pc := ConfigChange, currSeq := 1));
    assert CallBegins(s0, s1);
    assert CallSteps(elig, conf, s1, s2, 0);
    assert CallSteps(elig, conf, s2, s3, 0);
    assert CallSteps(elig, conf, s3, s4, 0);
    assert CallSteps(elig, conf, s4, s5, 0);
    run := [s0, s1, s2, s3, s4, s5];
  }

  /** `lastSequence` does go backwards: a slow call that read an older sequence resets the cache
      after a faster call has already moved it on. */
  lemma LastSequenceCanGoBack(elig: Eligibility, conf: Settings) returns (run: seq<State>)
    requires conf.enabled
    ensures Run(elig, conf, run) && AtMost(2, run) && |run| == 13 && |run[11].caches| == |run[12].caches| == 1
    ensures run[12].caches[0].contents.lastSequence < run[11].caches[0].contents.lastSequence
  {
    var stalled := FirstCallStalls(elig, conf);
    var slow, fast := Stalled().calls[0], Call("fast", 1, FindCache, 0, 0, Eligible);
    var s6 := Stalled().(history := [1] + [2]);
    var s7 := s6.Goto(1, fast);
    var s8 := s7.Goto(1, fast.(pc := ReadSequence));
    var s9 := s8.Goto(1, fast.(pc := CheckValid, currSeq := 2));
    var s10 := s9.Goto(1, fast.(pc := ConfigChange, currSeq := 2));
    var s11 := s10.Goto(1, fast.(pc := CheckSize, currSeq := 2)).Write(0, Contents(2, map[]));
    var s12 := s11.Goto(0, slow.(pc := CheckSize)).Write(0, Contents(1, map[]));
    assert SequenceMoves(Stalled(), s6);
    assert CallBegins(s6, s7);
    assert CallSteps(elig, conf, s7, s8, 1);
    assert CallSteps(elig, conf, s8, s9, 1);
    assert CallSteps(elig, conf, s9, s10, 1);
    assert CallSteps(elig, conf, s10, s11, 1);
    assert CallSteps(elig, conf, s11, s12, 0);
    hide CallSteps, CallBegins, SequenceMoves;
    run := stalled + [s6, s7, s8, s9, s10, s11, s12];
  }

  // ----- The last sequence -----

  /** A step changes one call only, which stays with its cache, and no other cache. */
  lemma StepIsLocal(elig: Eligibility, conf: Settings, s: State, s': State, id: nat, i: nat)
    requires id in s.calls && s.calls[id].Bound() && CallSteps(elig, conf, s, s', id)
    requires i < |s.caches| && i != s.calls[id].cache
    ensures |s'.caches| == |s.caches| && s'.caches[i] == s.caches[i]
    ensures forall k | k != id :: k in s'.calls <==> k in s.calls
    ensures forall k | k in s'.calls :: k in s.calls && if k == id then s'.calls[k].cache != i
            else s'.calls[k] == s.calls[k]
  {
  }

  ghost predicate Idle(s: State) {
    s.caches == [] && forall id | id in s.calls :: s.calls[id].pc.FindCache?
  }

  lemma StepKeepsIdle(elig: Eligibility, conf: Settings, s: State, s': State)
    requires !conf.enabled && Idle(s) && Steps(elig, conf, s, s')
    ensures Idle(s')
  {
  }

  lemma {:induction false} DisabledMakesNoCache(elig: Eligibility, conf: Settings, run: seq<State>, n: nat)
    requires !conf.enabled && Run(elig, conf, run) && n < |run|
    ensures Idle(run[n])
  {
    hide Steps;
    if n == 0 {
    } else {
      DisabledMakesNoCache(elig, conf, run, n - 1);
      assert Steps(elig, conf, run[n - 1], run[n - 1 + 1]);
      StepKeepsIdle(elig, conf, run[n - 1], run[n]);
    }
  }

  /** One step lowers the last sequence of no cache. */
  ghost predicate NoneGoesBack(s: State, s': State) {
    forall i | 0 <= i < |s.caches| && i < |s'.caches| ::
      s.caches[i].contents.lastSequence <= s'.caches[i].contents.lastSequence
  }

  /** No step of a run with at most this many calls at once does. */
  ghost predicate NeverGoesBack(elig: Eligibility, conf: Settings, limit: nat) {
    forall run, n: nat | Run(elig, conf, run) && AtMost(limit, run) && n + 1 < |run| :: NoneGoesBack(run[n], run[n + 1])
  }

  /** A call that may still reset its cache has a sequence no older than the last one of the cache. */
  ghost predicate CallInStep(s: State, c: Call)
    requires |s.history| > 0
  {
    && (c.Bound() ==> c.cache < |s.caches|)
    && (c.pc.CheckValid? || c.pc.ConfigChange? ==>
          s.caches[c.cache].contents.lastSequence <= c.currSeq <= s.Current())
  }

  ghost predicate InStep(s: State) {
    && |s.history| > 0
    && (s.registered.Some? ==> s.registered.value < |s.caches|)
    && (forall i | 0 <= i < |s.caches| :: s.caches[i].contents.lastSequence <= s.Current())
    && (forall id | id in s.calls :: CallInStep(s, s.calls[id]))
  }

  lemma OnlyOneCall(s: State, id: nat)
    requires |s.calls| <= 1 && id in s.calls
    ensures forall k | k in s.calls :: k == id
  {
    forall k | k in s.calls
      ensures k == id
    {
      if k != id { SubsetSize({k, id}, s.calls.Keys); }
    }
  }

  lemma OutsideStepKeepsStep(s: State, s': State)
    requires InStep(s) && (SequenceMoves(s, s') || CallBegins(s, s'))
    ensures InStep(s') && NoneGoesBack(s, s')
  {
  }

  /** What the steps of a call do to its cache and to what it knows. */
  lemma EntryInStep(elig: Eligibility, conf: Settings, s: State, s': State, id: nat)
    requires InStep(s) && CallSteps(elig, conf, s, s', id) && !s.calls[id].Bound()
    requires forall k | k in s.calls :: k == id
    ensures InStep(s') && NoneGoesBack(s, s')
  {
  }

  lemma OwnSequenceChanges(elig: Eligibility, conf: Settings, s: State, s': State, id: nat)
    requires CallSteps(elig, conf, s, s', id) && s.calls[id].Bound()
    ensures s'.history == s.history && s'.registered == s.registered && |s'.caches| == |s.caches|
    ensures var c := s.calls[id];
            s'.caches[c.cache].contents.lastSequence ==
            if c.pc.ConfigChange? then c.currSeq else s.caches[c.cache].contents.lastSequence
  {
  }

  lemma CachesInStep(elig: Eligibility, conf: Settings, s: State, s': State, id: nat)
    requires InStep(s) && CallSteps(elig, conf, s, s', id) && s.calls[id].Bound()
    ensures s'.history == s.history && s'.registered == s.registered && |s'.caches| == |s.caches|
    ensures forall i | 0 <= i < |s.caches| ::
              s.caches[i].contents.lastSequence <= s'.caches[i].contents.lastSequence <= s.Current()
    ensures !s.calls[id].pc.ConfigChange? ==> forall i | 0 <= i < |s.caches| ::
              s'.caches[i].contents.lastSequence == s.caches[i].contents.lastSequence
  {
    assert CallInStep(s, s.calls[id]);
    OwnSequenceChanges(elig, conf, s, s', id);
    forall i: nat | i < |s.caches| && i != s.calls[id].cache
      ensures s'.caches[i] == s.caches[i]
    {
      StepIsLocal(elig, conf, s, s', id, i);
    }
    hide CallSteps;
  }

  lemma CallStaysInStep(elig: Eligibility, conf: Settings, s: State, s': State, id: nat)
    requires InStep(s) && CallSteps(elig, conf, s, s', id) && s.calls[id].Bound() && id in s'.calls
    ensures CallInStep(s', s'.calls[id])
  {
    CachesInStep(elig, conf, s, s', id);
    assert CallInStep(s, s.calls[id]);
  }

  lemma CallsShrink(elig: Eligibility, conf: Settings, s: State, s': State, id: nat)
    requires CallSteps(elig, conf, s, s', id)
    ensures id in s.calls && s'.calls.Keys <= s.calls.Keys
  {
  }

  /** With one call at a time nothing gets out of step. */
  lemma AloneKeepsStep(elig: Eligibility, conf: Settings, s: State, s': State)
    requires InStep(s) && Steps(elig, conf, s, s') && |s.calls| <= 1
    ensures InStep(s') && NoneGoesBack(s, s')
  {
    hide SequenceMoves, CallBegins, CallSteps, CallInStep;
    if SequenceMoves(s, s') || CallBegins(s, s') {
      OutsideStepKeepsStep(s, s');
    } else {
      var id :| CallSteps(elig, conf, s, s', id);
      CallsShrink(elig, conf, s, s', id);
      OnlyOneCall(s, id);
      if s.calls[id].Bound() {
        CachesInStep(elig, conf, s, s', id);
        if id in s'.calls { CallStaysInStep(elig, conf, s, s', id); }
      } else {
        EntryInStep(elig, conf, s, s', id);
      }
    }
  }

  lemma {:induction false} AloneStaysInStep(elig: Eligibility, conf: Settings, run: seq<State>, n: nat)
    requires Run(elig, conf, run) && AtMost(1, run) && n < |run|
    ensures InStep(run[n])
  {
    hide Steps;
    if n == 0 {
    } else {
      AloneStaysInStep(elig, conf, run, n - 1);
      assert Steps(elig, conf, run[n - 1], run[n - 1 + 1]);
      AloneKeepsStep(elig, conf, run[n - 1], run[n]);
    }
  }

  /** The last sequence of a cache never goes back exactly when caching is off or there is never more than one
      call at once. */
  lemma NeverGoesBackExactly(elig: Eligibility, conf: Settings, limit: nat)
    ensures NeverGoesBack(elig, conf, limit) <==> !conf.enabled || limit <= 1
  {
    hide Steps, InStep, Init;
    if !conf.enabled {
      forall run, n: nat | Run(elig, conf, run) && AtMost(limit, run) && n + 1 < |run|
        ensures NoneGoesBack(run[n], run[n + 1])
      {
        DisabledMakesNoCache(elig, conf, run, n);
      }
    } else if limit <= 1 {
      forall run, n: nat | Run(elig, conf, run) && AtMost(limit, run) && n + 1 < |run|
        ensures NoneGoesBack(run[n], run[n + 1])
      {
        AloneStaysInStep(elig, conf, run, n);
        AloneKeepsStep(elig, conf, run[n], run[n + 1]);
      }
    } else {
      var run := LastSequenceCanGoBack(elig, conf);
      assert AtMost(limit, run);
      assert !NoneGoesBack(run[11], run[11 + 1]);
    }
  }
}
