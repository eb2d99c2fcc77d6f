/** The per-channel cache of eligibility verdicts and its lock-guarded operations
    (discovery/authcache.go). */
module AccessCache {
  import opened Basics

  /** The marshalled request; its hash is the cache key, taken to be collision-free. */
  type Data = string

  datatype Verdict = Eligible | Denied(reason: string)

  /** The fields that the lock guards, and what each locked region does to them. */
  datatype Contents = Contents(lastSequence: nat, entries: map<Data, Verdict>) {
    function Find(key: Data): Option<Verdict> { if key in entries then Some(entries[key]) else None }

    function Reset(currSeq: nat): Contents { Contents(currSeq, map[]) }

    function Put(key: Data, verdict: Verdict): Contents { this.(entries := entries[key := verdict]) }

    predicate Crowded(settings: Settings) { |entries| + 1 > settings.maxCacheSize }
  }

  /** Truncation toward zero, as the conversion from float64 to int does. */
  function Truncate(x: real): int {
    if x >= 0.0 then x.Floor else -((-x).Floor)
  }

  /** `authCacheConfig`. */
  datatype Settings = Settings(enabled: bool, maxCacheSize: int, purgeRetentionRatio: real) {
    function Share(): real { purgeRetentionRatio * maxCacheSize as real }

    function Retained(): int { Truncate(Share()) }

    function ToEvict(): int { maxCacheSize - Retained() }
  }

  /** A retention ratio below one makes every purge evict something. */
  lemma RatioBelowOneEvicts(s: Settings)
    requires s.maxCacheSize >= 1 && 0.0 <= s.purgeRetentionRatio < 1.0
    ensures 0 <= s.Retained() < s.maxCacheSize && 1 <= s.ToEvict() <= s.maxCacheSize
  {
    hide Truncate;
    StrictlyScaledDown(s.purgeRetentionRatio, s.maxCacheSize as real, s.Share());
    RetainedIsShare(s);
  }

  /** How many of `size` entries the eviction loop removes: a counter that starts below zero never
      reaches the zero it is compared with. */
  function Evicted(size: nat, toEvict: int): nat {
    if 0 <= toEvict <= size then toEvict else size
  }

  /** `after` is `before` with the right number of entries evicted, whichever they are. */
  ghost predicate Purged(before: map<Data, Verdict>, after: map<Data, Verdict>, toEvict: int) {
    && after.Keys <= before.Keys
    && (forall k | k in after :: after[k] == before[k])
    && |after| == |before| - Evicted(|before|, toEvict)
  }

  /** A purge of a full cache leaves the whole part of the retention ratio. */
  lemma PurgeRetainsRatio(s: Settings, before: map<Data, Verdict>, after: map<Data, Verdict>)
    requires 0.0 <= s.purgeRetentionRatio <= 1.0
    requires |before| == s.maxCacheSize && Purged(before, after, s.ToEvict())
    ensures |after| as real <= s.Share() < |after| as real + 1.0
    ensures s.Share() == s.purgeRetentionRatio * s.maxCacheSize as real
  {
    hide Truncate;
    RetainedIsShare(s);
    AsManyAsRetained(s, before, after);
  }

  lemma RetainedIsShare(s: Settings)
    requires 0.0 <= s.purgeRetentionRatio <= 1.0 && s.maxCacheSize >= 0
    ensures 0 <= s.Retained() <= s.maxCacheSize
    ensures s.Retained() as real <= s.Share() < s.Retained() as real + 1.0
  {
    hide Truncate;
    hide Settings.Share;
    ShareIsWithin(s);
    TruncatedDown(s.Share(), s.maxCacheSize);
  }

  lemma AsManyAsRetained(s: Settings, before: map<Data, Verdict>, after: map<Data, Verdict>)
    requires |before| == s.maxCacheSize && Purged(before, after, s.ToEvict()) && 0 <= s.Retained() <= s.maxCacheSize
    ensures |after| == s.Retained()
  {
    hide Truncate;
  }

  lemma TruncatedDown(x: real, n: nat)
    requires 0.0 <= x <= n as real
    ensures 0 <= Truncate(x) <= n && Truncate(x) as real <= x < Truncate(x) as real + 1.0
  {
  }

  lemma ShareIsWithin(s: Settings)
    requires 0.0 <= s.purgeRetentionRatio <= 1.0 && s.maxCacheSize >= 0
    ensures 0.0 <= s.Share() <= s.maxCacheSize as real
  {
    ScaledDown(s.purgeRetentionRatio, s.maxCacheSize as real, s.Share());
  }

  lemma ScaledDown(ratio: real, x: real, share: real)
    requires 0.0 <= ratio <= 1.0 && x >= 0.0 && share == ratio * x
    ensures 0.0 <= share <= x
  {
    ProductSign(ratio, x);
    ProductSign(1.0 - ratio, x);
  }

  lemma StrictlyScaledDown(ratio: real, x: real, share: real)
    requires 0.0 <= ratio < 1.0 && x > 0.0 && share == ratio * x
    ensures 0.0 <= share < x
  {
    ProductSign(ratio, x);
    StrictProductSign(1.0 - ratio, x);
  }

  lemma StrictProductSign(a: real, b: real)
    requires a > 0.0 && b > 0.0
    ensures a * b > 0.0
  {
  }

  lemma ProductSign(a: real, b: real)
    requires a >= 0.0 && b >= 0.0
    ensures a * b >= 0.0
  {
  }

  /** What serving a request without interference does: an entry of the same sequence answers it and nothing changes.
      Otherwise the computed verdict does; older entries are dropped, a full cache is purged, and the verdict is kept
      only if the sequence has not moved. */
  ghost predicate Serves(s: Settings, before: Contents, after: Contents, data: Data, currSeq: nat, computed: Verdict,
                         seqAfter: nat, verdict: Verdict)
  {
    if currSeq == before.lastSequence && data in before.entries then
      verdict == before.entries[data] && after == before
    else
      && verdict == computed && after.lastSequence == currSeq
      && var entries := if currSeq == before.lastSequence then before.entries else map[];
         exists left ::
           && (if |entries| >= s.maxCacheSize then Purged(entries, left, s.ToEvict()) else left == entries)
           && after.entries == if seqAfter == currSeq then left[data := computed] else left
  }

  class AccessCache {
    var lastSequence: nat
    var entries: map<Data, Verdict>
    const settings: Settings

    constructor (settings: Settings)
      ensures this.settings == settings && State() == Contents(0, map[])
    {
      this.settings := settings;
      lastSequence, entries := 0, map[];
    }

    ghost function State(): Contents reads this { Contents(lastSequence, entries) }

    /** `isValid`. */
    method IsValid(currSeq: nat) returns (valid: bool)
      ensures valid <==> currSeq == State().lastSequence
    {
      valid := currSeq == lastSequence;
    }

    /** `lookup`. */
    method Lookup(key: Data) returns (hit: Option<Verdict>)
      ensures hit == State().Find(key)
    {
      hit := if key in entries then Some(entries[key]) else None;
    }

    /** `configChange`. */
    method ConfigChange(currSeq: nat)
      modifies this
      ensures State() == old(State()).Reset(currSeq)
    {
      lastSequence, entries := currSeq, map[];
    }

    /** `isPurgeNeeded`. */
    method IsPurgeNeeded() returns (needed: bool)
      ensures needed <==> State().Crowded(settings)
    {
      needed := |entries| + 1 > settings.maxCacheSize;
    }

    /** The locked part of `purgeEntriesIfNeeded`; the keys come in no particular order. */
    method Purge()
      modifies this
      ensures lastSequence == old(lastSequence)
      ensures Purged(old(entries), entries, settings.ToEvict())
    {
      var toEvict := settings.ToEvict();
      var todo := entries.Keys;
      ghost var gone := 0;
      while todo != {}
        invariant todo == entries.Keys && todo <= old(entries).Keys
        invariant forall k | k in entries :: entries[k] == old(entries)[k]
        invariant lastSequence == old(lastSequence)
        invariant gone + |entries| == |old(entries)|
        invariant toEvict == settings.ToEvict() - gone
        invariant settings.ToEvict() >= 0 ==> toEvict >= 0
        decreases todo
      {
        if toEvict == 0 { return; }
        var key :| key in todo;
        toEvict := toEvict - 1;
        ghost var keys := entries.Keys;
        entries := entries - {key};
        assert entries.Keys == keys - {key};
        todo, gone := todo - {key}, gone + 1;
      }
      assert entries.Keys == {};
    }

    /** The locked store at the end of `EligibleForService`. */
    method Store(key: Data, verdict: Verdict)
      modifies this
      ensures State() == old(State()).Put(key, verdict)
    {
      entries := entries[key := verdict];
    }

    /** Every entry is the eligibility under the last sequence. */
    ghost predicate Coherent(elig: (nat, Data) -> Verdict)
      reads this
    {
      forall k | k in entries :: entries[k] == elig(lastSequence, k)
    }

    /** `accessCache.EligibleForService` without interference: `currSeq` and `seqAfter` are what the two
        reads of the config sequence give, `computed` is what the eligibility check gives between them. */
    method EligibleForService(ghost elig: (nat, Data) -> Verdict, data: Data, currSeq: nat, computed: Verdict,
                              seqAfter: nat)
      returns (verdict: Verdict)
      modifies this
      ensures Serves(settings, old(State()), State(), data, currSeq, computed, seqAfter, verdict)
      ensures old(Coherent(elig)) && (seqAfter == currSeq ==> computed == elig(currSeq, data)) ==>
                Coherent(elig) && (seqAfter == currSeq ==> verdict == elig(currSeq, data))
      ensures settings.maxCacheSize >= 1 && settings.ToEvict() != 0 && |old(entries)| <= settings.maxCacheSize ==>
                |entries| <= settings.maxCacheSize
    {
      var valid := IsValid(currSeq);
      if valid {
        var hit := Lookup(data);
        if hit.Some? { return hit.value; }
      } else {
        ConfigChange(currSeq);
      }
      ghost var kept := entries;
      var needed := IsPurgeNeeded();
      if needed { Purge(); }
      ghost var left := entries;
      assert if |kept| >= settings.maxCacheSize then Purged(kept, left, settings.ToEvict()) else left == kept;
      if currSeq == seqAfter { Store(data, computed); }
      verdict := computed;
    }
  }
}
