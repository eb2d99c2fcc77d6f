/** Policies as the managers hold them: signature policies and implicit meta policies over the policies
    of the sub-groups (common/policies/implicitmeta.go, common/policies/policy.go). */
module Policies {
  import opened Basics
  import opened SignaturePolicy
  import opened PolicyManager

  // ----- From signatures to identities -----

  datatype SignedData = SignedData(identity: Bytes, data: Bytes, signature: Bytes)

  /** The membership service: reading an identity, checking its signature, matching it to a principal. */
  datatype Msp = Msp(
    deserialize: Bytes -> Option<Identity>,
    verify: (Identity, Bytes, Bytes) -> bool,
    satisfies: Satisfies)

  function DedupKey(id: Identity): string { id.mspid + id.id }

  predicate Signs(msp: Msp, sd: SignedData, id: Identity) {
    msp.deserialize(sd.identity) == Some(id) && msp.verify(id, sd.data, sd.signature)
  }

  predicate HasKey(ids: seq<Identity>, key: string) {
    exists i | 0 <= i < |ids| :: DedupKey(ids[i]) == key
  }

  /** The identities that sign validly, each key kept at its first valid signature. */
  function ValidIdentities(msp: Msp, sds: seq<SignedData>): seq<Identity> {
    if sds == [] then []
    else
      var ids, sd := ValidIdentities(msp, sds[..|sds| - 1]), sds[|sds| - 1];
      var id := msp.deserialize(sd.identity);
      if id.Some? && !HasKey(ids, DedupKey(id.value)) && msp.verify(id.value, sd.data, sd.signature)
      then ids + [id.value] else ids
  }

  /** `SignatureSetToValidIdentities`. */
  method SignatureSetToValidIdentities(msp: Msp, sds: seq<SignedData>) returns (ids: seq<Identity>)
    ensures ids == ValidIdentities(msp, sds)
  {
    var keys: set<string> := {};
    ids := [];
    for k := 0 to |sds|
      invariant ids == ValidIdentities(msp, sds[..k])
      invariant forall key :: key in keys <==> HasKey(ids, key)
    {
      assert sds[..k + 1][..k] == sds[..k];
      var sd := sds[k];
      var id := msp.deserialize(sd.identity);
      if id.None? { continue; }
      var key := DedupKey(id.value);
      if key in keys { continue; }
      if !msp.verify(id.value, sd.data, sd.signature) { continue; }
      KeysOfSnoc(ids, id.value);
      keys, ids := keys + {key}, ids + [id.value];
    }
    assert sds[..|sds|] == sds;
  }

  lemma KeysOfSnoc(ids: seq<Identity>, id: Identity)
    ensures forall key :: HasKey(ids + [id], key) <==> HasKey(ids, key) || key == DedupKey(id)
  {
    forall key
      ensures HasKey(ids + [id], key) <==> HasKey(ids, key) || key == DedupKey(id)
    {
      var all := ids + [id];
      assert all[|ids|] == id;
      if HasKey(ids, key) {
        var i :| 0 <= i < |ids| && DedupKey(ids[i]) == key;
        assert all[i] == ids[i];
      }
    }
  }

  ghost predicate SignedBySome(msp: Msp, sds: seq<SignedData>, id: Identity) {
    exists j | 0 <= j < |sds| :: Signs(msp, sds[j], id)
  }

  lemma SignedByLonger(msp: Msp, sds: seq<SignedData>, n: nat, id: Identity)
    requires n <= |sds| && SignedBySome(msp, sds[..n], id)
    ensures SignedBySome(msp, sds, id)
  {
    var j :| 0 <= j < n && Signs(msp, sds[..n][j], id);
    assert Signs(msp, sds[j], id);
  }

  /** What the last signature adds: the identity behind it, unless its key is there already. */
  lemma LastSignature(msp: Msp, sds: seq<SignedData>)
    requires sds != []
    ensures var before, ids, sd := ValidIdentities(msp, sds[..|sds| - 1]), ValidIdentities(msp, sds), sds[|sds| - 1];
            || (ids == before && forall id | Signs(msp, sd, id) :: HasKey(before, DedupKey(id)))
            || exists id :: Signs(msp, sd, id) && !HasKey(before, DedupKey(id)) && ids == before + [id]
  {
    hide HasKey, DedupKey;
    var before, ids, sd := ValidIdentities(msp, sds[..|sds| - 1]), ValidIdentities(msp, sds), sds[|sds| - 1];
    if ids != before {
      var id := msp.deserialize(sd.identity).value;
      assert Signs(msp, sd, id) && !HasKey(before, DedupKey(id)) && ids == before + [id];
    }
  }

  ghost predicate AllSigned(msp: Msp, sds: seq<SignedData>, ids: seq<Identity>) {
    forall i | 0 <= i < |ids| :: SignedBySome(msp, sds, ids[i])
  }

  ghost predicate KeysDiffer(ids: seq<Identity>) {
    forall i, j | 0 <= i < j < |ids| :: DedupKey(ids[i]) != DedupKey(ids[j])
  }

  ghost predicate AllKept(msp: Msp, sds: seq<SignedData>, ids: seq<Identity>) {
    forall j, id | 0 <= j < |sds| && Signs(msp, sds[j], id) :: HasKey(ids, DedupKey(id))
  }

  /** Every identity returned signed validly, no key comes twice, and every key that signed validly
      is there. */
  lemma {:induction false} ValidIdentitiesExact(msp: Msp, sds: seq<SignedData>)
    ensures var ids := ValidIdentities(msp, sds);
            && (forall i | 0 <= i < |ids| :: SignedBySome(msp, sds, ids[i]))
            && (forall i, j | 0 <= i < j < |ids| :: DedupKey(ids[i]) != DedupKey(ids[j]))
            && (forall j, id | 0 <= j < |sds| && Signs(msp, sds[j], id) :: HasKey(ids, DedupKey(id)))
    decreases |sds|
  {
    hide DedupKey, SignedBySome, Signs, HasKey, ValidIdentities;
    if sds == [] {
      NobodyYet(msp);
    } else {
      var n := |sds| - 1;
      var before, ids := ValidIdentities(msp, sds[..n]), ValidIdentities(msp, sds);
      LastSignature(msp, sds);
      ValidIdentitiesExact(msp, sds[..n]);
      assert AllSigned(msp, sds[..n], before) && KeysDiffer(before) && AllKept(msp, sds[..n], before);
      if ids == before {
        SameSigners(msp, sds, before);
      } else {
        var id :| Signs(msp, sds[n], id) && !HasKey(before, DedupKey(id)) && ids == before + [id];
        OneMoreSigner(msp, sds, before, id);
      }
      assert AllSigned(msp, sds, ids) && KeysDiffer(ids) && AllKept(msp, sds, ids);
    }
  }

  lemma NobodyYet(msp: Msp)
    ensures ValidIdentities(msp, []) == []
  {
  }

  lemma SameSigners(msp: Msp, sds: seq<SignedData>, before: seq<Identity>)
    requires sds != []
    requires AllSigned(msp, sds[..|sds| - 1], before) && AllKept(msp, sds[..|sds| - 1], before)
    requires forall id | Signs(msp, sds[|sds| - 1], id) :: HasKey(before, DedupKey(id))
    ensures AllSigned(msp, sds, before) && AllKept(msp, sds, before)
  {
    hide DedupKey, SignedBySome, Signs, HasKey;
    var n := |sds| - 1;
    forall i | 0 <= i < |before|
      ensures SignedBySome(msp, sds, before[i])
    {
      SignedByLonger(msp, sds, n, before[i]);
    }
    forall j, id | 0 <= j < |sds| && Signs(msp, sds[j], id)
      ensures HasKey(before, DedupKey(id))
    {
      if j < n { assert Signs(msp, sds[..n][j], id); }
    }
  }

  lemma OneMoreSigner(msp: Msp, sds: seq<SignedData>, before: seq<Identity>, id: Identity)
    requires sds != [] && Signs(msp, sds[|sds| - 1], id) && !HasKey(before, DedupKey(id))
    requires AllSigned(msp, sds[..|sds| - 1], before) && KeysDiffer(before) && AllKept(msp, sds[..|sds| - 1], before)
    ensures var ids := before + [id]; AllSigned(msp, sds, ids) && KeysDiffer(ids) && AllKept(msp, sds, ids)
  {
    hide DedupKey, Signs;
    var n, ids := |sds| - 1, before + [id];
    KeysOfSnoc(before, id);
    forall i | 0 <= i < |ids|
      ensures SignedBySome(msp, sds, ids[i])
    {
      if i < |before| { SignedByLonger(msp, sds, n, before[i]); }
    }
    hide HasKey;
    forall j, x | 0 <= j < |sds| && Signs(msp, sds[j], x)
      ensures HasKey(ids, DedupKey(x))
    {
      if j < n {
        assert Signs(msp, sds[..n][j], x);
      } else {
        OneSigner(msp, sds[n], id, x);
      }
    }
  }

  lemma OneSigner(msp: Msp, sd: SignedData, x: Identity, y: Identity)
    requires Signs(msp, sd, x) && Signs(msp, sd, y)
    ensures x == y
  {
  }

  /** Ids of one length make the key injective, so then exactly the signing identities are returned. */
  lemma FixedLengthIdsLoseNobody(msp: Msp, sds: seq<SignedData>, length: nat, j: nat, id: Identity)
    requires forall k, x | 0 <= k < |sds| && msp.deserialize(sds[k].identity) == Some(x) :: |x.id| == length
    requires j < |sds| && Signs(msp, sds[j], id)
    ensures id in ValidIdentities(msp, sds)
  {
    hide ValidIdentities;
    var ids := ValidIdentities(msp, sds);
    ValidIdentitiesExact(msp, sds);
    assert HasKey(ids, DedupKey(id));
    var i :| 0 <= i < |ids| && DedupKey(ids[i]) == DedupKey(id);
    var k :| 0 <= k < |sds| && Signs(msp, sds[k], ids[i]);
    DedupKeyInjective(ids[i], id);
  }

  lemma DedupKeyInjective(a: Identity, b: Identity)
    requires |a.id| == |b.id| && DedupKey(a) == DedupKey(b)
    ensures a == b
  {
    var key := DedupKey(a);
    assert a.id == key[|a.mspid|..] && b.id == key[|b.mspid|..];
    assert a.mspid == key[..|a.mspid|] && b.mspid == key[..|b.mspid|];
  }

  // ----- Policies -----

  datatype Envelope = Envelope(version: int, rule: SigPolicy, identities: seq<Principal>)

  /** `Reject` stands in for a policy that was not found. */
  datatype Policy = Signature(envelope: Envelope) | ImplicitMeta(threshold: int, subPolicies: seq<Policy>) | Reject

  /** Signature policies exist only when their envelope compiles. */
  predicate WellFormed(p: Policy)
    decreases p
  {
    match p
    case Signature(env) => Compile(env.rule, env.identities).Some?
    case ImplicitMeta(_, subs) => forall i | 0 <= i < |subs| :: WellFormed(subs[i])
    case Reject => true
  }

  /** When the countdown of an implicit meta policy ends at exactly zero. */
  predicate CountdownEnds(threshold: int, satisfied: nat) {
    if threshold >= 1 then satisfied >= threshold else threshold == 0 && satisfied == 0
  }

  /** `EvaluateIdentities` of any policy. */
  predicate Evaluated(p: Policy, sat: Satisfies, ids: seq<Identity>)
    requires WellFormed(p)
    decreases p, 1
  {
    match p
    case Signature(env) => Accepts(Compile(env.rule, env.identities).value, sat, ids)
    case ImplicitMeta(threshold, subs) => CountdownEnds(threshold, Satisfied(subs, sat, ids))
    case Reject => false
  }

  /** How many of the policies are satisfied, each on its own fresh array. */
  function Satisfied(subs: seq<Policy>, sat: Satisfies, ids: seq<Identity>): (n: nat)
    requires forall i | 0 <= i < |subs| :: WellFormed(subs[i])
    ensures n <= |subs|
    decreases subs, 0
  {
    if subs == [] then 0
    else (if Evaluated(subs[0], sat, ids) then 1 else 0) + Satisfied(subs[1..], sat, ids)
  }

  lemma {:induction false} SatisfiedSnoc(subs: seq<Policy>, p: Policy, sat: Satisfies, ids: seq<Identity>)
    requires WellFormed(p) && forall i | 0 <= i < |subs| :: WellFormed(subs[i])
    ensures Satisfied(subs + [p], sat, ids) == Satisfied(subs, sat, ids) + if Evaluated(p, sat, ids) then 1 else 0
    decreases |subs|
  {
    var all := subs + [p];
    if subs == [] {
      assert all[1..] == [];
    } else {
      assert all[0] == subs[0] && all[1..] == subs[1..] + [p];
      SatisfiedSnoc(subs[1..], p, sat, ids);
    }
  }

  lemma {:induction false} SatisfiedPrefix(subs: seq<Policy>, k: nat, sat: Satisfies, ids: seq<Identity>)
    requires k <= |subs| && forall i | 0 <= i < |subs| :: WellFormed(subs[i])
    ensures Satisfied(subs[..k], sat, ids) <= Satisfied(subs, sat, ids)
    decreases |subs| - k
  {
    if k == |subs| {
      assert subs[..k] == subs;
    } else {
      assert subs[..k + 1] == subs[..k] + [subs[k]];
      SatisfiedSnoc(subs[..k], subs[k], sat, ids);
      SatisfiedPrefix(subs, k + 1, sat, ids);
    }
  }

  /** `EvaluateIdentities`, with the countdown of the implicit meta policy. */
  method EvaluatePolicy(p: Policy, sat: Satisfies, ids: seq<Identity>) returns (ok: bool)
    requires WellFormed(p)
    ensures ok <==> Evaluated(p, sat, ids)
    decreases p
  {
    match p
    case Reject => ok := false;
    case Signature(env) =>
      ok := EvaluateIdentities(Compile(env.rule, env.identities).value, sat, ids);
    case ImplicitMeta(threshold, subs) =>
      var remaining := threshold;
      for k := 0 to |subs|
        invariant remaining == threshold - Satisfied(subs[..k], sat, ids)
        invariant remaining == 0 ==> threshold == 0
        invariant threshold >= 1 ==> remaining >= 1
      {
        assert subs[..k + 1] == subs[..k] + [subs[k]];
        SatisfiedSnoc(subs[..k], subs[k], sat, ids);
        var good := EvaluatePolicy(subs[k], sat, ids);
        if good {
          remaining := remaining - 1;
          if remaining == 0 {
            SatisfiedPrefix(subs, k + 1, sat, ids);
            return true;
          }
        }
      }
      assert subs[..|subs|] == subs;
      ok := remaining == 0;
  }

  /** `EvaluateSignedData` of any policy: each signature policy validates the signatures by itself. */
  predicate EvaluatedSigned(p: Policy, msp: Msp, sds: seq<SignedData>)
    requires WellFormed(p)
    decreases p, 1
  {
    match p
    case Signature(env) =>
      Accepts(Compile(env.rule, env.identities).value, msp.satisfies, ValidIdentities(msp, sds))
    case ImplicitMeta(threshold, subs) => CountdownEnds(threshold, SatisfiedSigned(subs, msp, sds))
    case Reject => false
  }

  function SatisfiedSigned(subs: seq<Policy>, msp: Msp, sds: seq<SignedData>): nat
    requires forall i | 0 <= i < |subs| :: WellFormed(subs[i])
    decreases subs, 0
  {
    if subs == [] then 0
    else (if EvaluatedSigned(subs[0], msp, sds) then 1 else 0) + SatisfiedSigned(subs[1..], msp, sds)
  }

  /** Validating the signatures once up front comes to the same. */
  lemma {:induction false} SignedMeansIdentities(p: Policy, msp: Msp, sds: seq<SignedData>)
    requires WellFormed(p)
    ensures EvaluatedSigned(p, msp, sds) <==> Evaluated(p, msp.satisfies, ValidIdentities(msp, sds))
    decreases p, 1
  {
    if p.ImplicitMeta? { SignedMeansIdentitiesAll(p.subPolicies, msp, sds); }
  }

  lemma {:induction false} SignedMeansIdentitiesAll(subs: seq<Policy>, msp: Msp, sds: seq<SignedData>)
    requires forall i | 0 <= i < |subs| :: WellFormed(subs[i])
    ensures SatisfiedSigned(subs, msp, sds) == Satisfied(subs, msp.satisfies, ValidIdentities(msp, sds))
    decreases subs, 0
  {
    if subs != [] {
      SignedMeansIdentities(subs[0], msp, sds);
      SignedMeansIdentitiesAll(subs[1..], msp, sds);
    }
  }

  /** If a signature policy accepts signed data, then pairwise distinct identities, each with a valid
      signature in the set, can be assigned one to one to the leaves of a satisfying subtree. */
  lemma SignedDataSound(env: Envelope, msp: Msp, sds: seq<SignedData>) returns (w: Witness)
    requires WellFormed(Signature(env)) && EvaluatedSigned(Signature(env), msp, sds)
    ensures var ids := ValidIdentities(msp, sds);
            && Supports(w, Compile(env.rule, env.identities).value, msp.satisfies, ids)
            && (forall i | i in Signers(w) :: Signers(w)[i] == 1 && i < |ids|)
            && (forall i | 0 <= i < |ids| :: SignedBySome(msp, sds, ids[i]))
            && (forall i, j | 0 <= i < j < |ids| :: ids[i] != ids[j])
  {
    ValidIdentitiesExact(msp, sds);
    w := AcceptSound(Compile(env.rule, env.identities).value, msp.satisfies, ValidIdentities(msp, sds));
  }

  /** Why a policy is satisfied: signers for a signature policy, reasons for some of the sub-policies of an
      implicit meta policy. */
  datatype Backing = BySigners(w: Witness) | BySubPolicies(parts: seq<Backing>) | NotMet

  function BackedCount(parts: seq<Backing>): nat {
    if parts == [] then 0 else (if parts[0].NotMet? then 0 else 1) + BackedCount(parts[1..])
  }

  /** Distinct signers meet the leaves of a satisfying subtree one to one for every signature policy that is
      counted, and threshold many sub-policies are counted for every implicit meta policy that is. */
  predicate Backs(b: Backing, p: Policy, sat: Satisfies, ids: seq<Identity>)
    requires WellFormed(p)
    decreases p
  {
    match p
    case Signature(env) =>
      && b.BySigners? && Supports(b.w, Compile(env.rule, env.identities).value, sat, ids)
      && forall i | i in Signers(b.w) :: Signers(b.w)[i] == 1 && i < |ids|
    case ImplicitMeta(threshold, subs) =>
      && b.BySubPolicies? && |b.parts| == |subs| && BackedCount(b.parts) >= threshold
      && forall i | 0 <= i < |subs| && !b.parts[i].NotMet? :: Backs(b.parts[i], subs[i], sat, ids)
    case Reject => false
  }

  /** A policy of any nesting that is satisfied is backed by signers. */
  lemma {:induction false} EvaluatedIsBacked(p: Policy, sat: Satisfies, ids: seq<Identity>) returns (b: Backing)
    requires WellFormed(p) && Evaluated(p, sat, ids)
    ensures Backs(b, p, sat, ids)
    decreases p, 1
  {
    match p
    case Signature(env) =>
      var w := AcceptSound(Compile(env.rule, env.identities).value, sat, ids);
      b := BySigners(w);
    case ImplicitMeta(threshold, subs) =>
      var parts := SatisfiedAreBacked(subs, sat, ids);
      b := BySubPolicies(parts);
  }

  lemma {:induction false} SatisfiedAreBacked(subs: seq<Policy>, sat: Satisfies, ids: seq<Identity>)
    returns (parts: seq<Backing>)
    requires forall i | 0 <= i < |subs| :: WellFormed(subs[i])
    ensures |parts| == |subs| && BackedCount(parts) == Satisfied(subs, sat, ids)
    ensures forall i | 0 <= i < |subs| && !parts[i].NotMet? :: Backs(parts[i], subs[i], sat, ids)
    decreases subs, 0
  {
    hide Backs, Evaluated;
    if subs == [] {
      parts := [];
    } else {
      var first := NotMet;
      if Evaluated(subs[0], sat, ids) {
        first := EvaluatedIsBacked(subs[0], sat, ids);
        BackingIsMet(first, subs[0], sat, ids);
      }
      var rest := SatisfiedAreBacked(subs[1..], sat, ids);
      parts := [first] + rest;
      assert parts[1..] == rest;
    }
  }

  lemma BackingIsMet(b: Backing, p: Policy, sat: Satisfies, ids: seq<Identity>)
    requires WellFormed(p) && Backs(b, p, sat, ids)
    ensures !b.NotMet?
  {
  }

  // ----- Implicit meta policies over a set of managers -----

  /** `OTHER` stands for a value that the definition does not name. */
  datatype MetaRule = ANY | ALL | MAJORITY | OTHER

  /** The threshold chosen by `NewImplicitMetaPolicy`. */
  function Threshold(rule: MetaRule, n: nat): int {
    if n == 0 then 0
    else match rule
      case ANY => 1
      case ALL => n
      case MAJORITY => n / 2 + 1
      case OTHER => 0
  }

  /** The countdown means what the rule says; no sub-policies satisfy any rule, and an unnamed rule is
      satisfied when no sub-policy is. */
  lemma ThresholdMeansRule(rule: MetaRule, n: nat, satisfied: nat)
    requires satisfied <= n
    ensures if n == 0 || rule == OTHER then Threshold(rule, n) == 0 else 1 <= Threshold(rule, n) <= n
    ensures CountdownEnds(Threshold(rule, n), satisfied) <==> RuleHolds(rule, n, satisfied)
  {
  }

  /** The countdown agrees with the comparison it stands for exactly when the threshold is positive, or is
      zero without sub-policies: counting down from zero past a satisfied sub-policy never ends at zero. */
  lemma CountdownIsThreshold(threshold: int, n: nat)
    ensures (forall satisfied: nat | satisfied <= n :: CountdownEnds(threshold, satisfied) <==>
            satisfied >= threshold) <==>
            threshold >= 1 || (threshold == 0 && n == 0)
  {
    if threshold == 0 && n > 0 {
      assert !CountdownEnds(threshold, 1);
    } else if threshold < 0 {
      assert !CountdownEnds(threshold, 0);
    }
  }

  /** What stands for a manager: the policy it finds under the name, or one that rejects. */
  ghost predicate StandsIn(p: Policy, m: Manager<Policy>, name: string) {
    match GetPolicy(m, name)
    case Found(q) => p == q
    case _ => p == Reject
  }

  /** `order` lists the keys of the map, each once. */
  ghost predicate Lists<T>(order: seq<string>, m: map<string, T>) {
    && (forall i | 0 <= i < |order| :: order[i] in m)
    && (forall k | k in m :: exists i | 0 <= i < |order| :: order[i] == k)
    && (forall i, j | 0 <= i < j < |order| :: order[i] != order[j])
  }

  /** The sub-policies are what the managers offer under the name, in that order. */
  ghost predicate InOrder(subs: seq<Policy>, order: seq<string>, managers: map<string, Manager<Policy>>, name: string) {
    && Lists(order, managers) && |subs| == |order|
    && forall i | 0 <= i < |order| :: StandsIn(subs[i], managers[order[i]], name)
  }

  /** The sub-policies so far stand for the managers, those still to do aside. */
  ghost predicate InOrderSoFar(subs: seq<Policy>, order: seq<string>, managers: map<string, Manager<Policy>>,
                               name: string, todo: set<string>)
  {
    && |subs| == |order|
    && (forall i | 0 <= i < |order| ::
          order[i] in managers && order[i] !in todo && StandsIn(subs[i], managers[order[i]], name))
    && (forall k | k in managers && k !in todo :: k in order)
    && (forall i, j | 0 <= i < j < |order| :: order[i] != order[j])
  }

  lemma OneMoreInOrder(subs: seq<Policy>, order: seq<string>, managers: map<string, Manager<Policy>>, name: string,
                       todo: set<string>, k: string, p: Policy)
    requires InOrderSoFar(subs, order, managers, name, todo) && k in managers && k in todo
    requires StandsIn(p, managers[k], name)
    ensures InOrderSoFar(subs + [p], order + [k], managers, name, todo - {k})
  {
    hide StandsIn;
  }

  /** `NewImplicitMetaPolicy`: one sub-policy for each manager, in whatever order the managers come.
      It panics when a lookup does. */
  method NewImplicitMetaPolicy(rule: MetaRule, name: string, managers: map<string, Manager<Policy>>)
    returns (r: Option<Policy>, ghost order: seq<string>)
    ensures r.None? <==> exists k | k in managers :: GetPolicy(managers[k], name).Panics?
    ensures r.Some? ==> r.value.ImplicitMeta? && r.value.threshold == Threshold(rule, |managers|)
    ensures r.Some? ==> InOrder(r.value.subPolicies, order, managers, name)
  {
    hide GetPolicy, Threshold;
    order := [];
    var subs: seq<Policy> := [];
    var todo := managers.Keys;
    while todo != {}
      invariant todo <= managers.Keys
      invariant forall k | k in managers && k !in todo :: !GetPolicy(managers[k], name).Panics?
      invariant |order| + |todo| == |managers| && InOrderSoFar(subs, order, managers, name, todo)
      decreases todo
    {
      var k :| k in todo;
      var lookup := GetPolicy(managers[k], name);
      if lookup.Panics? { return None, []; }
      var sub := if lookup.Found? then lookup.policy else Reject;
      OneMoreInOrder(subs, order, managers, name, todo, k, sub);
      subs, order, todo := subs + [sub], order + [k], todo - {k};
    }
    return Some(ImplicitMeta(Threshold(rule, |subs|), subs)), order;
  }

  /** The manager finds a policy under the name, and the policy is satisfied. */
  ghost predicate HasSatisfied(m: Manager<Policy>, name: string, sat: Satisfies, ids: seq<Identity>) {
    var lookup := GetPolicy(m, name);
    lookup.Found? && WellFormed(lookup.policy) && Evaluated(lookup.policy, sat, ids)
  }

  /** What the manager finds can be evaluated. */
  ghost predicate FindsWellFormed(m: Manager<Policy>, name: string) {
    GetPolicy(m, name).Found? ==> WellFormed(GetPolicy(m, name).policy)
  }

  lemma StandInMeans(p: Policy, m: Manager<Policy>, name: string, sat: Satisfies, ids: seq<Identity>)
    requires StandsIn(p, m, name) && FindsWellFormed(m, name)
    ensures WellFormed(p) && (Evaluated(p, sat, ids) <==> HasSatisfied(m, name, sat, ids))
  {
    hide GetPolicy;
  }

  /** The managers whose policy of that name is satisfied. */
  ghost function SatisfiedManagers(managers: map<string, Manager<Policy>>, names: set<string>, name: string,
                                   sat: Satisfies, ids: seq<Identity>): set<string>
    requires names <= managers.Keys
  {
    set k | k in names && HasSatisfied(managers[k], name, sat, ids)
  }

  function Names(order: seq<string>): set<string> { set k | k in order }

  lemma NamesStep(order: seq<string>)
    requires order != [] && forall i, j | 0 <= i < j < |order| :: order[i] != order[j]
    ensures Names(order) == Names(order[1..]) + {order[0]} && order[0] !in Names(order[1..])
  {
    assert order == [order[0]] + order[1..];
  }

  lemma {:induction false} SatisfiedIsOrderFree(managers: map<string, Manager<Policy>>, order: seq<string>,
                                                subs: seq<Policy>, name: string, sat: Satisfies, ids: seq<Identity>)
    requires forall k | k in managers :: FindsWellFormed(managers[k], name)
    requires |subs| == |order| && forall i | 0 <= i < |order| ::
             order[i] in managers && StandsIn(subs[i], managers[order[i]], name)
    requires forall i, j | 0 <= i < j < |order| :: order[i] != order[j]
    ensures Names(order) <= managers.Keys && forall i | 0 <= i < |subs| :: WellFormed(subs[i])
    ensures Satisfied(subs, sat, ids) == |SatisfiedManagers(managers, Names(order), name, sat, ids)|
    decreases |order|
  {
    hide Evaluated, StandsIn, WellFormed, Names, FindsWellFormed, HasSatisfied;
    if order == [] {
      assert Names(order) == {} by { NoNames(); }
    } else {
      NamesStep(order);
      SatisfiedIsOrderFree(managers, order[1..], subs[1..], name, sat, ids);
      StandInMeans(subs[0], managers[order[0]], name, sat, ids);
      assert forall i | 0 < i < |subs| :: subs[i] == subs[1..][i - 1];
      var tail := SatisfiedManagers(managers, Names(order[1..]), name, sat, ids);
      assert SatisfiedManagers(managers, Names(order), name, sat, ids) ==
             if Evaluated(subs[0], sat, ids) then tail + {order[0]} else tail;
    }
  }

  lemma NoNames()
    ensures Names([]) == {}
  {
  }

  /** Any, all or most of `n` are `yes`; without any of them every rule holds, and an unnamed rule holds when none
      is. */
  predicate RuleHolds(rule: MetaRule, n: nat, yes: nat) {
    n == 0 || match rule
              case ANY => yes > 0
              case ALL => yes == n
              case MAJORITY => 2 * yes > n
              case OTHER => yes == 0
  }

  /** An implicit meta policy is satisfied when any, all or most of the sub-managers find a policy of that name that
      is satisfied, whatever order they were listed in. */
  lemma ImplicitMetaMeansRule(rule: MetaRule, name: string, managers: map<string, Manager<Policy>>,
                              order: seq<string>, subs: seq<Policy>, sat: Satisfies, ids: seq<Identity>)
    requires forall k | k in managers :: FindsWellFormed(managers[k], name)
    requires InOrder(subs, order, managers, name)
    ensures WellFormed(ImplicitMeta(Threshold(rule, |managers|), subs))
    ensures Evaluated(ImplicitMeta(Threshold(rule, |managers|), subs), sat, ids) <==>
            RuleHolds(rule, |managers|, |SatisfiedManagers(managers, managers.Keys, name, sat, ids)|)
  {
    hide GetPolicy, StandsIn, FindsWellFormed, HasSatisfied;
    assert Names(order) == managers.Keys;
    SatisfiedIsOrderFree(managers, order, subs, name, sat, ids);
    OrderCoversMap(order);
    ThresholdMeansRule(rule, |managers|, Satisfied(subs, sat, ids));
  }

  lemma {:induction false} OrderCoversMap(order: seq<string>)
    requires forall i, j | 0 <= i < j < |order| :: order[i] != order[j]
    ensures |Names(order)| == |order|
    decreases |order|
  {
    if order != [] {
      NamesStep(order);
      OrderCoversMap(order[1..]);
    }
  }
}
