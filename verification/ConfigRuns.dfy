/** Properties of whole runs of accepted configuration updates. */
module ConfigRuns {
  import opened Basics
  import opened ConfigTree
  import opened ConfigMap
  import opened PolicyManager
  import opened ConfigUpdate
  import opened ConfigAuthority

  /** One accepted update, with the policy manager and the signatures it was judged by. */
  datatype Step<!P> = Step(pm: Manager<P>, sat: P -> bool, update: Update)

  /** A channel: its id and the name of its root group. */
  datatype Channel = Channel(id: string, root: string)

  ghost predicate Usable(ch: Channel, cfg: Config) { ValidID(ch.root) && ValidKeys(cfg.channelGroup) }

  /** The validator of a channel at a configuration. */
  ghost function ValidatorFor<P>(ch: Channel, cfg: Config, pm: Manager<P>): (vi: Validator<P>)
    requires Usable(ch, cfg)
    ensures Valid(vi) && vi.namespace == ch.root && vi.config == cfg && vi.pm == pm && vi.channelId == ch.id
  {
    Validator(ch.id, cfg, Flat([ch.root], cfg.channelGroup), ch.root, pm)
  }

  /** The update is accepted at a configuration. */
  ghost predicate AcceptedAt<P>(ch: Channel, cfg: Config, step: Step<P>) {
    Usable(ch, cfg) && Accepted(ValidatorFor(ch, cfg, step.pm), step.sat, step.update)
  }

  ghost function After<P>(ch: Channel, cfg: Config, step: Step<P>): (cfg': Config)
    requires AcceptedAt(ch, cfg, step)
    ensures Usable(ch, cfg') && cfg'.sequence == Next(cfg.sequence)
  {
    var vi := ValidatorFor(ch, cfg, step.pm);
    NewTreeIsValid(vi, step.sat, step.update);
    Outcome(vi, step.sat, step.update)
  }

  /** `cfgs` are the configurations that the accepted updates `steps` lead through. */
  ghost predicate Run<P>(ch: Channel, cfgs: seq<Config>, steps: seq<Step<P>>) {
    && |cfgs| == |steps| + 1
    && Usable(ch, cfgs[0])
    && forall i | 0 <= i < |steps| :: AcceptedAt(ch, cfgs[i], steps[i]) && cfgs[i + 1] == After(ch, cfgs[i], steps[i])
  }

  /** The element at a place of a configuration. */
  function ElementOf(ch: Channel, cfg: Config, kind: Kind, full: seq<string>): Option<Item> {
    At(ch.root, cfg.channelGroup, kind, full)
  }

  /** The element is in each of the configurations from `i` to `j`. */
  ghost predicate StaysPresent(ch: Channel, cfgs: seq<Config>, i: nat, j: nat, kind: Kind, full: seq<string>)
    requires i <= j < |cfgs|
  {
    forall l | i <= l <= j :: ElementOf(ch, cfgs[l], kind, full).Some?
  }

  /** The sequence number counts the accepted updates, modulo 2^64. */
  lemma {:induction false} SequenceCountsUpdates<P>(ch: Channel, cfgs: seq<Config>, steps: seq<Step<P>>, i: nat)
    requires Run(ch, cfgs, steps) && i < |cfgs|
    ensures cfgs[i].sequence == (cfgs[0].sequence + i) % (MAX_UINT64 + 1)
  {
    hide AcceptedAt, After, Run;
    if i == 0 {
    } else {
      SequenceCountsUpdates(ch, cfgs, steps, i - 1);
      RunStep(ch, cfgs, steps, i - 1);
      NextModulo(cfgs[0].sequence + (i - 1));
    }
  }

  lemma RunStep<P>(ch: Channel, cfgs: seq<Config>, steps: seq<Step<P>>, i: nat)
    requires Run(ch, cfgs, steps) && i + 1 < |cfgs|
    ensures |cfgs| == |steps| + 1 && AcceptedAt(ch, cfgs[i], steps[i]) && cfgs[i + 1] == After(ch, cfgs[i], steps[i])
  {
    hide AcceptedAt, After;
  }

  lemma NextModulo(n: nat)
    ensures Next(n % (MAX_UINT64 + 1)) == (n + 1) % (MAX_UINT64 + 1)
  {
    var m := MAX_UINT64 + 1;
    var q, r := n / m, n % m;
    assert n + 1 == if r + 1 == m then (q + 1) * m else q * m + (r + 1);
  }

  /** A step keeps an element's version or moves it to the next one. */
  lemma StepVersion<P>(ch: Channel, cfg: Config, step: Step<P>, kind: Kind, full: seq<string>)
    requires AcceptedAt(ch, cfg, step)
    requires ElementOf(ch, cfg, kind, full).Some? && ElementOf(ch, After(ch, cfg, step), kind, full).Some?
    ensures var before, after := ElementOf(ch, cfg, kind, full).value,
            ElementOf(ch, After(ch, cfg, step), kind, full).value;
            after.Version() == before.Version() || after.Version() == Next(before.Version())
  {
    var vi := ValidatorFor(ch, cfg, step.pm);
    ElementAfter(ch, cfg, step, kind, full);
    hide Valid, Accepted, AcceptedAt, NewTree, OldAt, NewAt, ElementOf, After, ValidatorFor;
    SurvivorVersion(vi, step.sat, step.update, kind, full);
  }

  lemma ElementAfter<P>(ch: Channel, cfg: Config, step: Step<P>, kind: Kind, full: seq<string>)
    requires AcceptedAt(ch, cfg, step)
    ensures var vi := ValidatorFor(ch, cfg, step.pm);
            && Accepted(vi, step.sat, step.update)
            && ElementOf(ch, cfg, kind, full) == OldAt(vi, kind, full)
            && ElementOf(ch, After(ch, cfg, step), kind, full) == NewAt(vi, step.sat, step.update, kind, full)
  {
    hide Valid, Accepted, NewTree, At;
  }

  /** While an element stays present its version never decreases, unless the counter runs out; it
      grows by at most one for each update. */
  lemma {:induction false} VersionsNeverDecrease<P>(ch: Channel, cfgs: seq<Config>, steps: seq<Step<P>>,
                                                    i: nat, j: nat, kind: Kind, full: seq<string>)
    requires Run(ch, cfgs, steps) && i <= j < |cfgs| && StaysPresent(ch, cfgs, i, j, kind, full)
    requires ElementOf(ch, cfgs[i], kind, full).value.Version() + (j - i) <= MAX_UINT64
    ensures var v := ElementOf(ch, cfgs[i], kind, full).value.Version();
            v <= ElementOf(ch, cfgs[j], kind, full).value.Version() <= v + (j - i)
    decreases j
  {
    hide AcceptedAt, After, ElementOf, Run;
    if i < j {
      VersionsNeverDecrease(ch, cfgs, steps, i, j - 1, kind, full);
      RunStep(ch, cfgs, steps, j - 1);
      StepVersion(ch, cfgs[j - 1], steps[j - 1], kind, full);
    }
  }

  /** The first step of the run changed the tree by more than the back-fill. */
  ghost predicate ChangesTree<P>(ch: Channel, cfg: Config, step: Step<P>)
    requires AcceptedAt(ch, cfg, step)
  {
    var vi := ValidatorFor(ch, cfg, step.pm);
    NewTree(vi, step.sat, step.update) != BackFill(BackFills(vi, step.update), cfg.channelGroup)
  }

  /** The update's delta carries this element at this version. */
  ghost predicate Carries(ch: Channel, u: Update, kind: Kind, full: seq<string>, version: Uint64) {
    var delta := Delta(FlatTree(u.readSet, ch.root), FlatTree(u.writeSet, ch.root));
    Key(kind, full) in delta && delta[Key(kind, full)].Version() == version
  }

  /** An update is accepted only where each element it carries is one version behind. */
  lemma AcceptedOnlyOneBehind<P>(ch: Channel, cfg: Config, step: Step<P>, kind: Kind, full: seq<string>,
                                 version: Uint64)
    requires AcceptedAt(ch, cfg, step) && Carries(ch, step.update, kind, full, version)
    requires ElementOf(ch, cfg, kind, full).Some?
    ensures version == Next(ElementOf(ch, cfg, kind, full).value.Version())
  {
    hide Valid, Key, Delta, Below, At, ValidModPolicy, Authorised;
    var vi := ValidatorFor(ch, cfg, step.pm);
    OldElement(vi, kind, full);
    var s := Key(kind, full);
    assert DeltaItemOk(vi.configMap, vi.pm, step.sat, s, DeltaOf(vi, step.update)[s]);
  }

  lemma ChangeCarriesASurvivor<P>(ch: Channel, cfg: Config, step: Step<P>) returns (kind: Kind, full: seq<string>)
    requires AcceptedAt(ch, cfg, step) && ChangesTree(ch, cfg, step)
    ensures ElementOf(ch, cfg, kind, full).Some? && ElementOf(ch, After(ch, cfg, step), kind, full).Some?
    ensures var next := Next(ElementOf(ch, cfg, kind, full).value.Version());
            && Carries(ch, step.update, kind, full, next)
            && ElementOf(ch, After(ch, cfg, step), kind, full).value.Version() == next
  {
    hide Valid, Accepted, NewTree, BackFill, At, Authorised, Delta, FlatTree, Key;
    var vi := ValidatorFor(ch, cfg, step.pm);
    kind, full := ChangeBumpsASurvivor(vi, step.sat, step.update);
    ChangedElementIsAuthorised(vi, step.sat, step.update, kind, full);
  }

  /** An update that changed the tree cannot be accepted again while the elements it bumped are
      there: some element that survived it guards against every replay, whatever the policies and
      signatures, at every later configuration up to which that element has stayed present. */
  lemma ReplayIsRejected<P(!new)>(ch: Channel, cfgs: seq<Config>, steps: seq<Step<P>>)
    returns (kind: Kind, full: seq<string>)
    requires Run(ch, cfgs, steps) && |steps| > 0 && ChangesTree(ch, cfgs[0], steps[0])
    ensures StaysPresent(ch, cfgs, 0, 1, kind, full)
    ensures forall j, replay: Step<P> |
              1 <= j < |cfgs| && StaysPresent(ch, cfgs, 1, j, kind, full) && replay.update == steps[0].update &&
              ElementOf(ch, cfgs[0], kind, full).value.Version() + j <= MAX_UINT64 ::
              !AcceptedAt(ch, cfgs[j], replay)
  {
    hide AcceptedAt, After, ElementOf, Carries, ChangesTree;
    kind, full := ChangeCarriesASurvivor(ch, cfgs[0], steps[0]);
    var version := ElementOf(ch, cfgs[0], kind, full).value.Version();
    forall j, replay: Step<P> |
      1 <= j < |cfgs| && StaysPresent(ch, cfgs, 1, j, kind, full) && replay.update == steps[0].update &&
      version + j <= MAX_UINT64
      ensures !AcceptedAt(ch, cfgs[j], replay)
    {
      VersionsNeverDecrease(ch, cfgs, steps, 1, j, kind, full);
      if AcceptedAt(ch, cfgs[j], replay) {
        AcceptedOnlyOneBehind(ch, cfgs[j], replay, kind, full, Next(version));
      }
    }
  }
}
