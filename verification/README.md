# A verified model of Fabric's configuration, policy and discovery logic

This project models seven parts of a Hyperledger Fabric fork in Dafny and proves what they promise.

- **Configuration updates** (`ConfigTree`, `ConfigMap`, `RebuiltTree`, `ConfigUpdate`, `ElementNames`,
  `ConfigAuthority`, `AcceptedUpdates`, `ConfigRuns`).
  A channel configuration is a tree of groups, values and policies. It is flattened to a map keyed by
  strings such as `[Group]  /Channel/Application`. An update carries a read set and a write set; what the
  write set changes is checked against versions and mod policies, laid over the old map, and the tree is
  rebuilt. The code never compares the old tree with the new one. The theorems do: which updates are accepted
  and what stands at each place of the new tree is told over the trees alone, every difference between the two
  trees was authorised, the rebuild cannot fail, and an update that changed something cannot be replayed.
- **Policy managers** (`PolicyManager`, `ManagerBuilding`). A tree of managers with a flattened map of policies
  at each node, and its construction from a configuration, panics included.
- **Signature policies** (`SignaturePolicy`, `GreedyMonotone`, `MonotoneExactly`, `AbsentSigners`,
  `GreedyMatching`). A policy tree is evaluated greedily over one array of used identities, with copies for
  backtracking. Acceptance means an injective assignment of signers to leaves. Adding signers never hurts for a
  class of rules that includes every gate over leaves and over gates that ask for at most two leaves, and every
  OR and every AND of one-level gates. For policies of two levels in which no principal occurs twice the exact
  condition is proved. For one-level gates it is proved exactly when the greedy count is the size of a largest
  assignment, over all lists of identities, repetitions included.
- **Implicit meta policies and conversion** (`Policies`, `PolicyConvert`, `ConversionLaxer`, `ConversionMeaning`).
  Thresholds over the policies of sub-groups, and their translation into one signature policy by merging and
  re-indexing principals. The translation is the same as the original where nobody can serve two sub-policies or
  one is enough; for sub-policies that one signer can meet this is exact. It is never laxer where adding signers
  hurts no sub-policy after the first; over a leaf and any other policy this is exact.
- **Tree permutations** (`Choose`, `TreeShapes`, `TreeVertices`, `TreePermutations`). The enumeration of all
  threshold subtrees by breadth-first expansion, first on values, then on vertex objects with cloning and
  in-place replacement.
- **The discovery auth cache** (`AccessCache`, `AuthCacheProtocol`, `AuthCacheWindows`, `AuthCacheAlone`,
  `AuthCacheSize`). A cache with several lock regions, as an object and as a transition system of concurrent
  calls that may race to create it; a call that meets no other call does in the transition system what it does
  on the object.
- **Logger levels** (`LogLevels`, `SpecMeaning`, `LoggerLevels`, `LevelRuns`, `LevelWindows`). A cached
  longest-prefix lookup, a fast filter, a specification language with a printer, and lookups that run beside
  activations. `Histories` is about logs that only grow.

`ConfigExample` works out one accepted update. `ConfigSignatures` and `SignedUpdates` join the parts: a change to
a configuration element leads back to distinct, validly signing identities that meet the element's previous
policy, and for managers built from the configuration itself that policy is satisfied exactly when the
definition in the configuration tree holds of the signers.

## How to read it

Code that works step by step is a method with loops, proved against a function or a predicate; the
properties are lemmas about that function or predicate. Go maps are iterated in no fixed order, so loops
over maps pick keys arbitrarily. `uint64` counters wrap explicitly (`Basics.Next`). A panic is an outcome of
its own (`Panics`, `Panicked`, `LookupPanics`, `None` or `ok == false`) or is excluded by a proof. The panic of
`Level` happens between locking and unlocking: the object then keeps its mutex locked, which no longer meets
`Valid`, and in `LevelRuns` every later locked region is blocked.

Assumptions about code outside the model, each a parameter or a definition:

- The membership service reads identities, verifies signatures and matches principals by functions given in
  `Policies.Msp`.
- The hash of a discovery request is collision-free, so requests stand for their own cache keys.
- The config sequence of a channel only grows, and eligibility is a function of the sequence and the request.
- The retention ratio of the auth cache is a real number and its product with the maximum is exact, where the
  source uses `float64`.
- The level printer of the logging library prints `debug` to `fatal` by name and PAYLOAD as `Level(-2)`.
- `sort.Strings` sorts lexicographically; `big.Int.Binomial` is the binomial coefficient.

Where code and documentation differ, the model follows the code:

- `GetPolicy` says it strips the slash after the manager's path. It skips one character unread, and an id that
  is the path alone makes it slice out of range (`PolicyManager.SeparatorIsNotChecked`,
  `PolicyManager.PanicsExactlyOnOwnPath`).
- `Permute` says pruning goes on until the number of combinations is below the bound; it stops at the bound.
  A bound below one takes a vertex below its threshold, or panics at threshold zero
  (`Choose.SmallBoundLosesThreshold`, `TreePermutations.ComputeDescendantPermutations`).
- `Spec` is described as a normalized version of the active specification; with a PAYLOAD level it is not a
  specification at all (`LogLevels.PrintReadsBack`).
- The countdown of an implicit meta policy differs from comparing with the threshold when the threshold is not
  positive (`Policies.CountdownIsThreshold`). A rule value that the definition does not name gets threshold zero,
  so it is satisfied exactly when no sub-policy is (`Policies.ThresholdMeansRule`).

## Model

| member | source | states |
|---|---|---|
| ConfigTree.EqualsIsShellEquality | common/configtx/compare.go:23-176 | comparing two elements with the source's `equals`, subset scans and size shortcuts included, is equality of version, mod policy, content and child name sets |
| ConfigTree.FqPathIsKey | common/configtx/configmap.go:43-71 | the key that `addToMap` joins together is the kind prefix followed by the slash-separated full path |
| ConfigTree.KeyInjective | common/configtx/configmap.go:43-71 | for validated names, equal keys mean equal kind and equal path |
| ElementNames.NameExactly | common/configtx/validator.go:25-69 | element names are 1 to 249 ASCII letters, digits, dots and dashes, `.` and `..` excepted |
| ElementNames.ChannelNameExactly | common/configtx/validator.go:71-99 | channel names are 1 to 249 small ASCII letters, digits, dots and dashes that begin with a letter |
| ElementNames.ModPolicyExactly | common/configtx/update.go:48-65 | valid mod policies are legal names with slashes between them and perhaps one before |
| ElementNames.TreeNamesExactly | common/configtx/configmap.go:43-101 | a tree passes validation exactly when every element stands at a path of legal names |
| ConfigMap.AddToMap | common/configtx/configmap.go:43-71 | fails exactly on an invalid name, otherwise files the element under its own key and changes nothing else |
| ConfigMap.AddGroups | common/configtx/configmap.go:79-86 | the loop over sub-groups adds exactly the entries of all sub-groups, or fails exactly when one holds an invalid name |
| ConfigMap.AddValues | common/configtx/configmap.go:88-92 | the loop over values adds exactly their entries |
| ConfigMap.AddPolicies | common/configtx/configmap.go:94-98 | the loop over policies adds exactly their entries |
| ConfigMap.RecurseConfig | common/configtx/configmap.go:73-101 | fails exactly when some name in the tree is invalid, otherwise adds every element of the tree in whatever order children come |
| ConfigMap.MapConfig | common/configtx/configmap.go:30-41 | the flat map of a tree, empty for a missing tree, or failure exactly when a name is invalid |
| ConfigMap.FlatLookup | common/configtx/configmap.go:30-101 | the flat map of a validated tree returns every element under its key |
| ConfigMap.FlatUnique | common/configtx/configmap.go:30-101 | a validated tree has only one map that files exactly its elements |
| ConfigMap.RecurseConfigMap | common/configtx/configmap.go:110-190 | the recursion with its filling loops computes the rebuilt tree and ends on every map; what stands in that tree is `RebuiltTree.RebuiltElements`, when it exists `RebuiltTree.RebuildsExactly` |
| ConfigMap.RebuildGroups | common/configtx/configmap.go:126-132 | the loop over sub-groups rebuilds each of them or fails exactly when one fails |
| ConfigMap.RebuildValues | common/configtx/configmap.go:134-144 | the loop over values collects them or fails exactly when one is missing or of the wrong kind |
| ConfigMap.RebuildPolicies | common/configtx/configmap.go:146-157 | the loop over policies collects them or fails exactly when one is missing or of the wrong kind |
| ConfigMap.ClosedRebuilds | common/configtx/configmap.go:112-157 | on a map closed under listed children none of the missing-element errors can fire |
| ConfigMap.RebuiltElement | common/configtx/configmap.go:112-190 | every element of a rebuilt tree has the shell filed under its key, back-fill aside |
| ConfigMap.FlatHasCapabilities | common/configtx/configmap.go:25-28 | the key that switches on the back-fill is in the flat map exactly when the tree configures the orderer capabilities |
| ConfigMap.RoundTrip | common/configtx/configmap.go:30-190 | flattening and rebuilding gives the tree back, with empty mod policies filled in exactly when the orderer capabilities are configured; element by element in `RebuiltTree.RebuiltElements` |
| ConfigMap.RoundTripTwice | common/configtx/configmap.go:30-190 | the second round trip is the identity |
| RebuiltTree.RebuiltElements | common/configtx/configmap.go:25-190 | flattening and rebuilding has an element at a place exactly when the tree had one there, of the same version, content and child names; its mod policy is `Admins` where it was empty and the channel has orderer capabilities, and the same otherwise |
| RebuiltTree.NoEmptyModPolicy | common/configtx/configmap.go:159-187 | with the capabilities no element of the result has an empty mod policy |
| RebuiltTree.RebuildsExactly | common/configtx/configmap.go:112-157 | rebuilding an arbitrary map fails exactly when something listed on the way down is missing or of the wrong kind |
| ConfigUpdate.NewValidatorImpl | common/configtx/validator.go:101-128 | succeeds exactly for a valid channel id and valid names, and its map is the flat map of its configuration |
| ConfigUpdate.PolicyIsFoundAtOwner | common/configtx/update.go:161-190 | a relative mod policy is looked up by the manager of the group that owns the element, an absolute one by the root manager |
| ConfigUpdate.RelativeMeansAbsolute | common/configtx/update.go:161-190 | a relative mod policy names the same policy as the absolute id through the owning group, or both name none |
| ConfigUpdate.VerifyReadSet | common/configtx/update.go:18-30 | accepts exactly when every element of the read set is configured at the version read |
| ConfigUpdate.ComputeDeltaSet | common/configtx/update.go:32-46 | exactly the write-set elements that the read set does not hold at the same version |
| ConfigUpdate.VerifyDeltaSet | common/configtx/update.go:67-102 | passes exactly a non-empty delta in which every new element is at version 0 and every existing one at the next version with its existing mod policy satisfied; otherwise some change fails, or the policy lookup of some change panics. `AcceptedUpdates.AcceptedExactly` says the same over trees |
| ConfigUpdate.ComputeUpdateResult | common/configtx/update.go:192-203 | the old map with the delta laid over it |
| ConfigUpdate.WriteSetWithinOverlay | common/configtx/update.go:104-111 | once the read set matches, `verifyFullProposedConfig` cannot fail |
| ConfigUpdate.AuthorizeUpdate | common/configtx/update.go:113-159 | accepts exactly when channel, read set, write set and delta pass, returns the overlay, and otherwise reports the first check that fails or the panic of a policy lookup |
| ConfigUpdate.OverlayIsClosed | common/configtx/update.go:129-158 | the overlay holds every child that any of its groups lists |
| ConfigUpdate.ResultExists | common/configtx/update.go:104-159 | after the read set matches and both sets map, neither the full-config check nor rebuilding the tree can fail |
| ConfigUpdate.ProposeConfigUpdate | common/configtx/validator.go:136-159 | an accepted update yields the rebuilt overlay at the next sequence number |
| ConfigUpdate.Validate | common/configtx/validator.go:161-196 | passes exactly the configuration that the recorded update produces, and panics only where a policy lookup does |
| ConfigAuthority.ReadSetIsCurrent | common/configtx/update.go:18-30 | every element of an accepted update's read-set tree is in the current tree at that version |
| ConfigAuthority.ChangedElementIsAuthorised | common/configtx/update.go:67-159 | an element in both trees keeps its shell, back-fill aside, unless the delta moves it to the next version and its existing mod policy is satisfied |
| ConfigAuthority.NewElementStartsAtZero | common/configtx/update.go:72-85 | an element only in the new tree comes from the delta at version 0 with a valid mod policy |
| ConfigAuthority.AddedOrRemovedElementIsAuthorised | common/configtx/update.go:67-159 | for an element in only one of the trees, the deepest ancestor group in both trees is bumped and authorised |
| ConfigAuthority.ChangeBumpsASurvivor | common/configtx/update.go:67-159 | an update that does more than the back-fill bumps, with authority, an element present before and after |
| ConfigAuthority.NewTreeIsValid | common/configtx/validator.go:136-159 | the new tree has valid names throughout, so the next validator can be built |
| AcceptedUpdates.AcceptedExactly | common/configtx/update.go:18-159 | an update is accepted exactly when it is for this channel with legal names, every read-set element is in the current tree at its version, some write-set element is not read at the same version, and each such element has a valid mod policy and is new at version 0, of any kind, or one version ahead of an existing one whose own policy is satisfied |
| AcceptedUpdates.NewTreeExactly | common/configtx/update.go:113-203 | an element stands in the new tree exactly when its parent there lists it, and is the one that the write set changes it to, or else the current one with its empty mod policy filled in |
| ConfigRuns.SequenceCountsUpdates | common/configtx/validator.go:152-155 | over any run the sequence grows by one for each accepted update, modulo 2^64 |
| ConfigRuns.StepVersion | common/configtx/update.go:78-88 | an accepted update keeps the version of a surviving element or moves it to the next one |
| ConfigRuns.VersionsNeverDecrease | common/configtx/update.go:78-88 | over any run the version of an element that stays present never decreases and grows by at most one for each update, as long as the counter does not wrap |
| ConfigRuns.AcceptedOnlyOneBehind | common/configtx/update.go:86-88 | an update is accepted only where every existing element of its delta is exactly one version behind |
| ConfigRuns.ReplayIsRejected | common/configtx/update.go:32-102 | an update that changed the tree bumped a surviving element and is rejected, under any policies and signatures, at every later configuration up to which that element stays present |
| ConfigExample.ChangeIsAccepted | common/configtx/validator.go:136-159 | a concrete update that bumps the root and gives it another mod policy is accepted, so the theorems about accepted updates are not empty |
| ConfigSignatures.ChangeIsSigned | common/configtx/update.go:90-99 | a changed element's previous policy is found and backed: through any nesting of implicit meta policies threshold many sub-policies are met, each signature policy by distinct validly signing identities assigned one to one to leaves |
| SignedUpdates.SatisfiedMeansConfig | common/configtx/update.go:161-190 | with managers built from the configuration, the signature set satisfies an element's mod policy, relative or absolute, exactly when the group it refers to is in the tree and the policy defined there holds of the identities that signed validly |
| ManagerBuilding.NewManagerImpl | common/policies/policy.go:184-245 | returns a manager tree exactly when every policy of the tree is present and compiles and no implicit meta policy asks a sub-manager for its own path; fails only for the former reason, panics only for the latter or for a provider of implicit meta policies |
| ManagerBuilding.BuildSubManagers | common/policies/policy.go:191-198 | the loop over the sub-groups builds all of them or ends as one of them does |
| ManagerBuilding.CompilePolicies | common/policies/policy.go:200-232 | the loop over a group's own policies compiles all of them, or fails or panics for one that does |
| ManagerBuilding.NewSignaturePolicyExact | common/cauthdsl/policy.go:32-53 | a signature policy exists exactly for a readable envelope of version 0 whose elements are known and whose indices are in range |
| ManagerBuilding.BuiltIsWellFormed | common/policies/policy.go:184-245 | every policy of a built manager tree can be evaluated |
| ManagerBuilding.BuiltMetaMeansRule | common/policies/implicitmeta.go:29-144 | an implicit meta policy of a built manager is found under its name and is satisfied exactly when any, all or more than half of the sub-managers find the named policy and it is satisfied |
| ManagerBuilding.BuiltMeansConfig | common/policies/policy.go:184-245 | through any depth of implicit meta policies, a built manager has a policy exactly when the group defines it, and satisfied exactly when its definition in the configuration holds: the rule over the sub-groups, or what the provider makes of it |
| ManagerBuilding.SignatureHoldsIn | common/cauthdsl/policy.go:32-53 | a signature policy of the configuration holds exactly when its envelope is readable, of version 0 and in range, and the rule that stands for it accepts the signers |
| PolicyManager.LiftPolicies | common/policies/policy.go:234-238 | the nested loops add every policy of every sub-manager under the group's name, which wins over an equal name of the group's own |
| PolicyManager.FlatMapAgreesWithTree | common/policies/policy.go:257-273 | for slash-free group names, looking up `g1/../gk/p` is walking down g1..gk and looking up `p`, found or not |
| PolicyManager.AbsoluteIdAgrees | common/policies/policy.go:329-358 | an absolute id resolves to the same policy from every manager on its path, and to none when the rest of the path does not exist |
| PolicyManager.GetPolicyExactly | common/policies/policy.go:329-358 | a policy is found exactly when the id is its relative name, or a slash, the manager's path, one character and the name; an absolute id outside the manager's path finds nothing |
| PolicyManager.PanicsExactlyOnOwnPath | common/policies/policy.go:337-343 | an absolute lookup slices out of range exactly for the manager's own path |
| PolicyManager.SeparatorIsNotChecked | common/policies/policy.go:337-343 | the character after the manager's path is skipped whatever it is |
| SignaturePolicy.CompilePolicy | common/cauthdsl/cauthdsl.go:24-92 | fails exactly on an unknown element or an index out of range, otherwise gives a rule of the policy's shape with the named principals |
| SignaturePolicy.CompileExact | common/cauthdsl/cauthdsl.go:24-92 | the compiled rule is the only one that stands for the policy |
| SignaturePolicy.Evaluate | common/cauthdsl/cauthdsl.go:40-88 | the closures working in place on the used array and its copies compute the verdict and the array of the evaluation function |
| SignaturePolicy.EvaluateIdentities | common/cauthdsl/policy.go:96-108 | evaluation starts from an array with nobody used |
| SignaturePolicy.EvalSound | common/cauthdsl/cauthdsl.go:40-88 | an accepted rule is met by a subtree whose leaves have distinct, previously unused, satisfying identities, and the array afterwards marks exactly those in addition |
| SignaturePolicy.AcceptSound | common/cauthdsl/policy.go:96-108 | acceptance of identities means an injective assignment to the leaves of a satisfying subtree |
| GreedyMonotone.SteadyIsMonotone | common/cauthdsl/cauthdsl.go:40-88 | for a steady rule, adding identities anywhere never turns accept into reject |
| GreedyMonotone.FreshIsEasier | common/cauthdsl/cauthdsl.go:40-88 | a steady rule accepted on a partly used array is accepted on a fresh one |
| GreedyMonotone.LightRulesDebt | common/cauthdsl/cauthdsl.go:40-60 | with identities added, the gates that ask for at most two leaves meet at least as many more rules as there are identities that only the larger run has used |
| GreedyMonotone.FlatDebt | common/cauthdsl/cauthdsl.go:40-60 | a gate over leaves gives up that balance only when it is met in the larger run alone |
| GreedyMatching.GreedyIsMaximum | common/cauthdsl/cauthdsl.go:40-60 | when each principal is contained in the later ones it overlaps, the greedy count is at least the size of every assignment |
| GreedyMatching.GreedyIsMatching | common/cauthdsl/cauthdsl.go:40-88 | the greedy count is the size of an assignment of distinct signers to leaves |
| GreedyMatching.OneLevelComplete | common/cauthdsl/cauthdsl.go:40-88 | under that condition a one-level gate accepts exactly when n distinct signers can be assigned to n leaves |
| GreedyMatching.MaximumExactly | common/cauthdsl/cauthdsl.go:40-88 | the greedy count is the size of a largest assignment for every list of identities exactly when each principal is contained in every later one that it overlaps |
| GreedyMonotone.NestedGatesAreNotMonotone | common/cauthdsl/cauthdsl.go:40-60 | a nested gate accepts q and s but rejects p, q and s |
| MonotoneExactly.TwoLevelMonotoneExactly | common/cauthdsl/cauthdsl.go:40-60 | t out of leaves and one-level gates, no principal twice and no gate asking for none or for more than it has, is monotone for every membership service exactly when t is at most one or asks for all, or only the last two rules ask for three principals or more |
| AbsentSigners.UsedIsAbsent | common/cauthdsl/cauthdsl.go:40-88 | evaluating a rule on a partly used array is evaluating it for the identities that are free |
| AbsentSigners.MonotoneMeansFreshNeverHurts | common/cauthdsl/cauthdsl.go:40-88 | adding signers never hurts a rule exactly when every partly used array that it accepts on can be replaced by a fresh one |
| GreedyMatching.GreedyMissesAnAssignment | common/cauthdsl/cauthdsl.go:66-88 | with partially overlapping principals a gate rejects although an assignment exists |
| Policies.SignatureSetToValidIdentities | common/policies/policy.go:360-395 | the loop with its map of seen keys returns each key at its first valid signature |
| Policies.ValidIdentitiesExact | common/policies/policy.go:360-395 | every identity returned signed validly, no key comes twice, every key that signed validly is returned |
| Policies.FixedLengthIdsLoseNobody | common/policies/policy.go:374-381 | with ids of one length every validly signing identity is returned itself |
| Policies.EvaluatePolicy | common/policies/implicitmeta.go:105-144 | the countdown over the sub-policies accepts exactly when it ends at zero, each sub-policy evaluated on its own |
| Policies.SignedMeansIdentities | common/policies/implicitmeta.go:68-103 | evaluating signed data is evaluating the validly signing identities, through any nesting |
| Policies.SignedDataSound | common/cauthdsl/policy.go:83-94 | accepted signed data contains valid signatures of pairwise distinct identities assigned one to one to the leaves of a satisfying subtree |
| Policies.EvaluatedIsBacked | common/policies/implicitmeta.go:105-144 | a satisfied policy of any nesting has threshold many sub-policies met, each signature policy by its own injective assignment |
| Policies.ThresholdMeansRule | common/policies/implicitmeta.go:44-58 | the thresholds make ANY, ALL and MAJORITY mean some, all and more than half, an unnamed rule mean none, and all hold without sub-policies |
| Policies.CountdownIsThreshold | common/policies/implicitmeta.go:107-143 | the countdown is a threshold test exactly when the threshold is positive, or zero without sub-policies |
| Policies.NewImplicitMetaPolicy | common/policies/implicitmeta.go:29-66 | for each manager, in any order, the policy that it finds under the name or one that rejects, with the rule's threshold; it panics exactly when a lookup does |
| Policies.ImplicitMetaMeansRule | common/policies/implicitmeta.go:29-144 | an implicit meta policy is satisfied when some, all or more than half of the managers find a satisfied policy under the name, or none for an unnamed rule, independent of the order |
| PolicyConvert.PrincipalKeyInjective | common/policies/convert.go:65-68 | the string built from class name and bytes determines the principal |
| PolicyConvert.RemapKeepsMeaning | common/policies/convert.go:16-56 | a policy that compiles can be remapped without panic and then compiles to the same rule against the merged principals |
| PolicyConvert.LongerListKeepsMeaning | common/policies/convert.go:70-88 | earlier rules keep their principals when the list grows |
| PolicyConvert.MergeIdentities | common/policies/convert.go:62-86 | the merged list extends the old one, stays distinct, holds nothing else, and the remapping points each index at the same principal |
| PolicyConvert.Converted.Merge | common/policies/convert.go:58-94 | adds one rule with the meaning of the merged policy and keeps the meaning of all earlier ones |
| PolicyConvert.Convert | common/policies/convert.go:96-129 | fails exactly on a policy that is not convertible, otherwise compiles to the gate over what the sub-policies stand for, with distinct principals; a signature policy gives its own envelope |
| ConversionLaxer.ConvertedIsNoLaxer | common/policies/convert.go:96-129 | when adding signers hurts none of the signature policies but perhaps the one evaluated first, acceptance by the conversion implies acceptance by the implicit meta policy, through any nesting and for every identity list |
| ConversionLaxer.NeverLaxerExactly | common/policies/convert.go:96-129 | over a leaf and any other signature policy that does not mention its principal, the conversion is never laxer exactly when adding signers never hurts that policy |
| ConversionLaxer.NeverLaxerTwoLevel | common/policies/convert.go:96-129 | for a policy of two levels with no principal twice, that is exactly when it asks for at most one rule or for all, or only its last two rules ask for three principals or more |
| ConversionMeaning.ConversionAgrees | common/policies/convert.go:96-129 | when every implicit meta policy has threshold one or no identity that could serve two of its sub-policies, the conversion accepts exactly what the original accepts, for signature policies of any kind and through any nesting |
| ConversionMeaning.AgreesExactly | common/policies/convert.go:96-129 | for sub-policies that one signer can meet, the conversion agrees with the original for every identity list exactly when the threshold is one, or exceeds the number of sub-policies that can be met, or no identity could serve two of them |
| ConversionMeaning.LooksOnlyAtRelevant | common/cauthdsl/cauthdsl.go:40-88 | evaluating a rule depends only on the identities that satisfy one of its leaves |
| ConversionMeaning.ConvertedCanBeStricter | common/policies/convert.go:96-129 | one signer who counts twice in the original counts once in the conversion |
| ConversionLaxer.ConvertedCanBeLaxer | common/policies/convert.go:96-129 | over a nested gate the conversion accepts what the original rejects |
| Choose.ChooseInto | common/graph/choose.go:50-65 | the recursion appends the chosen groups to the shared accumulator |
| Choose.ChooseKoutOfN | common/graph/choose.go:40-48 | starts from the empty choice |
| Choose.ChooseExact | common/graph/choose.go:40-65 | every increasing k-sequence over 0..n-1 exactly once, in lexicographic order, C(n,k) of them |
| Choose.Prune | common/graph/perm.go:114-119 | whatever the victims, leaves a subsequence of the first length with few enough combinations; panics exactly for threshold zero and a bound below one |
| Choose.PruningKeepsThreshold | common/graph/perm.go:114-119 | with a bound of at least one it ends within the bound and never goes below the threshold |
| Choose.PruningStopsInTime | common/graph/perm.go:114-119 | nothing is pruned exactly when there are fewer descendants than the threshold or C(n,k) is within the bound; otherwise one more descendant would exceed it, so the length is the longest that will do |
| Choose.SmallBoundLosesThreshold | common/graph/choose.go:29-38 | with a bound below one it ends one below a positive threshold |
| TreeShapes.ExpandStep | common/graph/perm.go:57-89 | expanding at the next vertex turns the list of partial permutations into the list for one more vertex, each once |
| TreeShapes.QueueStep | common/graph/tree.go:133-144 | the queue always holds the topmost unvisited vertices, each once |
| TreeShapes.PermutationsExact | common/graph/perm.go:41-97 | for unique ids the result is exactly the trees in which every inner vertex reached keeps threshold many descendants, each once |
| TreeVertices.FindVertex | common/graph/tree.go:53-65 | returns the first vertex with the id in depth-first order, or nothing when there is none |
| TreeVertices.ExistsVertex | common/graph/tree.go:67-71 | tells whether the id occurs |
| TreeVertices.Clone | common/graph/tree.go:73-85 | a tree of the same shape made of new vertices only |
| TreeVertices.ReplaceInPlace | common/graph/tree.go:87-97 | gives the vertices with the id the new descendants and changes no other vertex |
| TreePermutations.SelectDescendants | common/graph/perm.go:129-138 | the descendants at the given positions |
| TreePermutations.VisitVertex | common/graph/perm.go:109-125 | prunes one vertex as far as needed and lists its choices |
| TreePermutations.ComputeDescendantPermutations | common/graph/perm.go:99-127 | prunes every vertex in place, changes nothing else, lists the choices of the pruned tree, and panics exactly when the bound is below one and an inner vertex has threshold zero |
| TreePermutations.PrunesNothingExactly | common/graph/perm.go:99-127 | the tree is left whole exactly when every inner vertex has fewer descendants than its threshold or few enough choices |
| TreePermutations.Permute | common/graph/perm.go:43-97 | over vertex objects, returns trees of exactly the enumerated shapes without changing any vertex that existed before |
| TreePermutations.PermuteTree | common/graph/tree.go:104-113 | prunes the original in place, and not at all exactly when every vertex has few enough choices; otherwise leaves it alone; returns each threshold subtree of the pruned tree once and none else |
| AccessCache.RatioBelowOneEvicts | discovery/authcache.go:153-155 | a retention ratio in [0, 1) evicts at least one entry |
| AccessCache.PurgeRetainsRatio | discovery/authcache.go:153-155 | purging a cache of exactly the maximum leaves the whole part of ratio times maximum |
| AccessCache.AccessCache.Purge | discovery/authcache.go:145-164 | evicts the computed number of entries, all of them when that number is negative or too large, and keeps the others |
| AccessCache.AccessCache.EligibleForService | discovery/authcache.go:100-186 | a call by itself answers from an entry of the same sequence and changes nothing, or else answers with the computed verdict, drops older entries, purges exactly a full cache and stores the verdict exactly when the sequence has not moved; it keeps every entry equal to the eligibility under the last sequence, and a cache within the maximum when purges evict something |
| AuthCacheProtocol.StepKeepsInv | discovery/authcache.go:63-186 | every step of every call and every sequence move keeps the entries of every cache no older than its last reset and every pending verdict justified |
| AuthCacheProtocol.VerdictsAreCurrent | discovery/authcache.go:63-137 | in every interleaving, racing creations of the channel's cache included, every verdict returned is the eligibility under a sequence current between the call's start and its return |
| AuthCacheWindows.VerdictsWithinCalls | discovery/authcache.go:63-137 | told by the states of the run alone: whatever has been returned was returned by some call, and is the eligibility under the sequence current in one of the states in which that call was in progress |
| AuthCacheAlone.AloneServes | discovery/authcache.go:100-186 | in the transition system, a call that meets no other call on its cache, however the sequence moves, returns and leaves the cache as `AccessCache.EligibleForService` does with sequences that were current in that order |
| AuthCacheProtocol.LastSequenceCanGoBack | discovery/authcache.go:172-178 | a run of two calls in which the slower one sets the last sequence back |
| AuthCacheProtocol.NeverGoesBackExactly | discovery/authcache.go:100-178 | no step of any run lowers the last sequence of a cache exactly when caching is off or there is never more than one call at once |
| AuthCacheSize.CacheSizeIsBounded | discovery/authcache.go:116-164 | with at most T calls at once and purges that evict something, no cache ever holds more than the maximum plus T - 1 entries |
| AuthCacheSize.CacheGrows | discovery/authcache.go:145-164 | when the number to evict is zero, calls one after the other fill a cache with any number of entries |
| AuthCacheSize.BoundedExactly | discovery/authcache.go:63-164 | the bound holds over all runs exactly when caching is off or the number to evict is not zero |
| LogLevels.LevelStringReadsBack | common/flogging/levels.go:36-63 | printed level names are read back, PAYLOAD excepted |
| SpecMeaning.LevelNames | common/flogging/levels.go:36-63 | a level has exactly its small names and their capitals, `warning` with `warn`, `notice` with `info` and `critical` with `error`; nothing else is a level |
| SpecMeaning.KeyShape | common/flogging/loggerlevels.go:66-108 | a key is a name of letters, digits and `_#:-` with single dots inside, or one with a dot after it |
| SpecMeaning.ParseMeans | common/flogging/loggerlevels.go:43-82 | a text is accepted exactly when it is colon-separated fields, each a bare level, empty, or valid names with an equals sign and a level; every key has the level of the last field that names it, nothing else is a key, and the default is the last bare level, INFO for an empty or missing one |
| SpecMeaning.NamesShareLevel | common/flogging/loggerlevels.go:62-73 | one field of names and a level gives every name that level and nothing else |
| LogLevels.PrintReadsBack | common/flogging/loggerlevels.go:152-166 | the printed specification, fields in any order, reads back to the same specification exactly when no level is PAYLOAD |
| LoggerLevels.ParseSpec | common/flogging/loggerlevels.go:43-82 | the loops over fields and loggers compute what `SpecMeaning.ParseMeans` says, and only printable names get in |
| LoggerLevels.Minimum | common/flogging/loggerlevels.go:84-89 | the smallest of the default and all levels of the specification |
| LoggerLevels.CalculateLevel | common/flogging/loggerlevels.go:126-141 | the level of the longest key that applies: the dotted exact form, the name, its dotted prefixes, else the default |
| LoggerLevels.LevelIsUnique | common/flogging/loggerlevels.go:126-141 | there is one such level for each logger |
| LoggerLevels.AppliesExactly | common/flogging/loggerlevels.go:126-141 | a key applies to the logger of that name and to those below it, with a dot after it to that logger only |
| LoggerLevels.LevelWalksUp | common/flogging/loggerlevels.go:126-141 | the dotted key decides, then the name itself, then the level of the group the logger is in, at the top the default |
| LoggerLevels.LoggerLevels.ActivateSpec | common/flogging/loggerlevels.go:38-97 | takes effect as a whole or not at all, accepts exactly what `SpecMeaning.ParseMeans` says, and keeps cache, filter and keys consistent |
| LoggerLevels.LoggerLevels.CachedLevel | common/flogging/loggerlevels.go:143-150 | a cached level is the level of the logger under the current specification |
| LoggerLevels.LoggerLevels.EffectiveLevel | common/flogging/loggerlevels.go:110-124 | without interference, the level of the logger whether or not it was cached; exactly before the first activation a panic, which leaves the mutex locked |
| LevelRuns.LevelsAreCurrent | common/flogging/loggerlevels.go:110-150 | in every interleaving of lookups and activations, every level returned is that of the logger under some specification active between the call's start and its return |
| LevelWindows.LevelsWithinCalls | common/flogging/loggerlevels.go:110-150 | told by the states of the run alone: whatever has been returned was returned by some lookup, and is the level under the specification active in one of the states in which that lookup was in progress |
| LevelRuns.PanicIsFinal | common/flogging/loggerlevels.go:113-124 | a panic happens only before the first activation, and then nothing is ever activated and no call ever returns |
| LoggerLevels.LoggerLevels.Enabled | common/flogging/loggerlevels.go:168-175 | the fast check never rejects a record that the level of some logger would accept |
| LoggerLevels.LoggerLevels.Spec | common/flogging/loggerlevels.go:152-166 | prints every entry once sorted and the default; re-activating the text restores the specification exactly when no level is PAYLOAD |
| LoggerLevels.OrderedByFirstDifference | common/flogging/loggerlevels.go:152-166 | the order in which the fields are printed is decided by the first differing character, a prefix first |

## Left out

- Protobuf, ASN.1 and certificate encodings: messages are datatypes, so nil sub-messages inside a tree are not modelled; only policy messages have an unmarshalling step that can fail.
- Error texts: a failure is an outcome; which of several illegal elements is reported first depends on map order and is not modelled.
- More than one channel (discovery/authcache.go:48-83): the protocol follows one entry of the credential cache; channels share nothing but that map.
- A request whose key cannot be computed (discovery/authcache.go:101-105): it returns an error without touching the cache.
- Conversions of thresholds and indices to `int32`: integers are unbounded in the policy modules.
- A negative `Threshold` of a tree vertex, for which `choose` does not terminate: thresholds are natural numbers.
- Sharing of backing arrays between slices: pruning assigns a new list of descendants to the vertex.
- GreedyMonotone.SteadyIsMonotone: being steady is sufficient; an exact condition is proved only for the policies of `MonotoneExactly.TwoLevelMonotoneExactly`.
- ConversionLaxer.ConvertedIsNoLaxer: the condition is sufficient; that it is also necessary is proved for a leaf followed by one other policy.
- ManagerBuilding.BuiltMeansConfig: the sub-policy names of implicit meta policies contain no slash; ids with slashes are covered one level at a time by `ManagerBuilding.BuiltMetaMeansRule`.
- SignedUpdates.SatisfiedMeansConfig: the same holds for the implicit meta policies of the configuration, and the mod policy is one that refers to a group and a name; other ids are covered by `ConfigUpdate.PolicyIsFoundAtOwner`.
- AccessCache.RatioBelowOneEvicts: says nothing about the rounding of a `float64` product.
- GreedyMatching.MaximumExactly: the necessary half uses lists with repetitions; for lists without, only the sufficient half is proved.
- Principal sets and inquireable policies (common/policies/inquire), and the lookups of common/policies/util.go.
- Logging, metrics, the sharded Raft code, bccsp, msp, chaincode, deliver and the command-line programs.
