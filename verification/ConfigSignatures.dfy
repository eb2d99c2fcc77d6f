/** From a changed configuration element down to the signatures that allowed it. */
module ConfigSignatures {
  import Tree = ConfigTree
  import Flat = ConfigMap
  import Managers = PolicyManager
  import Updates = ConfigUpdate
  import Authority = ConfigAuthority
  import P = Policies

  /** A policy is satisfied by the signature set of an update. */
  function SatisfiedBy(msp: P.Msp, sds: seq<P.SignedData>): P.Policy -> bool {
    (p: P.Policy) => P.WellFormed(p) && P.EvaluatedSigned(p, msp, sds)
  }

  /** The element is in both trees and changes by more than the back-fill. */
  ghost predicate Changes(vi: Updates.Validator<P.Policy>, msp: P.Msp, sds: seq<P.SignedData>, u: Updates.Update,
                          kind: Tree.Kind, full: seq<string>)
    requires Updates.Valid(vi) && Updates.Accepted(vi, SatisfiedBy(msp, sds), u)
  {
    var before, after := Authority.OldAt(vi, kind, full), Authority.NewAt(vi, SatisfiedBy(msp, sds), u, kind, full);
    && before.Some? && after.Some?
    && after.value.Shell() != Flat.FillShell(Authority.BackFills(vi, u), before.value.Shell())
  }

  /** A change to an element that stays was allowed by the policy it had before: that policy is found, and the
      signature set backs it. The signers are pairwise distinct identities with valid signatures in the set;
      every signature policy that counts has its own one-to-one assignment of them to the leaves of a
      satisfying subtree, through any nesting of implicit meta policies. */
  lemma ChangeIsSigned(vi: Updates.Validator<P.Policy>, msp: P.Msp, sds: seq<P.SignedData>, u: Updates.Update,
                       kind: Tree.Kind, full: seq<string>)
    returns (p: P.Policy, backing: P.Backing)
    requires Updates.Valid(vi) && Updates.Accepted(vi, SatisfiedBy(msp, sds), u)
    requires Changes(vi, msp, sds, u, kind, full)
    ensures Updates.PolicyForItem(vi.pm, Authority.OldAt(vi, kind, full).value) == Managers.Found(p)
    ensures P.WellFormed(p)
    ensures var ids := P.ValidIdentities(msp, sds);
            && P.Backs(backing, p, msp.satisfies, ids)
            && (forall i, j | 0 <= i < j < |ids| :: ids[i] != ids[j])
            && (forall i | 0 <= i < |ids| :: P.SignedBySome(msp, sds, ids[i]))
  {
    hide Updates.Valid, Updates.Accepted, Updates.NewTree, Updates.PolicyForItem, P.Backs;
    Authority.ChangedElementIsAuthorised(vi, SatisfiedBy(msp, sds), u, kind, full);
    p := Updates.PolicyForItem(vi.pm, Authority.OldAt(vi, kind, full).value).policy;
    P.SignedMeansIdentities(p, msp, sds);
    P.ValidIdentitiesExact(msp, sds);
    backing := P.EvaluatedIsBacked(p, msp.satisfies, P.ValidIdentities(msp, sds));
  }
}
