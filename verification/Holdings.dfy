/** Exclusive ownership over runs: what a live grant holds, only its holder can change. */
module Holdings {
  import opened Base
  import opened Storage
  import opened Authority
  import opened Safety
  import opened Steps
  import opened Runs

  /** A step that neither uses nor ends the given token. */
  predicate Foreign(step: Step, token: GrantToken) {
    match step
    case Checkout(_, _) => true
    case Publish(_, t) => t != token
    case Checkin(t) => t != token
    case Recover(root, fence) => root != token.root || fence != token.fence
  }

  /** The grant is still live with the same orphans, covers the same subtree, and every
      inode it holds is bit-for-bit the same. */
  ghost predicate Undisturbed(sys: System, sys': System, token: GrantToken) {
    && TokenLive(sys.st, token) && TokenLive(sys'.st, token)
    && sys'.st.grants[token.root] == sys.st.grants[token.root]
    && Subtree(sys'.ns, token.root) == Subtree(sys.ns, token.root)
    && (forall inode | inode in Owned(sys.ns, sys.st.grants[token.root]) ::
          && inode in sys.ns.nodes && inode in sys'.ns.nodes
          && sys'.ns.nodes[inode] == sys.ns.nodes[inode])
  }

  lemma OwnedExists(ns: Namespace, grant: DirectoryGrant)
    requires GrantValid(ns, grant.token.root, grant)
    ensures Owned(ns, grant) <= ns.nodes.Keys
  {
  }

  /** Steps that leave the namespace alone disturb a grant only by replacing it. */
  lemma SameNamespaceUndisturbed(st: State, st': State, ns: Namespace, token: GrantToken)
    requires TokenLive(st, token) && GrantsValid(ns, st.grants)
    requires token.root in st'.grants && st'.grants[token.root] == st.grants[token.root]
    ensures Undisturbed(System(st, ns), System(st', ns), token)
  {
    assert GrantValid(ns, token.root, st.grants[token.root]);
    OwnedExists(ns, st.grants[token.root]);
  }

  lemma RetireKeepsOthers(st: State, t: GrantToken, root: InodeId)
    requires root in st.grants && root != t.root
    ensures root in Retire(st, t).grants && Retire(st, t).grants[root] == st.grants[root]
  {
  }

  lemma CandidateUndisturbed(st: State, prior: Namespace, proposed: Namespace, t: GrantToken, token: GrantToken)
    requires TokenLive(st, t) && TokenLive(st, token) && t.root != token.root
    requires Publication(prior, proposed, st.grants[t.root])
    requires GrantsValid(prior, st.grants) && GrantsDisjoint(prior, st.grants)
    ensures Undisturbed(System(st, prior), System(Candidate(st, prior, proposed, t), proposed), token)
  {
    assert GrantValid(prior, token.root, st.grants[token.root]);
    assert Owned(prior, st.grants[t.root]) !! Owned(prior, st.grants[token.root]);
    OtherGrantUntouched(prior, proposed, st.grants[t.root], st.grants[token.root]);
  }

  lemma PublishUndisturbed(st: State, prior: Namespace, proposed: Namespace, t: GrantToken, token: GrantToken)
    requires PublishResult(st, prior, proposed, t).Ok? && TokenLive(st, token) && t != token
    ensures Undisturbed(System(st, prior), System(PublishResult(st, prior, proposed, t).value, proposed), token)
  {
    ChecksGivePublication(st, prior, proposed, t);
    CandidateUndisturbed(st, prior, proposed, t, token);
  }

  lemma PruneUndisturbed(st: State, ns: Namespace, root: InodeId, token: GrantToken)
    requires Valid(ns) && GrantsValid(ns, st.grants) && GrantsDisjoint(ns, st.grants)
    requires TokenLive(st, token) && root in st.grants && root != token.root
    ensures Undisturbed(
        System(st, ns),
        System(Retire(st, st.grants[root].token), WithoutNodes(ns, st.grants[root].orphans)), token)
  {
    var grant, orphans := st.grants[token.root], st.grants[root].orphans;
    assert GrantValid(ns, token.root, grant) && GrantValid(ns, root, st.grants[root]);
    assert Owned(ns, st.grants[root]) !! Owned(ns, grant);
    PruneUntouched(ns, orphans, grant);
    RetireKeepsOthers(st, st.grants[root].token, token.root);
  }

  lemma PruneUntouched(ns: Namespace, orphans: set<InodeId>, grant: DirectoryGrant)
    requires Valid(ns) && forall inode | inode in orphans :: IsOrphan(ns, inode)
    requires GrantValid(ns, grant.token.root, grant) && orphans !! Owned(ns, grant)
    ensures Subtree(WithoutNodes(ns, orphans), grant.token.root) == Subtree(ns, grant.token.root)
    ensures forall inode | inode in Owned(ns, grant) ::
      && inode in ns.nodes && inode in WithoutNodes(ns, orphans).nodes
      && WithoutNodes(ns, orphans).nodes[inode] == ns.nodes[inode]
  {
    OwnedExists(ns, grant);
    PruneSubtrees(ns, orphans, grant.token.root);
  }

  lemma RecoverUndisturbed(st: State, root: InodeId, fence: u64, ns: Namespace, token: GrantToken)
    requires RecoverResult(st, root, fence, ns).Ok? && TokenLive(st, token)
    requires root != token.root || fence != token.fence
    ensures var (st', ns') := RecoverResult(st, root, fence, ns).value;
      Undisturbed(System(st, ns), System(st', ns'), token)
  {
    if FenceRetired(st, root, fence) {
      SameNamespaceUndisturbed(st, st, ns, token);
    } else {
      PruneUndisturbed(st, ns, root, token);
    }
  }

  lemma CheckoutUndisturbed(st: State, ns: Namespace, root: InodeId, owner: string, token: GrantToken)
    requires CheckoutResult(st, ns, root, owner).Ok? && TokenLive(st, token)
    ensures Undisturbed(System(st, ns), System(CheckoutResult(st, ns, root, owner).value.0, ns), token)
  {
    if root in st.grants {
      SameNamespaceUndisturbed(st, st, ns, token);
    } else {
      SameNamespaceUndisturbed(st, Issue(st, FreshGrant(st, root, owner)), ns, token);
    }
  }

  lemma CheckinUndisturbed(st: State, t: GrantToken, ns: Namespace, token: GrantToken)
    requires CheckinResult(st, t, ns).Ok? && TokenLive(st, token) && t != token
    ensures Undisturbed(System(st, ns), System(CheckinResult(st, t, ns).value, ns), token)
  {
    if t in st.retired {
      SameNamespaceUndisturbed(st, st, ns, token);
    } else {
      RetireKeepsOthers(st, t, token.root);
      SameNamespaceUndisturbed(st, Retire(st, t), ns, token);
    }
  }

  lemma StepUndisturbed(sys: System, step: Step, token: GrantToken)
    requires SystemValid(sys) && TokenLive(sys.st, token) && Foreign(step, token)
    ensures Undisturbed(sys, Apply(sys, step), token)
  {
    match step
    case Checkout(root, owner) =>
      if CheckoutResult(sys.st, sys.ns, root, owner).Ok? {
        CheckoutUndisturbed(sys.st, sys.ns, root, owner, token);
      } else { SameUndisturbed(sys, token); }
    case Publish(proposed, t) =>
      if PublishResult(sys.st, sys.ns, proposed, t).Ok? {
        PublishUndisturbed(sys.st, sys.ns, proposed, t, token);
      } else { SameUndisturbed(sys, token); }
    case Checkin(t) =>
      if CheckinResult(sys.st, t, sys.ns).Ok? {
        CheckinUndisturbed(sys.st, t, sys.ns, token);
      } else { SameUndisturbed(sys, token); }
    case Recover(root, fence) =>
      if RecoverResult(sys.st, root, fence, sys.ns).Ok? {
        RecoverUndisturbed(sys.st, root, fence, sys.ns, token);
      } else { SameUndisturbed(sys, token); }
  }

  lemma SameUndisturbed(sys: System, token: GrantToken)
    requires SystemValid(sys) && TokenLive(sys.st, token)
    ensures Undisturbed(sys, sys, token)
  {
    SameNamespaceUndisturbed(sys.st, sys.st, sys.ns, token);
  }

  lemma UndisturbedTransitive(a: System, b: System, c: System, token: GrantToken)
    requires Undisturbed(a, b, token) && Undisturbed(b, c, token)
    ensures Undisturbed(a, c, token)
  {
    assert Owned(b.ns, b.st.grants[token.root]) == Owned(a.ns, a.st.grants[token.root]);
  }

  /** Through any run in which its token is neither used nor ended, a live grant keeps its
      subtree, its orphans and every node in them, whatever the other sessions do. */
  lemma {:induction false} HoldingsUndisturbed(sys: System, steps: seq<Step>, token: GrantToken)
    requires SystemValid(sys) && TokenLive(sys.st, token)
    requires forall step | step in steps :: Foreign(step, token)
    ensures Undisturbed(sys, Run(sys, steps), token)
    decreases |steps|
  {
    if steps == [] {
      SameUndisturbed(sys, token);
    } else {
      var next := Apply(sys, steps[0]);
      StepPreserves(sys, steps[0]);
      StepUndisturbed(sys, steps[0], token);
      HoldingsUndisturbed(next, steps[1..], token);
      UndisturbedTransitive(sys, next, Run(next, steps[1..]), token);
    }
  }
}
