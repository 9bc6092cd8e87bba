/** Orphan accounting: no step of the protocol adds to, takes from or touches the unlinked
    inodes that no live grant answers for; every other one has exactly one such grant. */
module Orphans {
  import opened Base
  import opened Storage
  import opened Tree
  import opened Authority
  import opened Safety
  import opened Runs
  import opened Ledger

  predicate OwnedOrphan(grants: map<InodeId, DirectoryGrant>, inode: InodeId) {
    exists root :: root in grants && inode in grants[root].orphans
  }

  /** The unlinked inodes no live grant answers for, which nothing would ever clean up. */
  function Unaccounted(sys: System): set<InodeId> {
    set inode | inode in sys.ns.nodes && sys.ns.nodes[inode].stats.nlink == 0
                && !OwnedOrphan(sys.st.grants, inode)
  }

  /** Both systems have the same unaccounted inodes, with the same nodes. */
  predicate SameUnaccounted(sys: System, sys': System) {
    && Unaccounted(sys') == Unaccounted(sys)
    && (forall inode | inode in Unaccounted(sys) :: sys'.ns.nodes[inode] == sys.ns.nodes[inode])
  }

  /** Where an unlinked inode of the new namespace comes from. */
  lemma NewOrphanOrigin(prior: Namespace, proposed: Namespace, grant: DirectoryGrant, inode: InodeId)
    requires Publication(prior, proposed, grant)
    requires inode in proposed.nodes && proposed.nodes[inode].stats.nlink == 0
    ensures inode in RemainingOrphans(prior, proposed, grant)
      || (inode in prior.nodes && prior.nodes[inode] == proposed.nodes[inode])
  {
    OrphanIsUnreferenced(proposed, inode);
    assert inode !in Subtree(proposed, grant.token.root);
  }

  /** An unaccounted inode is outside the publisher's authority, so it survives as it is. */
  lemma PublishKeepsLeak(
      prior: Namespace, proposed: Namespace, grants: map<InodeId, DirectoryGrant>, root: InodeId, inode: InodeId)
    requires root in grants && Publication(prior, proposed, grants[root])
    requires inode in prior.nodes && prior.nodes[inode].stats.nlink == 0 && !OwnedOrphan(grants, inode)
    ensures inode in proposed.nodes && proposed.nodes[inode] == prior.nodes[inode]
    ensures !OwnedOrphan(
        grants[root := grants[root].(orphans := RemainingOrphans(prior, proposed, grants[root]))], inode)
  {
    OrphanIsUnreferenced(prior, inode);
    assert inode !in grants[root].orphans;
    OutsideAuthorityUntouched(prior, proposed, grants[root], inode);
  }

  /** An inode unaccounted for afterwards was so before. */
  lemma PublishAddsNoLeak(
      prior: Namespace, proposed: Namespace, grants: map<InodeId, DirectoryGrant>, root: InodeId, inode: InodeId)
    requires root in grants && Publication(prior, proposed, grants[root])
    requires inode in proposed.nodes && proposed.nodes[inode].stats.nlink == 0
    requires !OwnedOrphan(
        grants[root := grants[root].(orphans := RemainingOrphans(prior, proposed, grants[root]))], inode)
    ensures inode in prior.nodes && prior.nodes[inode] == proposed.nodes[inode] && !OwnedOrphan(grants, inode)
  {
    hide Publication;
    var grants' := grants[root := grants[root].(orphans := RemainingOrphans(prior, proposed, grants[root]))];
    assert root in grants' && inode !in grants'[root].orphans;
    NewOrphanOrigin(prior, proposed, grants[root], inode);
    forall r | r in grants ensures inode !in grants[r].orphans {
      assert r in grants' && inode !in grants'[r].orphans;
    }
  }

  lemma PublishKeepsUnaccounted(st: State, prior: Namespace, proposed: Namespace, token: GrantToken)
    requires PublishResult(st, prior, proposed, token).Ok?
    ensures SameUnaccounted(System(st, prior), System(PublishResult(st, prior, proposed, token).value, proposed))
  {
    hide StateValid, Valid, Claimable, DeltaAllowed, AllocationContiguous, Publication, OwnedOrphan;
    var sys, sys' := System(st, prior), System(Candidate(st, prior, proposed, token), proposed);
    ChecksGivePublication(st, prior, proposed, token);
    forall inode | inode in Unaccounted(sys)
      ensures inode in Unaccounted(sys') && proposed.nodes[inode] == prior.nodes[inode]
    {
      PublishKeepsLeak(prior, proposed, st.grants, token.root, inode);
    }
    forall inode | inode in Unaccounted(sys') ensures inode in Unaccounted(sys) {
      PublishAddsNoLeak(prior, proposed, st.grants, token.root, inode);
    }
  }

  lemma IssueKeepsOrphans(st: State, grant: DirectoryGrant)
    requires st.nextFence < U64_MAX && grant.token.root !in st.grants && grant.orphans == {}
    ensures forall inode :: OwnedOrphan(Issue(st, grant).grants, inode) <==> OwnedOrphan(st.grants, inode)
  {
    var st' := Issue(st, grant);
    forall inode | OwnedOrphan(st.grants, inode) ensures OwnedOrphan(st'.grants, inode) {
      var r :| r in st.grants && inode in st.grants[r].orphans;
      assert r in st'.grants && inode in st'.grants[r].orphans;
    }
    forall inode | OwnedOrphan(st'.grants, inode) ensures OwnedOrphan(st.grants, inode) {
      var r :| r in st'.grants && inode in st'.grants[r].orphans;
      assert r in st.grants && inode in st.grants[r].orphans;
    }
  }

  lemma CheckoutKeepsUnaccounted(st: State, ns: Namespace, root: InodeId, owner: string)
    requires CheckoutResult(st, ns, root, owner).Ok?
    ensures SameUnaccounted(System(st, ns), System(CheckoutResult(st, ns, root, owner).value.0, ns))
  {
    if root !in st.grants {
      IssueKeepsOrphans(st, FreshGrant(st, root, owner));
    }
  }

  /** Retiring a grant and pruning its orphans removes the same inodes from both sides. */
  lemma RetireKeepsUnaccounted(st: State, ns: Namespace, root: InodeId)
    requires GrantsDisjoint(ns, st.grants) && root in st.grants && st.grants[root].token.root == root
    ensures SameUnaccounted(
        System(st, ns), System(Retire(st, st.grants[root].token), WithoutNodes(ns, st.grants[root].orphans)))
  {
    var st', ns' := Retire(st, st.grants[root].token), WithoutNodes(ns, st.grants[root].orphans);
    forall inode | inode in ns'.nodes
      ensures OwnedOrphan(st'.grants, inode) <==> OwnedOrphan(st.grants, inode)
    {
      if OwnedOrphan(st.grants, inode) {
        var r :| r in st.grants && inode in st.grants[r].orphans;
        assert r in st'.grants && inode in st'.grants[r].orphans;
      }
      if OwnedOrphan(st'.grants, inode) {
        var r :| r in st'.grants && inode in st'.grants[r].orphans;
        assert r in st.grants && inode in st.grants[r].orphans;
      }
    }
    forall inode | inode in Unaccounted(System(st, ns)) ensures inode in ns'.nodes {
      assert inode in st.grants[root].orphans ==> OwnedOrphan(st.grants, inode);
    }
  }

  lemma CheckinKeepsUnaccounted(st: State, token: GrantToken, ns: Namespace)
    requires CheckinResult(st, token, ns).Ok?
    ensures SameUnaccounted(System(st, ns), System(CheckinResult(st, token, ns).value, ns))
  {
    hide Valid, ReceiptsValid;
    if token !in st.retired {
      RetireKeepsUnaccounted(st, ns, token.root);
      assert WithoutNodes(ns, {}) == ns;
    }
  }

  lemma RecoverKeepsUnaccounted(st: State, root: InodeId, fence: u64, ns: Namespace)
    requires RecoverResult(st, root, fence, ns).Ok?
    ensures SameUnaccounted(
        System(st, ns), System(RecoverResult(st, root, fence, ns).value.0, RecoverResult(st, root, fence, ns).value.1))
  {
    if !FenceRetired(st, root, fence) {
      assert GrantsFiled(st);
      RetireKeepsUnaccounted(st, ns, root);
    }
  }

  lemma StepKeepsUnaccounted(sys: System, step: Step)
    ensures SameUnaccounted(sys, Apply(sys, step))
  {
    hide StateValid, CheckoutAllowed, PublishChecks;
    match step
    case Checkout(root, owner) =>
      if CheckoutResult(sys.st, sys.ns, root, owner).Ok? {
        CheckoutKeepsUnaccounted(sys.st, sys.ns, root, owner);
      }
    case Publish(proposed, token) =>
      if PublishResult(sys.st, sys.ns, proposed, token).Ok? {
        PublishKeepsUnaccounted(sys.st, sys.ns, proposed, token);
      }
    case Checkin(token) =>
      if CheckinResult(sys.st, token, sys.ns).Ok? { CheckinKeepsUnaccounted(sys.st, token, sys.ns); }
    case Recover(root, fence) =>
      if RecoverResult(sys.st, root, fence, sys.ns).Ok? {
        RecoverKeepsUnaccounted(sys.st, root, fence, sys.ns);
      }
  }

  /** From any system, every run ends with the same unaccounted inodes, untouched: those that
      were there stay for ever and nothing is ever added to them. */
  lemma {:induction false} UnaccountedOverRuns(sys: System, steps: seq<Step>)
    ensures SameUnaccounted(sys, Run(sys, steps))
    decreases |steps|
  {
    if steps != [] {
      StepKeepsUnaccounted(sys, steps[0]);
      UnaccountedOverRuns(Apply(sys, steps[0]), steps[1..]);
    }
  }

  /** In a valid system the orphans of live grants are unlinked, and no two grants share one. */
  lemma OwnedOrphansExact(sys: System, inode: InodeId)
    requires SystemValid(sys)
    ensures OwnedOrphan(sys.st.grants, inode) <==>
      inode in sys.ns.nodes && sys.ns.nodes[inode].stats.nlink == 0 && inode !in Unaccounted(sys)
    ensures forall a, b | a in sys.st.grants && b in sys.st.grants
      && inode in sys.st.grants[a].orphans && inode in sys.st.grants[b].orphans :: a == b
  {
    hide Valid, Sealed, ReceiptsValid;
    if OwnedOrphan(sys.st.grants, inode) {
      var root :| root in sys.st.grants && inode in sys.st.grants[root].orphans;
      assert GrantValid(sys.ns, root, sys.st.grants[root]);
    }
    forall a, b | a in sys.st.grants && b in sys.st.grants
        && inode in sys.st.grants[a].orphans && inode in sys.st.grants[b].orphans
      ensures a == b
    {
      assert a == b || Owned(sys.ns, sys.st.grants[a]) !! Owned(sys.ns, sys.st.grants[b]);
    }
  }

  /** Started with no grants and nothing unlinked, every reachable state accounts for each
      unlinked inode in one and only one live grant: none leaks and none is shared. */
  lemma OrphansAccountedFor(backing: BackingId, ns: Namespace, steps: seq<Step>, inode: InodeId)
    requires Valid(ns) && BackingValid(backing)
    requires forall i | i in ns.nodes :: ns.nodes[i].stats.nlink != 0
    ensures
      var later := Run(System(Initial(backing), ns), steps);
      && (OwnedOrphan(later.st.grants, inode) <==>
          inode in later.ns.nodes && later.ns.nodes[inode].stats.nlink == 0)
      && (forall a, b | a in later.st.grants && b in later.st.grants
            && inode in later.st.grants[a].orphans && inode in later.st.grants[b].orphans :: a == b)
  {
    hide Valid, ReceiptsValid;
    var start := System(Initial(backing), ns);
    InitialValid(backing, ns);
    RunPreserves(start, steps);
    UnaccountedOverRuns(start, steps);
    assert Unaccounted(start) == {};
    OwnedOrphansExact(Run(start, steps), inode);
  }
}
