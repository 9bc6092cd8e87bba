/** Exclusive grants lose no updates: publications prepared side by side under two live grants
    can be combined, whichever of them is committed first. */
module Merge {
  import opened Base
  import opened Storage
  import opened Tree
  import opened Authority
  import opened Safety
  import opened Steps
  import opened Graft

  /** A namespace proposed by the holder of a grant. */
  datatype Proposal = Proposal(grant: DirectoryGrant, proposed: Namespace)

  /** The inodes a proposal decides: what its grant holds and what it allocates. */
  ghost function Decides(ns: Namespace, p: Proposal): set<InodeId> {
    Owned(ns, p.grant) + Allocated(ns, p.proposed)
  }

  /** The proposal that decides an inode, or the common prior namespace. */
  ghost function Decider(ns: Namespace, p: Proposal, q: Proposal, inode: InodeId): Namespace {
    if inode in Decides(ns, p) then p.proposed else if inode in Decides(ns, q) then q.proposed else ns
  }

  /** Each inode from the proposal of the grant that holds it, everything else as it was. */
  ghost function Merged(ns: Namespace, p: Proposal, q: Proposal): Namespace {
    var inodes := ns.nodes.Keys + p.proposed.nodes.Keys + q.proposed.nodes.Keys;
    ns.(
      nextInode := if p.proposed.nextInode < q.proposed.nextInode then q.proposed.nextInode else p.proposed.nextInode,
      nodes := map inode | inode in inodes && inode in Decider(ns, p, q, inode).nodes ::
        Decider(ns, p, q, inode).nodes[inode])
  }

  /** The namespace holds every inode just as the proposal has it. */
  ghost predicate Keeps(ns: Namespace, p: Proposal, m: Namespace) {
    forall inode | inode in Decides(ns, p) :: Unchanged(p.proposed, m, inode)
  }

  /** Two proposals from one valid state, under grants that hold nothing in common. */
  ghost predicate SideBySide(ns: Namespace, p: Proposal, q: Proposal) {
    && Publication(ns, p.proposed, p.grant) && Publication(ns, q.proposed, q.grant)
    && GrantValid(ns, p.grant.token.root, p.grant) && GrantValid(ns, q.grant.token.root, q.grant)
    && Owned(ns, p.grant) !! Owned(ns, q.grant)
    && AllocationContiguous(ns, p.proposed) && AllocationContiguous(ns, q.proposed)
  }

  ghost predicate OneAllocates(ns: Namespace, p: Proposal, q: Proposal) {
    Allocated(ns, p.proposed) == {} || Allocated(ns, q.proposed) == {}
  }

  lemma NothingAllocated(prior: Namespace, proposed: Namespace)
    requires AllocationContiguous(prior, proposed) && Allocated(prior, proposed) == {}
    ensures proposed.nextInode == prior.nextInode
  {
  }

  lemma HeldExists(ns: Namespace, grant: DirectoryGrant, inode: InodeId)
    requires GrantValid(ns, grant.token.root, grant) && inode in Owned(ns, grant)
    ensures inode in ns.nodes
  {
  }

  lemma DecidesApart(ns: Namespace, p: Proposal, q: Proposal)
    requires SideBySide(ns, p, q) && OneAllocates(ns, p, q)
    ensures Decides(ns, p) !! Decides(ns, q)
  {
    hide Publication, GrantValid, Owned, AllocationContiguous;
    forall inode | inode in Decides(ns, p) && inode in Decides(ns, q) ensures false {
      if inode in Owned(ns, p.grant) { HeldExists(ns, p.grant, inode); }
      if inode in Owned(ns, q.grant) { HeldExists(ns, q.grant, inode); }
    }
  }

  lemma MergedSymmetric(ns: Namespace, p: Proposal, q: Proposal)
    requires SideBySide(ns, p, q) && OneAllocates(ns, p, q)
    ensures Merged(ns, p, q) == Merged(ns, q, p)
  {
    hide SideBySide, OneAllocates, Decides;
    DecidesApart(ns, p, q);
    assert forall inode :: Decider(ns, p, q, inode) == Decider(ns, q, p, inode);
  }

  /** The merge has every inode exactly as its decider does. */
  lemma MergedNode(ns: Namespace, p: Proposal, q: Proposal, inode: InodeId)
    ensures Unchanged(Decider(ns, p, q, inode), Merged(ns, p, q), inode)
  {
    hide Decides;
  }

  /** What the second publisher replaces in the first proposal, and by what. */
  ghost function BasePart(ns: Namespace, p: Proposal, q: Proposal): Part {
    Part(p.proposed, Owned(ns, q.grant))
  }

  ghost function DonorPart(ns: Namespace, q: Proposal): Part {
    Part(q.proposed, Owned(ns, q.grant) * q.proposed.nodes.Keys + Allocated(ns, q.proposed))
  }

  lemma GrantRegion(ns: Namespace, grant: DirectoryGrant)
    requires GrantValid(ns, grant.token.root, grant)
    ensures Region(ns, grant.token.root, Owned(ns, grant))
  {
  }

  lemma Regions(ns: Namespace, p: Proposal, q: Proposal)
    requires SideBySide(ns, p, q)
    ensures Region(p.proposed, q.grant.token.root, Owned(ns, q.grant))
    ensures Region(q.proposed, q.grant.token.root, DonorPart(ns, q).held)
  {
    hide Publication, Region, RemainingOrphans, GrantValid, AllocationContiguous;
    OtherGrantCarriesOver(ns, p.proposed, p.grant, q.grant);
    GrantRegion(p.proposed, q.grant);
    PublisherStillValid(ns, q.proposed, q.grant);
    AuthorityConserved(ns, q.proposed, q.grant);
    GrantRegion(q.proposed, q.grant.(orphans := RemainingOrphans(ns, q.proposed, q.grant)));
  }

  /** Away from the second grant the merge is the first proposal. */
  lemma MergedOutside(ns: Namespace, p: Proposal, q: Proposal, inode: InodeId)
    requires SideBySide(ns, p, q) && OneAllocates(ns, p, q)
    requires inode !in Decides(ns, q)
    ensures Unchanged(p.proposed, Merged(ns, p, q), inode)
  {
    hide Publication, GrantValid, AllocationContiguous;
    MergedNode(ns, p, q, inode);
    if inode in ns.nodes && inode !in Decides(ns, p) {
      OutsideAuthorityUntouched(ns, p.proposed, p.grant, inode);
    }
  }

  /** On what the second grant decides the merge is the second proposal. */
  lemma MergedInside(ns: Namespace, p: Proposal, q: Proposal, inode: InodeId)
    requires SideBySide(ns, p, q) && OneAllocates(ns, p, q)
    requires inode in Decides(ns, q)
    ensures Unchanged(q.proposed, Merged(ns, p, q), inode)
  {
    hide Publication, GrantValid, AllocationContiguous;
    MergedNode(ns, p, q, inode);
    DecidesApart(ns, p, q);
  }

  /** The merge is the first proposal with the second grant's region grafted in. */
  lemma MergedGrafted(ns: Namespace, p: Proposal, q: Proposal)
    requires SideBySide(ns, p, q) && OneAllocates(ns, p, q)
    ensures Grafted(Merged(ns, p, q), BasePart(ns, p, q), DonorPart(ns, q), q.grant.token.root)
  {
    hide Region, GrantValid, AllocationContiguous, Valid, Owned, DeltaAllowed;
    var m, base, donor := Merged(ns, p, q), BasePart(ns, p, q), DonorPart(ns, q);
    Regions(ns, p, q);
    MergedKeys(ns, p, q);
    forall inode | inode in p.proposed.nodes && inode !in base.held
      ensures m.nodes[inode] == p.proposed.nodes[inode]
    {
      assert inode !in Decides(ns, q);
      MergedOutside(ns, p, q, inode);
    }
    forall inode | inode in donor.held ensures m.nodes[inode] == q.proposed.nodes[inode] {
      MergedInside(ns, p, q, inode);
    }
  }

  lemma MergedKeys(ns: Namespace, p: Proposal, q: Proposal)
    requires SideBySide(ns, p, q) && OneAllocates(ns, p, q)
    ensures p.proposed.nodes.Keys - Owned(ns, q.grant) !! Allocated(ns, q.proposed)
    ensures Merged(ns, p, q).nodes.Keys
      == p.proposed.nodes.Keys - Owned(ns, q.grant) + DonorPart(ns, q).held
  {
    hide Publication, GrantValid, AllocationContiguous, Owned, Merged;
    var m := Merged(ns, p, q);
    forall inode | inode in Allocated(ns, q.proposed) ensures inode !in p.proposed.nodes {
      assert inode in p.proposed.nodes ==> inode in Allocated(ns, p.proposed);
    }
    forall inode
      ensures inode in m.nodes <==>
        inode in p.proposed.nodes.Keys - Owned(ns, q.grant) + DonorPart(ns, q).held
    {
      if inode in Decides(ns, q) { MergedInside(ns, p, q, inode); } else { MergedOutside(ns, p, q, inode); }
      if inode in Owned(ns, q.grant) { HeldExists(ns, q.grant, inode); }
    }
  }

  // ---- The second publication -----------------------------------------------

  lemma SecondAllocates(ns: Namespace, p: Proposal, q: Proposal)
    requires SideBySide(ns, p, q) && OneAllocates(ns, p, q)
    ensures Allocated(p.proposed, Merged(ns, p, q)) == Allocated(ns, q.proposed)
  {
    hide Publication, GrantValid, AllocationContiguous, Owned, Merged;
    MergedKeys(ns, p, q);
    OtherGrantUntouched(ns, p.proposed, p.grant, q.grant);
    forall inode | inode in Allocated(ns, q.proposed) ensures inode !in Owned(ns, q.grant) {
      if inode in Owned(ns, q.grant) { HeldExists(ns, q.grant, inode); }
    }
  }

  lemma SameAllocation(prior: Namespace, proposed: Namespace, prior': Namespace, proposed': Namespace)
    requires AllocationContiguous(prior, proposed) && Allocated(prior', proposed') == Allocated(prior, proposed)
    requires proposed'.nextInode - prior'.nextInode == proposed.nextInode - prior.nextInode
    requires Allocated(prior, proposed) == {} || prior'.nextInode == prior.nextInode
    ensures AllocationContiguous(prior', proposed')
  {
  }

  lemma SecondAllocation(ns: Namespace, p: Proposal, q: Proposal)
    requires SideBySide(ns, p, q) && OneAllocates(ns, p, q)
    ensures AllocationContiguous(p.proposed, Merged(ns, p, q)) && SameHeader(p.proposed, Merged(ns, p, q))
  {
    hide GrantValid, Owned, DeltaAllowed, Valid, Claimable, AllocationContiguous, Decider, Allocated;
    SecondAllocates(ns, p, q);
    if Allocated(ns, p.proposed) == {} { NothingAllocated(ns, p.proposed); }
    if Allocated(ns, q.proposed) == {} { NothingAllocated(ns, q.proposed); }
    SameAllocation(ns, q.proposed, p.proposed, Merged(ns, p, q));
  }

  /** The second publisher's comparison of the first proposal with the merge is its comparison
      of the prior namespace with its own proposal. */
  lemma SecondDelta(ns: Namespace, p: Proposal, q: Proposal)
    requires SideBySide(ns, p, q) && OneAllocates(ns, p, q)
    requires Subtree(Merged(ns, p, q), q.grant.token.root) == Subtree(q.proposed, q.grant.token.root)
    ensures DeltaAllowed(p.proposed, Merged(ns, p, q), q.grant)
  {
    hide Valid, Claimable, AllocationContiguous, Merged, Subtree;
    var m, root := Merged(ns, p, q), q.grant.token.root;
    var before, after := Subtree(ns, root), Subtree(q.proposed, root);
    OtherGrantUntouched(ns, p.proposed, p.grant, q.grant);
    forall inode | inode in after && inode in p.proposed.nodes ensures inode in before {
      SecondForeign(ns, p, q, inode);
    }
    forall inode | !Unchanged(p.proposed, m, inode)
      ensures ChangeAllowed(p.proposed, m, before + q.grant.orphans, after, inode)
    {
      SecondChange(ns, p, q, inode);
    }
  }

  lemma SecondForeign(ns: Namespace, p: Proposal, q: Proposal, inode: InodeId)
    requires SideBySide(ns, p, q) && OneAllocates(ns, p, q)
    requires inode in Subtree(q.proposed, q.grant.token.root) && inode in p.proposed.nodes
    ensures inode in Subtree(ns, q.grant.token.root)
  {
    hide Valid, Claimable, GrantValid, AllocationContiguous;
    assert inode !in ns.nodes ==> inode in Allocated(ns, p.proposed) && inode in Allocated(ns, q.proposed);
  }

  lemma SecondChange(ns: Namespace, p: Proposal, q: Proposal, inode: InodeId)
    requires SideBySide(ns, p, q) && OneAllocates(ns, p, q)
    requires !Unchanged(p.proposed, Merged(ns, p, q), inode)
    ensures ChangeAllowed(
        p.proposed, Merged(ns, p, q), Owned(ns, q.grant), Subtree(q.proposed, q.grant.token.root), inode)
  {
    hide Valid, Claimable, GrantValid, AllocationContiguous, Merged, Subtree;
    if inode !in Decides(ns, q) { MergedOutside(ns, p, q, inode); }
    MergedInside(ns, p, q, inode);
    var after := Subtree(q.proposed, q.grant.token.root);
    if inode in Owned(ns, q.grant) {
      OtherGrantUntouched(ns, p.proposed, p.grant, q.grant);
    } else {
      assert inode !in p.proposed.nodes by {
        assert inode in p.proposed.nodes ==> inode in Allocated(ns, p.proposed);
      }
      NothingAllocated(ns, p.proposed);
    }
    assert ChangeAllowed(ns, q.proposed, Owned(ns, q.grant), after, inode);
  }

  lemma SecondPublication(ns: Namespace, p: Proposal, q: Proposal)
    requires SideBySide(ns, p, q) && OneAllocates(ns, p, q)
    ensures
      var m := Merged(ns, p, q);
      && Valid(m) && SameHeader(p.proposed, m) && Claimable(m, q.grant.token.root)
      && DeltaAllowed(p.proposed, m, q.grant) && AllocationContiguous(p.proposed, m)
  {
    hide SideBySide, Grafted, Merged, Valid, Claimable, DeltaAllowed, AllocationContiguous;
    MergedGrafted(ns, p, q);
    GraftValid(Merged(ns, p, q), BasePart(ns, p, q), DonorPart(ns, q), q.grant.token.root);
    SecondDelta(ns, p, q);
    SecondAllocation(ns, p, q);
  }

  /** The second publisher ends with the orphans it would have had on its own. */
  lemma SecondOrphans(ns: Namespace, p: Proposal, q: Proposal)
    requires SideBySide(ns, p, q) && OneAllocates(ns, p, q)
    ensures RemainingOrphans(p.proposed, Merged(ns, p, q), q.grant) == RemainingOrphans(ns, q.proposed, q.grant)
  {
    hide Publication, GrantValid, AllocationContiguous, Merged, Subtree;
    OtherGrantUntouched(ns, p.proposed, p.grant, q.grant);
    forall inode | inode in Owned(ns, q.grant) ensures Unchanged(q.proposed, Merged(ns, p, q), inode) {
      MergedInside(ns, p, q, inode);
    }
  }

  // ---- The protocol ---------------------------------------------------------

  ghost function ProposalOf(st: State, proposed: Namespace, token: GrantToken): Proposal
    requires TokenLive(st, token)
  {
    Proposal(st.grants[token.root], proposed)
  }

  lemma ChecksGiveSideBySide(
      st: State, ns: Namespace, first: Namespace, t: GrantToken, second: Namespace, u: GrantToken)
    requires PublishChecks(st, ns, first, t) && PublishChecks(st, ns, second, u) && t != u
    ensures SideBySide(ns, ProposalOf(st, first, t), ProposalOf(st, second, u))
    ensures st.grants[t.root].token.root == t.root && st.grants[u.root].token.root == u.root && t.root != u.root
  {
    hide Valid, Claimable, DeltaAllowed, AllocationContiguous, ReceiptsValid, Publication, GrantValid;
    ChecksGivePublication(st, ns, first, t);
    ChecksGivePublication(st, ns, second, u);
    assert Owned(ns, st.grants[t.root]) !! Owned(ns, st.grants[u.root]);
  }

  lemma SecondPasses(
      st: State, ns: Namespace, first: Namespace, t: GrantToken, second: Namespace, u: GrantToken)
    requires PublishChecks(st, ns, first, t) && PublishChecks(st, ns, second, u) && t != u
    requires OneAllocates(ns, ProposalOf(st, first, t), ProposalOf(st, second, u))
    ensures PublishChecks(
        Candidate(st, ns, first, t), first,
        Merged(ns, ProposalOf(st, first, t), ProposalOf(st, second, u)), u)
  {
    hide SideBySide, Merged, StateValid, Valid, Claimable, DeltaAllowed, AllocationContiguous, RemainingOrphans;
    ChecksGiveSideBySide(st, ns, first, t, second, u);
    SecondPublication(ns, ProposalOf(st, first, t), ProposalOf(st, second, u));
    ClosingValidationRedundant(st, ns, first, t);
  }

  /** After the first publication the second token still gets the merge through, and the
      state then has both grants' orphans as each publication alone would leave them. */
  lemma SecondAccepted(
      st: State, ns: Namespace, first: Namespace, t: GrantToken, second: Namespace, u: GrantToken)
    requires PublishChecks(st, ns, first, t) && PublishChecks(st, ns, second, u) && t != u
    requires OneAllocates(ns, ProposalOf(st, first, t), ProposalOf(st, second, u))
    ensures
      var p, q := ProposalOf(st, first, t), ProposalOf(st, second, u);
      var grants := st.grants[t.root := p.grant.(orphans := RemainingOrphans(ns, first, p.grant))]
                             [u.root := q.grant.(orphans := RemainingOrphans(ns, second, q.grant))];
      PublishResult(Candidate(st, ns, first, t), first, Merged(ns, p, q), u) == Ok(st.(grants := grants))
  {
    hide SideBySide, Merged, StateValid, Valid, Claimable, DeltaAllowed, AllocationContiguous, RemainingOrphans;
    var p, q := ProposalOf(st, first, t), ProposalOf(st, second, u);
    ChecksGiveSideBySide(st, ns, first, t, second, u);
    SecondPasses(st, ns, first, t, second, u);
    SecondOrphans(ns, p, q);
    PublishIffChecks(Candidate(st, ns, first, t), first, Merged(ns, p, q), u);
  }

  lemma MergedKeeps(ns: Namespace, p: Proposal, q: Proposal)
    requires SideBySide(ns, p, q) && OneAllocates(ns, p, q)
    ensures Keeps(ns, p, Merged(ns, p, q)) && Keeps(ns, q, Merged(ns, p, q))
    ensures forall inode | inode !in Decides(ns, p) && inode !in Decides(ns, q) ::
      Unchanged(ns, Merged(ns, p, q), inode)
  {
    hide SideBySide, OneAllocates, Decides, Merged, Unchanged;
    var m := Merged(ns, p, q);
    DecidesApart(ns, p, q);
    forall inode | inode in Decides(ns, p) ensures Unchanged(p.proposed, m, inode) {
      MergedNode(ns, p, q, inode);
    }
    forall inode | inode in Decides(ns, q) ensures Unchanged(q.proposed, m, inode) {
      MergedNode(ns, p, q, inode);
    }
    forall inode | inode !in Decides(ns, p) && inode !in Decides(ns, q) ensures Unchanged(ns, m, inode) {
      MergedNode(ns, p, q, inode);
    }
  }

  /** Of two publications accepted from one state under different tokens, the second to commit
      can still have all of its changes: the merge is valid, holds each inode just as its
      holder proposed it, and is accepted after either; both orders end in one state. */
  lemma ConcurrentPublicationsMerge(
      st: State, ns: Namespace, first: Namespace, t: GrantToken, second: Namespace, u: GrantToken)
    requires PublishResult(st, ns, first, t).Ok? && PublishResult(st, ns, second, u).Ok? && t != u
    requires Allocated(ns, first) == {} || Allocated(ns, second) == {}
    ensures
      var p, q := ProposalOf(st, first, t), ProposalOf(st, second, u);
      var m := Merged(ns, p, q);
      && Valid(m) && Keeps(ns, p, m) && Keeps(ns, q, m)
      && (forall inode | inode !in Decides(ns, p) && inode !in Decides(ns, q) :: Unchanged(ns, m, inode))
      && var firstThenSecond := PublishResult(PublishResult(st, ns, first, t).value, first, m, u);
      && firstThenSecond.Ok?
      && firstThenSecond == PublishResult(PublishResult(st, ns, second, u).value, second, m, t)
  {
    hide SideBySide, Merged, StateValid, Valid, Claimable, DeltaAllowed, AllocationContiguous, RemainingOrphans,
         Keeps, Decides, Unchanged;
    var p, q := ProposalOf(st, first, t), ProposalOf(st, second, u);
    ChecksGiveSideBySide(st, ns, first, t, second, u);
    SecondPublication(ns, p, q);
    MergedKeeps(ns, p, q);
    MergedSymmetric(ns, p, q);
    SecondAccepted(st, ns, first, t, second, u);
    SecondAccepted(st, ns, second, u, first, t);
    UpdatesCommute(st.grants, t.root, u.root,
      p.grant.(orphans := RemainingOrphans(ns, first, p.grant)),
      q.grant.(orphans := RemainingOrphans(ns, second, q.grant)));
  }

  lemma UpdatesCommute<K, V>(m: map<K, V>, j: K, k: K, v: V, w: V)
    requires j != k
    ensures m[j := v][k := w] == m[k := w][j := v]
  {
  }

  // ---- When both allocate ---------------------------------------------------

  /** An allocation starts at the old allocator, so two of them claim one and the same id. */
  lemma AllocationStarts(prior: Namespace, proposed: Namespace)
    requires AllocationContiguous(prior, proposed) && Allocated(prior, proposed) != {}
    ensures prior.nextInode in Allocated(prior, proposed)
  {
    hide AllocationContiguous;
    AllocationIsInterval(prior, proposed);
    var inode :| inode in Allocated(prior, proposed);
  }

  /** No publication after the first can keep what both decided when both allocate. */
  lemma NothingKeepsBoth(ns: Namespace, p: Proposal, q: Proposal, m: Namespace)
    requires SideBySide(ns, p, q) && !OneAllocates(ns, p, q)
    requires Publication(p.proposed, m, q.grant)
    ensures !Keeps(ns, q, m)
  {
    hide Claimable, AllocationContiguous, Subtree;
    var id, root := ns.nextInode, q.grant.token.root;
    AllocationStarts(ns, p.proposed);
    AllocationStarts(ns, q.proposed);
    if Keeps(ns, q, m) {
      AllocatedIsInside(ns, q, id);
      DecidedSubtree(ns, q, m);
      assert id in p.proposed.nodes && id in Subtree(m, root);
      OtherGrantUntouched(ns, p.proposed, p.grant, q.grant);
      SubtreeExists(ns, root, id);
    }
  }

  lemma SubtreeExists(ns: Namespace, root: InodeId, inode: InodeId)
    requires inode in Subtree(ns, root)
    ensures inode in ns.nodes
  {
  }

  lemma AllocatedIsInside(ns: Namespace, q: Proposal, inode: InodeId)
    requires Publication(ns, q.proposed, q.grant) && inode in Allocated(ns, q.proposed)
    ensures inode in Subtree(q.proposed, q.grant.token.root)
  {
    hide Valid, Claimable, Subtree;
    assert !Unchanged(ns, q.proposed, inode);
  }

  /** A namespace that keeps what a proposal decides has its subtree. */
  lemma DecidedSubtree(ns: Namespace, q: Proposal, m: Namespace)
    requires Publication(ns, q.proposed, q.grant) && Valid(m) && Keeps(ns, q, m)
    ensures Subtree(m, q.grant.token.root) == Subtree(q.proposed, q.grant.token.root)
  {
    hide Sealed;
    forall inode | inode in Subtree(q.proposed, q.grant.token.root)
      ensures inode in m.nodes && Children(m, inode) == Children(q.proposed, inode)
    {
      assert inode in Decides(ns, q);
      assert Unchanged(q.proposed, m, inode);
    }
    SubtreeFrame(q.proposed, m, q.grant.token.root);
  }

  /** Exactly when: the second publisher can have everything it and the first proposed, if and
      only if they did not both allocate inodes. */
  lemma MergeIffOneAllocates(
      st: State, ns: Namespace, first: Namespace, t: GrantToken, second: Namespace, u: GrantToken)
    requires PublishResult(st, ns, first, t).Ok? && PublishResult(st, ns, second, u).Ok? && t != u
    ensures
      var p, q := ProposalOf(st, first, t), ProposalOf(st, second, u);
      (exists m ::
         && PublishResult(PublishResult(st, ns, first, t).value, first, m, u).Ok?
         && Keeps(ns, p, m) && Keeps(ns, q, m))
      <==> Allocated(ns, first) == {} || Allocated(ns, second) == {}
  {
    hide SideBySide, Merged, StateValid, Valid, Claimable, DeltaAllowed, AllocationContiguous, RemainingOrphans,
         Keeps, Decides, Unchanged, Publication;
    var p, q := ProposalOf(st, first, t), ProposalOf(st, second, u);
    ChecksGiveSideBySide(st, ns, first, t, second, u);
    if OneAllocates(ns, p, q) {
      ConcurrentPublicationsMerge(st, ns, first, t, second, u);
      assert Keeps(ns, p, Merged(ns, p, q)) && Keeps(ns, q, Merged(ns, p, q));
    } else {
      forall m | PublishResult(PublishResult(st, ns, first, t).value, first, m, u).Ok? ensures !Keeps(ns, q, m) {
        ChecksGivePublication(PublishResult(st, ns, first, t).value, first, m, u);
        NothingKeepsBoth(ns, p, q, m);
      }
    }
  }
}
