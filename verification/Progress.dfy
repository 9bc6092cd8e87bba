/** What a live grant is good for: which publications its holder is sure to get through. */
module Progress {
  import opened Base
  import opened Storage
  import opened Tree
  import opened Authority
  import opened Steps
  import opened InodePublication

  lemma ContentChangeSubtree(ns: Namespace, inode: InodeId, next: NodeMetadata, root: InodeId)
    requires Valid(ns) && SameStructure(ns, WithNode(ns, inode, next)) && Claimable(ns, root)
    ensures Subtree(WithNode(ns, inode, next), root) == Subtree(ns, root)
    ensures Claimable(WithNode(ns, inode, next), root)
  {
    var ns' := WithNode(ns, inode, next);
    StructureSlots(ns, ns');
    StructureSubtree(ns, ns', root);
  }

  lemma ContentChangeAllocates(ns: Namespace, inode: InodeId, next: NodeMetadata)
    requires inode in ns.nodes
    ensures AllocationContiguous(ns, WithNode(ns, inode, next))
  {
    assert Allocated(ns, WithNode(ns, inode, next)) == {};
  }

  /** The comparison loop passes one changed node exactly when the publisher holds it. */
  lemma ContentChangeDiff(
      ns: Namespace, inode: InodeId, next: NodeMetadata, authority: set<InodeId>, after: set<InodeId>)
    requires inode in ns.nodes && ContentReplaced(ns.nodes[inode], next) && next != ns.nodes[inode]
    requires inode in authority && ns.nodes[inode].stats.nlink != 0 ==> inode in after
    ensures DiffAllowed(ns, WithNode(ns, inode, next), authority, after) <==> inode in authority
  {
    var ns' := WithNode(ns, inode, next);
    assert forall i | i in ns.nodes && i != inode :: Unchanged(ns, ns', i);
    assert !Unchanged(ns, ns', inode);
    assert ChangeAllowed(ns, ns', authority, after, inode) <==> inode in authority;
  }

  lemma HeldLinkedIsInside(ns: Namespace, grant: DirectoryGrant, inode: InodeId)
    requires GrantValid(ns, grant.token.root, grant) && inode in Owned(ns, grant)
    requires inode in ns.nodes && ns.nodes[inode].stats.nlink != 0
    ensures inode in Subtree(ns, grant.token.root)
  {
    assert inode in grant.orphans ==> IsOrphan(ns, inode);
  }

  /** Exact authority over content: rewriting one file is accepted under a live token if and
      only if the grant holds that inode, linked or orphaned. */
  lemma ContentWriteIffHeld(st: State, ns: Namespace, token: GrantToken, inode: InodeId, next: NodeMetadata)
    requires StateValid(st, ns) && TokenLive(st, token)
    requires inode in ns.nodes && PublicationAllowed(inode, ns.nodes[inode], next) && next != ns.nodes[inode]
    ensures PublishResult(st, ns, WithNode(ns, inode, next), token).Ok?
      <==> inode in Owned(ns, st.grants[token.root])
  {
    hide Valid, Sealed, ReceiptsValid, GrantsDisjoint, AllocationContiguous;
    var ns', grant := WithNode(ns, inode, next), st.grants[token.root];
    AllowedIffContentReplaced(inode, ns.nodes[inode], next);
    PublicationKeepsValid(ns, inode, next);
    LiveGrantValid(st, ns, token);
    ContentChangeSubtree(ns, inode, next, token.root);
    ContentChangeAllocates(ns, inode, next);
    if inode in Owned(ns, grant) && ns.nodes[inode].stats.nlink != 0 {
      HeldLinkedIsInside(ns, grant, inode);
    }
    ContentChangeDiff(ns, inode, next, Owned(ns, grant), Subtree(ns, token.root));
    PublishIffChecks(st, ns, ns', token);
  }

  lemma LiveGrantValid(st: State, ns: Namespace, token: GrantToken)
    requires StateValid(st, ns) && TokenLive(st, token)
    ensures GrantValid(ns, token.root, st.grants[token.root])
  {
  }

  /** A holder that changes nothing is always accepted, and nothing changes. */
  lemma IdlePublishAccepted(st: State, ns: Namespace, token: GrantToken)
    requires StateValid(st, ns) && TokenLive(st, token)
    ensures PublishResult(st, ns, ns, token) == Ok(st)
  {
    hide Valid, Sealed, ReceiptsValid, GrantsDisjoint;
    var grant := st.grants[token.root];
    LiveGrantValid(st, ns, token);
    assert Allocated(ns, ns) == {};
    assert RemainingOrphans(ns, ns, grant) == grant.orphans by { IdleOrphans(ns, grant); }
    assert Candidate(st, ns, ns, token) == st;
    PublishIffChecks(st, ns, ns, token);
  }

  lemma IdleOrphans(ns: Namespace, grant: DirectoryGrant)
    requires Valid(ns) && GrantValid(ns, grant.token.root, grant)
    ensures RemainingOrphans(ns, ns, grant) == grant.orphans
  {
    forall inode | inode in RemainingOrphans(ns, ns, grant) ensures inode in grant.orphans {
      OrphanIsUnreferenced(ns, inode);
    }
    forall inode | inode in grant.orphans ensures inode in RemainingOrphans(ns, ns, grant) {
      assert IsOrphan(ns, inode);
    }
  }

  /** What the comparison sees when a holder drops its orphans. */
  lemma DropOrphansAllowed(ns: Namespace, grant: DirectoryGrant)
    requires Valid(ns) && GrantValid(ns, grant.token.root, grant)
    ensures
      var ns' := WithoutNodes(ns, grant.orphans);
      && Valid(ns') && Claimable(ns', grant.token.root)
      && DeltaAllowed(ns, ns', grant) && AllocationContiguous(ns, ns')
      && RemainingOrphans(ns, ns', grant) == {}
  {
    var ns' := WithoutNodes(ns, grant.orphans);
    PruneValid(ns, grant.orphans);
    PruneFrame(ns, grant.orphans);
    PruneSubtrees(ns, grant.orphans, grant.token.root);
    assert Allocated(ns, ns') == {};
    forall inode | inode in RemainingOrphans(ns, ns', grant) ensures false {
      OrphanIsUnreferenced(ns, inode);
    }
  }

  lemma DropOrphansPasses(st: State, ns: Namespace, token: GrantToken)
    requires StateValid(st, ns) && TokenLive(st, token)
    ensures PublishChecks(st, ns, WithoutNodes(ns, st.grants[token.root].orphans), token)
    ensures RemainingOrphans(ns, WithoutNodes(ns, st.grants[token.root].orphans), st.grants[token.root]) == {}
    ensures token !in st.retired
  {
    hide Valid, Sealed, GrantsDisjoint, DeltaAllowed, AllocationContiguous;
    LiveGrantValid(st, ns, token);
    DropOrphansAllowed(ns, st.grants[token.root]);
  }

  /** A holder can always let go: publishing the namespace without the grant's orphans is
      accepted, and the checkin after it retires the token. */
  lemma HolderCanRelease(st: State, ns: Namespace, token: GrantToken)
    requires StateValid(st, ns) && TokenLive(st, token)
    ensures
      var ns' := WithoutNodes(ns, st.grants[token.root].orphans);
      var published := PublishResult(st, ns, ns', token);
      && published.Ok?
      && CheckinResult(published.value, token, ns') == Ok(Retire(st, token))
  {
    hide StateValid, PublishChecks, RemainingOrphans;
    var ns' := WithoutNodes(ns, st.grants[token.root].orphans);
    DropOrphansPasses(st, ns, token);
    PublishIffChecks(st, ns, ns', token);
    assert Candidate(st, ns, ns', token).grants - {token.root} == st.grants - {token.root};
  }
}
