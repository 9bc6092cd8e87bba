/** What one accepted publication can and cannot do. */
module Safety {
  import opened Base
  import opened Storage
  import opened Tree
  import opened Authority

  /** The publication is compared with a valid old namespace under a valid, claimable grant. */
  ghost predicate Publication(prior: Namespace, proposed: Namespace, grant: DirectoryGrant) {
    && Valid(prior) && Valid(proposed) && SameHeader(prior, proposed)
    && Claimable(prior, grant.token.root) && Claimable(proposed, grant.token.root)
    && DeltaAllowed(prior, proposed, grant)
  }

  lemma ChecksGivePublication(st: State, prior: Namespace, proposed: Namespace, token: GrantToken)
    requires PublishChecks(st, prior, proposed, token)
    ensures Publication(prior, proposed, st.grants[token.root])
    ensures GrantValid(prior, token.root, st.grants[token.root])
  {
    assert GrantValid(prior, token.root, st.grants[token.root]);
  }

  /** A directory of the new namespace outside the new subtree is an old, untouched one. */
  lemma OutsideDirectoryUntouched(
      prior: Namespace, proposed: Namespace, grant: DirectoryGrant, parent: InodeId)
    requires Publication(prior, proposed, grant)
    requires IsDirectory(proposed, parent) && parent !in Subtree(proposed, grant.token.root)
    ensures parent in prior.nodes && prior.nodes[parent] == proposed.nodes[parent]
    ensures Children(prior, parent) == Children(proposed, parent)
  {
    DirectoryIsLinked(proposed, parent);
    assert proposed.nodes[parent].stats.nlink != 0;
  }

  /** The walk behind the no-escape theorem, over the new namespace: if a member of `before`
      can only be linked from `before` or from the closed set `after`, then everything of
      `before` that the namespace root reaches is in `after`, by induction on its depth. */
  lemma {:induction false} WalkUp(
      ns: Namespace, before: set<InodeId>, after: set<InodeId>, inode: InodeId, depth: nat)
    requires forall i | i in after :: Children(ns, i) <= after
    requires ns.root in before ==> ns.root in after
    requires forall parent, child | child in Children(ns, parent) && child in before ::
      child in after || parent in before || parent in after
    requires inode in before && ReachesIn(ns, ns.root, inode, depth)
    ensures inode in after
    decreases depth
  {
    if depth > 0 && inode !in after {
      var parent: InodeId :|
        ReachesIn(ns, ns.root, parent, depth - 1) && inode in Children(ns, parent);
      if parent in before {
        WalkUp(ns, before, after, parent, depth - 1);
      }
    }
  }

  /** A link to an old member from outside the new subtree comes from an old member. */
  lemma LinkStaysInside(
      prior: Namespace, proposed: Namespace, grant: DirectoryGrant, parent: InodeId, child: InodeId)
    requires Publication(prior, proposed, grant)
    requires child in Children(proposed, parent) && child in Subtree(prior, grant.token.root)
    requires child != grant.token.root && parent !in Subtree(proposed, grant.token.root)
    ensures parent in Subtree(prior, grant.token.root)
  {
    var slot := ChildHasLink(proposed, parent, child);
    OutsideDirectoryUntouched(prior, proposed, grant, parent);
    SealedParent(prior, grant.token.root, parent, child);
  }

  /** No escape: an inode of the old subtree that keeps a link stays in the subtree,
      whether or not the comparison loop looked at it. */
  lemma NoEscape(prior: Namespace, proposed: Namespace, grant: DirectoryGrant, inode: InodeId)
    requires Publication(prior, proposed, grant)
    requires inode in Subtree(prior, grant.token.root)
    requires inode in proposed.nodes && proposed.nodes[inode].stats.nlink != 0
    ensures inode in Subtree(proposed, grant.token.root)
  {
    var root := grant.token.root;
    var before, after := Subtree(prior, root), Subtree(proposed, root);
    SubtreeClosed(proposed, root);
    if proposed.root in before {
      RootOnlyUnderItself(prior, root);
    }
    forall parent, child | child in Children(proposed, parent) && child in before
      ensures child in after || parent in before || parent in after
    {
      if child != root && parent !in after {
        LinkStaysInside(prior, proposed, grant, parent, child);
      }
    }
    LinkedIsRooted(proposed, inode);
    var depth := DepthOf(proposed, proposed.root, inode);
    WalkUp(proposed, before, after, inode, depth);
  }

  // ---- Isolation of the other grants ----------------------------------------

  /** Everything outside the publisher's authority that existed is left exactly as it was. */
  lemma OutsideAuthorityUntouched(
      prior: Namespace, proposed: Namespace, grant: DirectoryGrant, inode: InodeId)
    requires Publication(prior, proposed, grant)
    requires inode in prior.nodes && inode !in Owned(prior, grant)
    ensures inode in proposed.nodes && proposed.nodes[inode] == prior.nodes[inode]
  {
  }

  /** Isolation: another grant keeps its subtree, every node in it and every orphan. */
  lemma OtherGrantUntouched(
      prior: Namespace, proposed: Namespace, grant: DirectoryGrant, other: DirectoryGrant)
    requires Publication(prior, proposed, grant)
    requires GrantValid(prior, other.token.root, other) && Owned(prior, grant) !! Owned(prior, other)
    ensures Subtree(proposed, other.token.root) == Subtree(prior, other.token.root)
    ensures forall inode | inode in Owned(prior, other) ::
      inode in prior.nodes && inode in proposed.nodes && proposed.nodes[inode] == prior.nodes[inode]
  {
    forall inode | inode in Owned(prior, other)
      ensures inode in prior.nodes && inode in proposed.nodes && proposed.nodes[inode] == prior.nodes[inode]
    {
      OutsideAuthorityUntouched(prior, proposed, grant, inode);
    }
    SubtreeFrame(prior, proposed, other.token.root);
  }

  /** The publisher's new subtree cannot reach into another grant. */
  lemma NewSubtreeAvoids(
      prior: Namespace, proposed: Namespace, grant: DirectoryGrant, other: DirectoryGrant)
    requires Publication(prior, proposed, grant)
    requires GrantValid(prior, other.token.root, other) && Owned(prior, grant) !! Owned(prior, other)
    ensures Subtree(proposed, grant.token.root) !! Owned(prior, other)
  {
    forall inode | inode in Owned(prior, other)
      ensures inode !in Subtree(proposed, grant.token.root)
    {
      assert inode in prior.nodes;
    }
  }

  /** Another grant's subtree is still sealed against the rest of the new namespace. */
  lemma OtherGrantStillValid(
      prior: Namespace, proposed: Namespace, grant: DirectoryGrant, other: DirectoryGrant)
    requires Publication(prior, proposed, grant)
    requires GrantValid(prior, other.token.root, other) && Owned(prior, grant) !! Owned(prior, other)
    ensures GrantValid(proposed, other.token.root, other)
  {
    var root := other.token.root;
    OtherGrantUntouched(prior, proposed, grant, other);
    NewSubtreeAvoids(prior, proposed, grant, other);
    SubtreeClosed(prior, root);
    SubtreeClosed(proposed, grant.token.root);
    forall parent, child | parent in proposed.nodes && parent !in Subtree(proposed, root)
                           && child in Children(proposed, parent) && child != root
      ensures child !in Subtree(proposed, root)
    {
      if parent !in Subtree(proposed, grant.token.root) {
        var slot := ChildHasLink(proposed, parent, child);
        OutsideDirectoryUntouched(prior, proposed, grant, parent);
      }
    }
  }

  /** An orphan stays unlinked: publication cannot resurrect it. */
  lemma OrphanNotRelinked(prior: Namespace, proposed: Namespace, grant: DirectoryGrant, inode: InodeId)
    requires Publication(prior, proposed, grant)
    requires inode in prior.nodes && prior.nodes[inode].stats.nlink == 0 && inode in proposed.nodes
    ensures proposed.nodes[inode].stats.nlink == 0
  {
    OrphanIsUnreferenced(prior, inode);
    assert inode !in Subtree(prior, grant.token.root);
  }

  /** Authority is conserved: what the publisher holds afterwards is exactly what it held
      before, less what it removed, plus what it allocated; all else is as it was. */
  lemma AuthorityConserved(prior: Namespace, proposed: Namespace, grant: DirectoryGrant)
    requires Publication(prior, proposed, grant) && GrantValid(prior, grant.token.root, grant)
    ensures Owned(proposed, grant.(orphans := RemainingOrphans(prior, proposed, grant)))
      == Owned(prior, grant) * proposed.nodes.Keys + Allocated(prior, proposed)
    ensures forall inode | inode in prior.nodes && inode !in Owned(prior, grant) ::
      inode in proposed.nodes && proposed.nodes[inode] == prior.nodes[inode]
  {
    var published := grant.(orphans := RemainingOrphans(prior, proposed, grant));
    forall inode | inode in Owned(proposed, published)
      ensures inode in Owned(prior, grant) * proposed.nodes.Keys + Allocated(prior, proposed)
    {
    }
    forall inode | inode in Owned(prior, grant) && inode in proposed.nodes
      ensures inode in Owned(proposed, published)
    {
      if proposed.nodes[inode].stats.nlink != 0 {
        if inode in Subtree(prior, grant.token.root) {
          NoEscape(prior, proposed, grant, inode);
        } else {
          assert IsOrphan(prior, inode);
          OrphanNotRelinked(prior, proposed, grant, inode);
        }
      }
    }
    forall inode | inode in Allocated(prior, proposed) ensures inode in Owned(proposed, published) {
      assert ChangeAllowed(prior, proposed, Owned(prior, grant), Subtree(proposed, grant.token.root), inode);
    }
  }

  // ---- The closing validation is redundant ----------------------------------

  lemma CandidateReceipts(st: State, prior: Namespace, proposed: Namespace, token: GrantToken)
    requires TokenLive(st, token)
    ensures Tokens(Candidate(st, prior, proposed, token)) == Tokens(st)
    ensures Candidate(st, prior, proposed, token).grants.Keys == st.grants.Keys
    ensures ReceiptsValid(st) ==> ReceiptsValid(Candidate(st, prior, proposed, token))
  {
    var next := Candidate(st, prior, proposed, token);
    assert next.grants.Keys == st.grants.Keys;
    assert |next.grants| == |next.grants.Keys| && |st.grants| == |st.grants.Keys|;
    assert forall root | root in st.grants :: next.grants[root].token == st.grants[root].token;
    assert Tokens(next) == Tokens(st);
  }

  lemma PublisherStillValid(prior: Namespace, proposed: Namespace, grant: DirectoryGrant)
    requires Publication(prior, proposed, grant)
    ensures GrantValid(proposed, grant.token.root, grant.(orphans := RemainingOrphans(prior, proposed, grant)))
  {
    forall inode | inode in RemainingOrphans(prior, proposed, grant) ensures IsOrphan(proposed, inode) {
      OrphanIsUnreferenced(proposed, inode);
    }
  }

  /** One other grant across the publication: same holdings, still valid, and disjoint from
      whatever the publisher now holds. */
  lemma OtherGrantCarriesOver(
      prior: Namespace, proposed: Namespace, grant: DirectoryGrant, other: DirectoryGrant)
    requires Publication(prior, proposed, grant)
    requires GrantValid(prior, other.token.root, other) && Owned(prior, grant) !! Owned(prior, other)
    ensures GrantValid(proposed, other.token.root, other)
    ensures Owned(proposed, other) == Owned(prior, other)
    ensures Owned(proposed, grant.(orphans := RemainingOrphans(prior, proposed, grant))) !! Owned(proposed, other)
  {
    OtherGrantUntouched(prior, proposed, grant, other);
    NewSubtreeAvoids(prior, proposed, grant, other);
    OtherGrantStillValid(prior, proposed, grant, other);
  }

  /** Replacing one grant keeps a family disjoint when the others keep their holdings. */
  lemma ReplacementDisjoint(
      prior: Namespace, proposed: Namespace, grants: map<InodeId, DirectoryGrant>, root: InodeId,
      replacement: DirectoryGrant)
    requires GrantsDisjoint(prior, grants)
    requires forall r | r in grants && r != root ::
      && Owned(proposed, grants[r]) == Owned(prior, grants[r])
      && Owned(proposed, replacement) !! Owned(proposed, grants[r])
    ensures GrantsDisjoint(proposed, grants[root := replacement])
  {
  }

  /** The grants of a valid state after one of them publishes. */
  lemma PublishedGrantsValid(
      prior: Namespace, proposed: Namespace, grants: map<InodeId, DirectoryGrant>, root: InodeId)
    requires GrantsValid(prior, grants)
    requires GrantsDisjoint(prior, grants)
    requires root in grants && Publication(prior, proposed, grants[root])
    ensures
      var grants' := grants[root := grants[root].(orphans := RemainingOrphans(prior, proposed, grants[root]))];
      && GrantsValid(proposed, grants')
      && GrantsDisjoint(proposed, grants')
  {
    var published := grants[root].(orphans := RemainingOrphans(prior, proposed, grants[root]));
    var grants' := grants[root := published];
    assert GrantValid(prior, root, grants[root]);
    GrantFiledUnderRoot(prior, root, grants[root]);
    PublisherStillValid(prior, proposed, grants[root]);
    forall r | r in grants && r != root
      ensures GrantValid(proposed, r, grants[r])
      ensures Owned(proposed, grants[r]) == Owned(prior, grants[r])
      ensures Owned(proposed, published) !! Owned(proposed, grants[r])
    {
      assert GrantValid(prior, r, grants[r]);
      GrantFiledUnderRoot(prior, r, grants[r]);
      assert Owned(prior, grants[root]) !! Owned(prior, grants[r]);
      OtherGrantCarriesOver(prior, proposed, grants[root], grants[r]);
    }
    forall r | r in grants' ensures GrantValid(proposed, r, grants'[r]) {
      assert r != root ==> grants'[r] == grants[r];
    }
    ReplacementDisjoint(prior, proposed, grants, root, published);
  }

  lemma GrantFiledUnderRoot(ns: Namespace, root: InodeId, grant: DirectoryGrant)
    requires GrantValid(ns, root, grant)
    ensures grant.token.root == root
  {
  }

  /** Once the checks have passed, `candidate.validate(new)` cannot fail: the checks alone
      re-establish disjoint grants, orphan provenance and sealed subtrees. */
  lemma ClosingValidationRedundant(st: State, prior: Namespace, proposed: Namespace, token: GrantToken)
    requires PublishChecks(st, prior, proposed, token)
    ensures StateValid(Candidate(st, prior, proposed, token), proposed)
  {
    ChecksGivePublication(st, prior, proposed, token);
    CandidateReceipts(st, prior, proposed, token);
    PublishedGrantsValid(prior, proposed, st.grants, token.root);
  }
}
