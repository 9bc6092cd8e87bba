/** Exactly which publications are accepted: the checks of `authorize_publish`, several of them
    per inode, against a description of the whole change. */
module Acceptance {
  import opened Base
  import opened Storage
  import opened Tree
  import opened Authority
  import opened Safety
  import opened Steps

  /** A change within one grant's authority. The header stays but for the allocator; nothing
      the grant does not hold changes; what it holds and keeps stays the same kind of object;
      the new inodes are the next ids in order, all of them in the new subtree; and the new
      subtree has no other inodes but these and old members. */
  ghost predicate Lawful(prior: Namespace, proposed: Namespace, grant: DirectoryGrant) {
    var before, after := Subtree(prior, grant.token.root), Subtree(proposed, grant.token.root);
    && proposed == prior.(nextInode := proposed.nextInode, nodes := proposed.nodes)
    && prior.nextInode <= proposed.nextInode
    && (forall inode | inode in prior.nodes && inode !in before && inode !in grant.orphans ::
          inode in proposed.nodes && proposed.nodes[inode] == prior.nodes[inode])
    && (forall inode | inode in prior.nodes && inode in proposed.nodes ::
          && prior.nodes[inode].stats.mode & 0xF000 == proposed.nodes[inode].stats.mode & 0xF000
          && prior.nodes[inode].stats.dev == proposed.nodes[inode].stats.dev
          && prior.nodes[inode].stats.birthtimeMs == proposed.nodes[inode].stats.birthtimeMs)
    && (forall inode: InodeId | inode !in prior.nodes ::
          inode in proposed.nodes <==> prior.nextInode <= inode < proposed.nextInode)
    && (forall inode | inode in proposed.nodes && inode !in prior.nodes :: inode in after)
    && (forall inode | inode in after && inode in prior.nodes :: inode in before)
  }

  // ---- Accepted changes are lawful ------------------------------------------

  lemma AcceptedIsLawful(prior: Namespace, proposed: Namespace, grant: DirectoryGrant)
    requires Publication(prior, proposed, grant) && AllocationContiguous(prior, proposed)
    ensures Lawful(prior, proposed, grant)
  {
    hide Valid, Claimable, AllocationContiguous, Subtree;
    AllocationIsInterval(prior, proposed);
    forall inode | inode in prior.nodes && inode !in Owned(prior, grant)
      ensures inode in proposed.nodes && proposed.nodes[inode] == prior.nodes[inode]
    {
      OutsideAuthorityUntouched(prior, proposed, grant, inode);
    }
    forall inode: InodeId | inode !in prior.nodes
      ensures inode in proposed.nodes <==> prior.nextInode <= inode < proposed.nextInode
    {
      assert inode in proposed.nodes <==> inode in Allocated(prior, proposed);
    }
    forall inode | inode in proposed.nodes && inode !in prior.nodes
      ensures inode in Subtree(proposed, grant.token.root)
    {
      assert !Unchanged(prior, proposed, inode);
    }
  }

  // ---- Lawful changes are accepted ------------------------------------------

  /** A link to a held inode comes from a held directory or from the new subtree. */
  lemma LawfulLink(prior: Namespace, proposed: Namespace, grant: DirectoryGrant, parent: InodeId, child: InodeId)
    requires Valid(prior) && Valid(proposed) && Claimable(proposed, grant.token.root)
    requires GrantValid(prior, grant.token.root, grant) && Lawful(prior, proposed, grant)
    requires child in Children(proposed, parent) && child in Owned(prior, grant)
    ensures child in Subtree(proposed, grant.token.root)
      || parent in Owned(prior, grant) || parent in Subtree(proposed, grant.token.root)
  {
    hide Valid, Subtree;
    var root := grant.token.root;
    var slot := ChildHasLink(proposed, parent, child);
    if parent in prior.nodes && parent !in Owned(prior, grant) {
      assert child in Children(prior, parent);
      if child in grant.orphans {
        assert IsOrphan(prior, child);
        OrphanIsUnreferenced(prior, child);
      } else if child != root {
        SealedParent(prior, root, parent, child);
      } else {
        SubtreeHoldsRoot(proposed, root);
      }
    }
  }

  /** What the grant holds and keeps linked is in the new subtree. */
  lemma LawfulNoEscape(prior: Namespace, proposed: Namespace, grant: DirectoryGrant, inode: InodeId)
    requires Valid(prior) && Valid(proposed) && Claimable(proposed, grant.token.root)
    requires GrantValid(prior, grant.token.root, grant) && Lawful(prior, proposed, grant)
    requires inode in Owned(prior, grant) && inode in proposed.nodes && proposed.nodes[inode].stats.nlink != 0
    ensures inode in Subtree(proposed, grant.token.root)
  {
    var root := grant.token.root;
    var held, after := Owned(prior, grant), Subtree(proposed, root);
    SubtreeClosed(proposed, root);
    if proposed.root in held {
      assert proposed.root in grant.orphans ==> IsOrphan(prior, proposed.root);
      RootOnlyUnderItself(prior, root);
    }
    hide Lawful, Owned, Subtree, Sealed;
    forall parent, child | child in Children(proposed, parent) && child in held
      ensures child in after || parent in held || parent in after
    {
      LawfulLink(prior, proposed, grant, parent, child);
    }
    LinkedIsRooted(proposed, inode);
    var depth := DepthOf(proposed, proposed.root, inode);
    WalkUp(proposed, held, after, inode, depth);
  }

  lemma LawfulDelta(prior: Namespace, proposed: Namespace, grant: DirectoryGrant)
    requires Valid(prior) && Valid(proposed) && Claimable(proposed, grant.token.root)
    requires GrantValid(prior, grant.token.root, grant) && Lawful(prior, proposed, grant)
    ensures SameHeader(prior, proposed) && DeltaAllowed(prior, proposed, grant)
  {
    hide Valid, Claimable, Subtree;
    var authority, after := Owned(prior, grant), Subtree(proposed, grant.token.root);
    forall inode | (inode in prior.nodes || inode in proposed.nodes) && !Unchanged(prior, proposed, inode)
      ensures ChangeAllowed(prior, proposed, authority, after, inode)
    {
      if inode in prior.nodes && inode in proposed.nodes && proposed.nodes[inode].stats.nlink != 0 {
        LawfulNoEscape(prior, proposed, grant, inode);
      }
    }
  }

  /** A strictly ascending list of exactly the numbers from `lo` to `hi` is that count. */
  lemma {:induction false} AscendingInterval(ids: seq<u64>, lo: u64, hi: u64, k: nat)
    requires lo <= hi && k < |ids|
    requires forall i, j | 0 <= i < j < |ids| :: ids[i] < ids[j]
    requires forall x: u64 :: x in ids <==> lo <= x < hi
    ensures ids[k] == lo + k
    decreases k
  {
    assert ids[k] in ids;
    if k > 0 { AscendingInterval(ids, lo, hi, k - 1); }
    assert forall i | 0 <= i < k :: ids[i] < lo + k;
    var x: u64 := lo + k;
    assert x in ids;
    var m :| 0 <= m < |ids| && ids[m] == x;
  }

  lemma IntervalLength(ids: seq<u64>, lo: u64, hi: u64)
    requires lo <= hi && forall k | 0 <= k < |ids| :: ids[k] == lo + k
    requires forall x: u64 :: x in ids <==> lo <= x < hi
    ensures |ids| == hi - lo
  {
    if |ids| > 0 { assert ids[|ids| - 1] in ids; }
    assert lo + |ids| !in ids;
  }

  lemma AllocatedInterval(prior: Namespace, proposed: Namespace)
    requires forall inode: InodeId | inode !in prior.nodes ::
      inode in proposed.nodes <==> prior.nextInode <= inode < proposed.nextInode
    requires forall inode | inode in prior.nodes :: inode < prior.nextInode
    ensures forall x: u64 :: x in Allocated(prior, proposed) <==> prior.nextInode <= x < proposed.nextInode
  {
  }

  lemma IntervalIsContiguous(prior: Namespace, proposed: Namespace)
    requires prior.nextInode <= proposed.nextInode
    requires forall inode: InodeId | inode !in prior.nodes ::
      inode in proposed.nodes <==> prior.nextInode <= inode < proposed.nextInode
    requires forall inode | inode in prior.nodes :: inode < prior.nextInode
    ensures AllocationContiguous(prior, proposed)
  {
    hide Ascending, Allocated;
    var lo, hi, ids := prior.nextInode, proposed.nextInode, Ascending(Allocated(prior, proposed));
    assert forall x: u64 :: x in ids <==> lo <= x < hi by { AllocatedInterval(prior, proposed); }
    forall k | 0 <= k < |ids| ensures ids[k] == lo + k { AscendingInterval(ids, lo, hi, k); }
    IntervalLength(ids, lo, hi);
  }

  lemma LawfulPasses(prior: Namespace, proposed: Namespace, grant: DirectoryGrant)
    requires Valid(prior) && Valid(proposed) && Claimable(proposed, grant.token.root)
    requires GrantValid(prior, grant.token.root, grant) && Lawful(prior, proposed, grant)
    ensures SameHeader(prior, proposed) && DeltaAllowed(prior, proposed, grant)
    ensures AllocationContiguous(prior, proposed)
  {
    LawfulDelta(prior, proposed, grant);
    IntervalIsContiguous(prior, proposed);
  }

  /** A publication is accepted exactly when the token is live, the proposal is valid with the
      directory still claimable, and the change is lawful; then the state moves only in the
      publisher's orphans, which become the unlinked inodes it holds. */
  lemma PublishAcceptedIff(st: State, prior: Namespace, proposed: Namespace, token: GrantToken)
    requires StateValid(st, prior)
    ensures PublishResult(st, prior, proposed, token).Ok? <==>
      && token.root in st.grants && st.grants[token.root].token == token
      && Valid(proposed) && Claimable(proposed, token.root)
      && Lawful(prior, proposed, st.grants[token.root])
    ensures PublishResult(st, prior, proposed, token).Ok? ==>
      var held := Subtree(prior, token.root) + st.grants[token.root].orphans;
      var orphans := set inode |
        inode in held && inode in proposed.nodes && proposed.nodes[inode].stats.nlink == 0;
      PublishResult(st, prior, proposed, token).value
        == st.(grants := st.grants[token.root := DirectoryGrant(token, orphans)])
  {
    hide Valid, Claimable, Lawful, DeltaAllowed, AllocationContiguous, ReceiptsValid, GrantsDisjoint;
    PublishIffChecks(st, prior, proposed, token);
    if TokenLive(st, token) && Valid(proposed) && Claimable(proposed, token.root) {
      assert GrantValid(prior, token.root, st.grants[token.root]);
      if Lawful(prior, proposed, st.grants[token.root]) {
        LawfulPasses(prior, proposed, st.grants[token.root]);
      }
      if PublishChecks(st, prior, proposed, token) {
        AcceptedIsLawful(prior, proposed, st.grants[token.root]);
      }
    }
  }
}
