/** Each protocol step on its own: what it keeps, when it is refused, what it undoes. */
module Steps {
  import opened Base
  import opened Storage
  import opened Tree
  import opened Authority
  import opened Safety

  // ---- Checkout -------------------------------------------------------------

  /** Linked inodes never meet orphans, so comparing subtrees compares whole holdings. */
  lemma LinkedAvoidsOrphans(ns: Namespace, root: InodeId, grant: DirectoryGrant)
    requires Valid(ns) && IsDirectory(ns, root)
    requires forall inode | inode in grant.orphans :: IsOrphan(ns, inode)
    ensures Subtree(ns, root) !! grant.orphans
  {
    forall inode | inode in grant.orphans ensures inode !in Subtree(ns, root) {
      OrphanIsUnreferenced(ns, inode);
    }
  }

  /** A fresh identity is granted exactly when the directory is claimable, capacity and
      fences remain, the identity was never retired, and no grant is above or below it. */
  lemma CheckoutRefusal(st: State, ns: Namespace, root: InodeId, owner: string)
    requires StateValid(st, ns) && root !in st.grants
    ensures CheckoutResult(st, ns, root, owner).Ok? <==>
      && owner != ""
      && (forall t | t in st.retired :: t.root != root || t.owner != owner)
      && |st.grants| + |st.retired| < 4096
      && st.nextFence < U64_MAX
      && Claimable(ns, root)
      && (forall other | other in st.grants :: root !in Subtree(ns, other) && other !in Subtree(ns, root))
  {
    hide ReceiptsValid, GrantsDisjoint, Sealed, Subtree, DirectoryCountsValid, FileCountsValid, DirectoriesRooted;
    if Claimable(ns, root) {
      forall other | other in st.grants
        ensures Subtree(ns, root) !! Subtree(ns, other)
          <==> root !in Subtree(ns, other) && other !in Subtree(ns, root)
      {
        assert GrantValid(ns, other, st.grants[other]);
        SubtreesMeetIffNested(ns, root, other);
      }
    }
  }

  /** A directory that is already held is given to its holder again, unchanged, and to nobody else. */
  lemma LiveRootCheckout(st: State, ns: Namespace, root: InodeId, owner: string)
    requires StateValid(st, ns) && root in st.grants
    ensures CheckoutResult(st, ns, root, owner) ==
      if owner == st.grants[root].token.owner then Ok((st, st.grants[root])) else Err
  {
    hide Valid, GrantsValid, GrantsDisjoint;
    assert st.grants[root].token in Tokens(st) && TokenWellFormed(st.grants[root].token, st.nextFence);
  }

  /** Whoever is granted a directory gets a token for that directory in their own name, and it
      is live afterwards; nothing else in the state moves, except the fence for a new grant. */
  lemma CheckoutGrantsOwner(st: State, ns: Namespace, root: InodeId, owner: string)
    requires CheckoutResult(st, ns, root, owner).Ok?
    ensures
      var (st', grant) := CheckoutResult(st, ns, root, owner).value;
      && grant.token.root == root && grant.token.owner == owner
      && root in st'.grants && st'.grants[root] == grant
      && (if root in st.grants then st' == st
          else
            && grant.token.fence == st.nextFence && grant.orphans == {}
            && st' == st.(grants := st.grants[root := grant], nextFence := st'.nextFence)
            && st'.nextFence == st.nextFence + 1)
  {
    hide StateValid, CheckoutAllowed;
    if root in st.grants {
      LiveRootFiled(st, ns, root);
    } else {
      RoomForOneMore(st, ns, root, owner);
    }
  }

  lemma LiveRootFiled(st: State, ns: Namespace, root: InodeId)
    requires StateValid(st, ns) && root in st.grants
    ensures st.grants[root].token.root == root
  {
    assert GrantsFiled(st);
  }

  lemma RoomForOneMore(st: State, ns: Namespace, root: InodeId, owner: string)
    requires CheckoutAllowed(st, ns, root, owner)
    ensures st.nextFence < U64_MAX
  {
  }

  lemma IssuedTokens(st: State, grant: DirectoryGrant)
    requires st.nextFence < U64_MAX && grant.token.root !in st.grants
    ensures Tokens(Issue(st, grant)) == Tokens(st) + {grant.token}
    ensures |Issue(st, grant).grants| == |st.grants| + 1
  {
    var st' := Issue(st, grant);
    assert st'.grants.Keys == st.grants.Keys + {grant.token.root};
    assert |st'.grants| == |st'.grants.Keys| && |st.grants| == |st.grants.Keys|;
    assert forall root | root in st.grants :: st'.grants[root] == st.grants[root];
    assert st'.grants[grant.token.root] == grant;
  }

  lemma IssuedOnceExtends(tokens: set<GrantToken>, token: GrantToken)
    requires IssuedOnce(tokens)
    requires forall t | t in tokens :: !Clash(t, token)
    ensures IssuedOnce(tokens + {token})
  {
  }

  /** Every token on file names an owner and a root, and its fence is one of those issued. */
  lemma TokensOnFile(st: State, ns: Namespace)
    requires StateValid(st, ns)
    ensures forall token | token in st.retired ::
      token.owner != "" && token.root != 0 && 1 <= token.fence < st.nextFence
    ensures forall root | root in st.grants ::
      var token := st.grants[root].token;
      token.owner != "" && token.root == root != 0 && 1 <= token.fence < st.nextFence
  {
    hide Valid, GrantsValid, GrantsDisjoint;
    assert forall token | token in Tokens(st) :: TokenWellFormed(token, st.nextFence);
    assert forall root | root in st.grants :: st.grants[root].token in Tokens(st);
  }

  /** A token with the next fence and an unused identity clashes with nothing issued. */
  lemma FreshToken(st: State, token: GrantToken)
    requires ReceiptsValid(st) && token.root !in st.grants && token.fence == st.nextFence
    requires !IdentityRetired(st, token.root, token.owner)
    ensures forall t | t in Tokens(st) :: !Clash(t, token)
    ensures token !in Tokens(st) && token !in st.retired
  {
    forall t | t in Tokens(st) ensures !Clash(t, token) {
      assert TokenWellFormed(t, st.nextFence);
      if t !in st.retired {
        var root :| root in st.grants && st.grants[root].token == t;
      }
    }
    assert Clash(token, token);
  }

  lemma IssuedReceiptsValid(st: State, grant: DirectoryGrant)
    requires ReceiptsValid(st) && st.nextFence < U64_MAX
    requires |st.grants| + |st.retired| < MAX_DELEGATION_IDENTITIES
    requires grant.token.root !in st.grants && grant.token.root != 0 && grant.token.owner != ""
    requires grant.token.fence == st.nextFence
    requires !IdentityRetired(st, grant.token.root, grant.token.owner)
    ensures ReceiptsValid(Issue(st, grant))
  {
    IssuedTokens(st, grant);
    FreshToken(st, grant.token);
    IssuedOnceExtends(Tokens(st), grant.token);
    forall t | t in Tokens(st) ensures TokenWellFormed(t, st.nextFence + 1) {
      assert TokenWellFormed(t, st.nextFence);
    }
  }

  lemma ClaimedGrantsValid(ns: Namespace, grants: map<InodeId, DirectoryGrant>, grant: DirectoryGrant)
    requires Valid(ns) && GrantsDisjoint(ns, grants)
    requires GrantsValid(ns, grants)
    requires Claimable(ns, grant.token.root) && grant.orphans == {}
    requires forall root | root in grants :: Subtree(ns, grant.token.root) !! Subtree(ns, root)
    ensures GrantsValid(ns, grants[grant.token.root := grant])
    ensures GrantsDisjoint(ns, grants[grant.token.root := grant])
  {
    hide Valid, Sealed, Subtree;
    forall root | root in grants ensures Owned(ns, grant) !! Owned(ns, grants[root]) {
      assert GrantValid(ns, root, grants[root]);
      LinkedAvoidsOrphans(ns, grant.token.root, grants[root]);
    }
    ReplacementDisjoint(ns, ns, grants, grant.token.root, grant);
  }

  lemma FreshCheckoutPreserves(st: State, ns: Namespace, root: InodeId, owner: string)
    requires StateValid(st, ns) && root !in st.grants && owner != ""
    requires CheckoutAllowed(st, ns, root, owner)
    ensures StateValid(Issue(st, FreshGrant(st, root, owner)), ns)
  {
    var grant := FreshGrant(st, root, owner);
    IssuedReceiptsValid(st, grant);
    ClaimedGrantsValid(ns, st.grants, grant);
  }

  lemma CheckoutPreserves(st: State, ns: Namespace, root: InodeId, owner: string)
    requires CheckoutResult(st, ns, root, owner).Ok?
    ensures StateValid(CheckoutResult(st, ns, root, owner).value.0, ns)
  {
    if root !in st.grants {
      FreshCheckoutPreserves(st, ns, root, owner);
    }
  }

  // ---- Publication ----------------------------------------------------------

  /** A publication is accepted exactly when its checks pass. */
  lemma PublishIffChecks(st: State, prior: Namespace, proposed: Namespace, token: GrantToken)
    ensures PublishResult(st, prior, proposed, token).Ok? <==> PublishChecks(st, prior, proposed, token)
    ensures PublishChecks(st, prior, proposed, token) ==>
      && PublishResult(st, prior, proposed, token) == Ok(Candidate(st, prior, proposed, token))
      && StateValid(Candidate(st, prior, proposed, token), proposed)
  {
    if PublishChecks(st, prior, proposed, token) {
      ClosingValidationRedundant(st, prior, proposed, token);
    }
  }

  /** The ids a publication adds are exactly the interval the allocator moved over. */
  lemma AllocationIsInterval(prior: Namespace, proposed: Namespace)
    requires AllocationContiguous(prior, proposed)
    ensures forall inode: InodeId ::
      inode in Allocated(prior, proposed) <==> prior.nextInode <= inode < proposed.nextInode
  {
    hide Ascending;
    var ids := Ascending(Allocated(prior, proposed));
    forall inode: InodeId | prior.nextInode <= inode < proposed.nextInode ensures inode in ids {
      assert ids[inode - prior.nextInode] == inode;
    }
  }

  // ---- Retiring a grant -----------------------------------------------------

  lemma RetiredSizes(st: State, token: GrantToken)
    requires GrantsFiled(st) && TokenLive(st, token)
    ensures |Retire(st, token).grants| == |st.grants| - 1
    ensures |Retire(st, token).retired| == |st.retired| + 1
  {
    var st' := Retire(st, token);
    assert st'.grants.Keys == st.grants.Keys - {token.root};
    assert |st'.grants| == |st'.grants.Keys| && |st.grants| == |st.grants.Keys|;
  }

  lemma RetiredTokens(st: State, token: GrantToken)
    requires TokenLive(st, token)
    ensures Tokens(Retire(st, token)) == Tokens(st)
  {
    var st' := Retire(st, token);
    var live := set root | root in st.grants :: st.grants[root].token;
    var live' := set root | root in st'.grants :: st'.grants[root].token;
    forall t | t in live ensures t in live' + {token} {
      var root :| root in st.grants && st.grants[root].token == t;
      if root != token.root { assert root in st'.grants; }
    }
    forall t | t in live' + {token} ensures t in live {
      var root :| root in st.grants && st.grants[root].token == t;
    }
    assert live' + {token} == live;
  }

  lemma RetiredReceiptsValid(st: State, token: GrantToken)
    requires ReceiptsValid(st) && TokenLive(st, token)
    ensures ReceiptsValid(Retire(st, token))
  {
    RetiredSizes(st, token);
    RetiredTokens(st, token);
  }

  lemma CheckinPreserves(st: State, token: GrantToken, ns: Namespace)
    requires CheckinResult(st, token, ns).Ok?
    ensures StateValid(CheckinResult(st, token, ns).value, ns)
  {
    if token !in st.retired {
      RetiredReceiptsValid(st, token);
    }
  }

  /** A token is checked in exactly when it is already retired, which changes nothing, or live
      without orphans, which moves it from the grants to the receipts and leaves the rest. */
  lemma CheckinExact(st: State, token: GrantToken, ns: Namespace)
    requires StateValid(st, ns)
    ensures CheckinResult(st, token, ns).Ok? <==>
      || token in st.retired
      || (token.root in st.grants && st.grants[token.root] == DirectoryGrant(token, {}))
    ensures token in st.retired ==> CheckinResult(st, token, ns) == Ok(st)
    ensures CheckinResult(st, token, ns).Ok? && token !in st.retired ==>
      var st' := CheckinResult(st, token, ns).value;
      && st'.retired == st.retired + {token} && st'.nextFence == st.nextFence && st'.backing == st.backing
      && token.root !in st'.grants && st'.grants.Keys == st.grants.Keys - {token.root}
      && (forall root | root in st'.grants :: st'.grants[root] == st.grants[root])
      && CheckinResult(st', token, ns) == Ok(st')
  {
    hide StateValid;
    if CheckinResult(st, token, ns).Ok? { CheckinPreserves(st, token, ns); }
  }

  // ---- Recovery -------------------------------------------------------------

  /** Dropping orphans leaves every slot, link and subtree as it was. */
  lemma PruneFrame(ns: Namespace, orphans: set<InodeId>)
    requires Valid(ns) && forall inode | inode in orphans :: IsOrphan(ns, inode)
    ensures var ns' := WithoutNodes(ns, orphans);
      && Slots(ns') == Slots(ns)
      && (forall slot | slot in Slots(ns) :: EntryAt(ns', slot) == EntryAt(ns, slot))
      && (forall inode :: Links(ns', inode) == Links(ns, inode))
      && (forall inode :: Children(ns', inode) == Children(ns, inode))
  {
    var ns' := WithoutNodes(ns, orphans);
    forall slot | slot in Slots(ns) ensures slot in Slots(ns') && EntryAt(ns', slot) == EntryAt(ns, slot) {
      assert IsDirectory(ns, slot.0);
    }
    assert Slots(ns') == Slots(ns);
  }

  lemma PruneLinksResolve(ns: Namespace, orphans: set<InodeId>)
    requires Valid(ns) && forall inode | inode in orphans :: IsOrphan(ns, inode)
    ensures LinksResolve(WithoutNodes(ns, orphans))
  {
    var ns' := WithoutNodes(ns, orphans);
    PruneFrame(ns, orphans);
    forall slot | slot in Slots(ns') ensures EntryAt(ns', slot).inode in ns'.nodes {
      var inode := EntryAt(ns, slot).inode;
      LinkIsChild(ns, slot, inode);
      if inode in orphans { OrphanIsUnreferenced(ns, inode); }
    }
  }

  lemma PruneSubtrees(ns: Namespace, orphans: set<InodeId>, root: InodeId)
    requires Valid(ns) && forall inode | inode in orphans :: IsOrphan(ns, inode)
    requires IsDirectory(ns, root)
    ensures Subtree(WithoutNodes(ns, orphans), root) == Subtree(ns, root)
  {
    PruneFrame(ns, orphans);
    PruneLinksResolve(ns, orphans);
    forall inode | inode in Subtree(ns, root) ensures inode in WithoutNodes(ns, orphans).nodes {
      if inode in orphans { OrphanIsUnreferenced(ns, inode); }
    }
    SubtreeFrame(ns, WithoutNodes(ns, orphans), root);
  }

  /** A namespace stays valid without its orphans, because nothing refers to them. */
  lemma PruneValid(ns: Namespace, orphans: set<InodeId>)
    requires Valid(ns) && forall inode | inode in orphans :: IsOrphan(ns, inode)
    ensures Valid(WithoutNodes(ns, orphans))
  {
    var ns' := WithoutNodes(ns, orphans);
    PruneFrame(ns, orphans);
    PruneLinksResolve(ns, orphans);
    PruneSubtrees(ns, orphans, ns.root);
    forall inode | IsDirectory(ns', inode)
      ensures ChildDirectories(ns', inode) == ChildDirectories(ns, inode)
    {
      forall slot | slot in Slots(ns) && slot.0 == inode
        ensures IsDirectory(ns', EntryAt(ns, slot).inode) <==> IsDirectory(ns, EntryAt(ns, slot).inode)
      {
        assert EntryAt(ns', slot).inode in ns'.nodes;
      }
    }
  }

  /** A grant that owns none of the dropped orphans is as valid as before. */
  lemma PruneKeepsGrant(ns: Namespace, orphans: set<InodeId>, root: InodeId, grant: DirectoryGrant)
    requires Valid(ns) && forall inode | inode in orphans :: IsOrphan(ns, inode)
    requires GrantValid(ns, root, grant) && grant.orphans !! orphans
    ensures GrantValid(WithoutNodes(ns, orphans), root, grant)
    ensures Owned(WithoutNodes(ns, orphans), grant) == Owned(ns, grant)
  {
    PruneSubtrees(ns, orphans, root);
    PruneFrame(ns, orphans);
  }

  lemma PruneKeepsGrants(ns: Namespace, grants: map<InodeId, DirectoryGrant>, root: InodeId)
    requires Valid(ns) && GrantsValid(ns, grants) && GrantsDisjoint(ns, grants) && root in grants
    ensures GrantsValid(WithoutNodes(ns, grants[root].orphans), grants - {root})
    ensures GrantsDisjoint(WithoutNodes(ns, grants[root].orphans), grants - {root})
  {
    var orphans := grants[root].orphans;
    assert GrantValid(ns, root, grants[root]);
    forall r | r in grants && r != root
      ensures GrantValid(WithoutNodes(ns, orphans), r, grants[r])
      ensures Owned(WithoutNodes(ns, orphans), grants[r]) == Owned(ns, grants[r])
    {
      assert GrantValid(ns, r, grants[r]);
      assert Owned(ns, grants[root]) !! Owned(ns, grants[r]);
      PruneKeepsGrant(ns, orphans, r, grants[r]);
    }
  }

  /** A live grant's fence is not among the receipts. */
  lemma LiveFenceNotRetired(st: State, root: InodeId)
    requires ReceiptsValid(st) && root in st.grants
    ensures !FenceRetired(st, root, st.grants[root].token.fence)
  {
    var token := st.grants[root].token;
    forall t | t in st.retired && t.fence == token.fence ensures false {
      assert Clash(t, token) && t in Tokens(st) && token in Tokens(st);
    }
  }

  /** Recovery with the live fence always succeeds, removes exactly the grant's orphans,
      leaves a valid state, and repeating it changes nothing. */
  lemma RecoveryTotalAndIdempotent(st: State, root: InodeId, ns: Namespace)
    requires StateValid(st, ns) && root in st.grants
    ensures
      var grant := st.grants[root];
      var st', ns' := Retire(st, grant.token), WithoutNodes(ns, grant.orphans);
      && RecoverResult(st, root, grant.token.fence, ns) == Ok((st', ns'))
      && StateValid(st', ns')
      && RecoverResult(st', root, grant.token.fence, ns') == Ok((st', ns'))
  {
    var grant := st.grants[root];
    var st', ns' := Retire(st, grant.token), WithoutNodes(ns, grant.orphans);
    assert GrantValid(ns, root, grant);
    LiveFenceNotRetired(st, root);
    PruneValid(ns, grant.orphans);
    PruneKeepsGrants(ns, st.grants, root);
    RetiredReceiptsValid(st, grant.token);
    assert grant.token in st'.retired;
  }

  lemma RecoverPreserves(st: State, root: InodeId, fence: u64, ns: Namespace)
    requires RecoverResult(st, root, fence, ns).Ok?
    ensures StateValid(RecoverResult(st, root, fence, ns).value.0, RecoverResult(st, root, fence, ns).value.1)
  {
    if !FenceRetired(st, root, fence) {
      RecoveryTotalAndIdempotent(st, root, ns);
    }
  }

  /** Recovery succeeds exactly with the fence of the live grant, or, where no grant is live,
      with the fence of a receipt for that directory; the latter changes nothing. */
  lemma RecoverExact(st: State, root: InodeId, fence: u64, ns: Namespace)
    requires StateValid(st, ns)
    ensures RecoverResult(st, root, fence, ns).Ok? <==>
      if root in st.grants then st.grants[root].token.fence == fence
      else exists t | t in st.retired :: t.root == root && t.fence == fence
    ensures RecoverResult(st, root, fence, ns).Ok? && root !in st.grants ==>
      RecoverResult(st, root, fence, ns) == Ok((st, ns))
    ensures RecoverResult(st, root, fence, ns).Ok? && root in st.grants ==>
      var (st', ns') := RecoverResult(st, root, fence, ns).value;
      && root !in st'.grants && st'.grants.Keys == st.grants.Keys - {root}
      && (forall other | other in st'.grants :: st'.grants[other] == st.grants[other])
      && st'.retired == st.retired + {st.grants[root].token}
      && st'.nextFence == st.nextFence && st'.backing == st.backing
      && ns' == ns.(nodes := ns.nodes - st.grants[root].orphans)
  {
    hide Valid, Claimable, GrantsDisjoint, GrantsValid;
    if root in st.grants {
      assert GrantsFiled(st);
      if st.grants[root].token.fence == fence { RecoveryTotalAndIdempotent(st, root, ns); }
    }
  }
}
