/** src/delegation.rs as it runs: the worklist walk of `subtree` and the state whose
    methods update it in place, each tied to the step functions of `Authority`. */
module Delegation {
  import opened Base
  import opened Storage
  import opened Tree
  import opened Authority
  import opened Steps
  import Validator

  // ---- subtree --------------------------------------------------------------

  function InodesOf(entries: seq<DirectoryEntry>): (inodes: seq<InodeId>)
    ensures forall inode :: inode in inodes <==> inode in TargetsOf(entries)
  {
    var inodes := seq(|entries|, k requires 0 <= k < |entries| => entries[k].inode);
    assert forall inode | inode in TargetsOf(entries) :: inode in inodes by {
      forall inode | inode in TargetsOf(entries) ensures inode in inodes {
        var e :| e in entries && e.inode == inode;
        var k :| 0 <= k < |entries| && entries[k] == e;
        assert inodes[k] == inode;
      }
    }
    inodes
  }

  /** Found and waiting inodes of the walk: inside the subtree, holding its root, and
      together closed under entries. */
  ghost predicate SearchInvariant(ns: Namespace, root: InodeId, found: set<InodeId>, pending: seq<InodeId>) {
    && found <= Subtree(ns, root)
    && (forall inode | inode in pending :: inode in Subtree(ns, root))
    && (root in found || root in pending)
    && (forall inode, child | inode in found && child in Children(ns, inode) :: child in found || child in pending)
  }

  lemma SearchStep(ns: Namespace, root: InodeId, found: set<InodeId>, rest: seq<InodeId>, top: InodeId)
    requires IsDirectory(ns, root) && LinksResolve(ns)
    requires SearchInvariant(ns, root, found, rest + [top])
    ensures top in ns.nodes && top in Subtree(ns, root)
    ensures top in found ==> SearchInvariant(ns, root, found, rest)
    ensures SearchInvariant(ns, root, found + {top}, rest + InodesOf(EntriesOf(ns.nodes[top])))
  {
    SubtreeClosed(ns, root);
    assert top in rest + [top];
    assert forall x :: x in rest + [top] <==> x in rest || x == top;
  }

  lemma SearchEnd(ns: Namespace, root: InodeId, found: set<InodeId>)
    requires SearchInvariant(ns, root, found, [])
    ensures found == Subtree(ns, root)
  {
    SubtreeLeast(ns, root, found);
  }

  /** `subtree`: succeeds exactly on a sealed directory, with exactly what is reachable. */
  method ComputeSubtree(ns: Namespace, root: InodeId) returns (r: Result<set<InodeId>>)
    requires LinksResolve(ns)
    ensures r.Ok? <==> Claimable(ns, root)
    ensures r.Ok? ==> r.value == Subtree(ns, root)
  {
    if root !in ns.nodes || !ns.nodes[root].data.Directory? { return Err; }
    var found: set<InodeId> := {};
    var pending := [root];
    SearchStart(ns, root);
    while pending != []
      invariant SearchInvariant(ns, root, found, pending)
      decreases Subtree(ns, root) - found, |pending|
    {
      var top := pending[|pending| - 1];
      var rest := pending[..|pending| - 1];
      assert pending == rest + [top];
      SearchStep(ns, root, found, rest, top);
      pending := rest;
      if top !in found {
        found := found + {top};
        pending := rest + InodesOf(EntriesOf(ns.nodes[top]));
      }
    }
    SearchEnd(ns, root, found);
    var todo := ns.nodes.Keys;
    while todo != {}
      invariant todo <= ns.nodes.Keys
      invariant forall parent | parent in ns.nodes.Keys - todo && parent !in found ::
        forall child | child in Children(ns, parent) && child != root :: child !in found
      decreases todo
    {
      var parent :| parent in todo;
      todo := todo - {parent};
      if parent !in found && exists child | child in Children(ns, parent) :: child != root && child in found {
        return Err;
      }
    }
    return Ok(found);
  }

  lemma SearchStart(ns: Namespace, root: InodeId)
    requires IsDirectory(ns, root) && LinksResolve(ns)
    ensures SearchInvariant(ns, root, {}, [root])
  {
    SubtreeClosed(ns, root);
  }

  // ---- Token checks of validate ---------------------------------------------

  /** The sets that detect a reused fence or session identity. */
  datatype Register = Register(fences: set<u64>, identities: set<(InodeId, string)>)

  ghost predicate Registered(seen: set<GrantToken>, register: Register) {
    && (forall fence :: fence in register.fences <==> exists t :: t in seen && t.fence == fence)
    && (forall identity :: identity in register.identities <==>
          exists t :: t in seen && (t.root, t.owner) == identity)
  }

  /** The token clashes with nothing registered so far. */
  ghost predicate Admissible(seen: set<GrantToken>, token: GrantToken, nextFence: u64) {
    && TokenWellFormed(token, nextFence)
    && (forall t | t in seen :: !Clash(t, token))
  }

  method AdmitToken(ghost seen: set<GrantToken>, register: Register, token: GrantToken, nextFence: u64)
    returns (r: Outcome, register': Register)
    requires Registered(seen, register)
    ensures r.Pass? <==> Admissible(seen, token, nextFence)
    ensures r.Pass? ==> Registered(seen + {token}, register')
  {
    register' := register;
    if token.owner == "" || token.root == 0 || token.fence == 0 || token.fence >= nextFence { return Fail, register'; }
    if token.fence in register.fences { return Fail, register'; }
    if (token.root, token.owner) in register.identities { return Fail, register'; }
    register' := Register(register.fences + {token.fence}, register.identities + {(token.root, token.owner)});
    RegisterGrows(seen, register, token);
    r := Pass;
  }

  lemma RegisterGrows(seen: set<GrantToken>, register: Register, token: GrantToken)
    requires Registered(seen, register)
    ensures Registered(
        seen + {token},
        Register(register.fences + {token.fence}, register.identities + {(token.root, token.owner)}))
  {
  }

  function TokensOf(grants: map<InodeId, DirectoryGrant>, roots: set<InodeId>): set<GrantToken> {
    set root | root in roots && root in grants :: grants[root].token
  }

  /** Every token is well formed, and no two entries of the two tables share a fence or an identity. */
  predicate TokensAccepted(st: State) {
    && AllWellFormed(Tokens(st), st.nextFence)
    && IssuedOnce(Tokens(st))
    && (forall root | root in st.grants :: st.grants[root].token !in st.retired)
    && (forall a, b | a in st.grants && b in st.grants && a != b :: st.grants[a].token != st.grants[b].token)
  }

  /** What the token loop has established after `seen`. */
  ghost predicate SeenAccepted(st: State, seen: set<GrantToken>, roots: set<InodeId>) {
    && AllWellFormed(seen, st.nextFence)
    && IssuedOnce(seen)
    && (forall root | root in roots && root in st.grants ::
          st.grants[root].token in seen && st.grants[root].token !in st.retired)
    && (forall a, b | a in roots && b in roots && a in st.grants && b in st.grants && a != b ::
          st.grants[a].token != st.grants[b].token)
  }

  lemma ReceiptRefused(st: State, seen: set<GrantToken>, token: GrantToken)
    requires seen <= st.retired && token in st.retired && token !in seen
    requires !Admissible(seen, token, st.nextFence)
    ensures !TokensAccepted(st)
  {
    assert token in Tokens(st);
    if TokenWellFormed(token, st.nextFence) {
      var t :| t in seen && Clash(t, token);
      assert t in Tokens(st) && t != token;
    }
  }

  lemma GrantTokenRefused(st: State, roots: set<InodeId>, root: InodeId)
    requires roots <= st.grants.Keys && root in st.grants && root !in roots
    requires !Admissible(st.retired + TokensOf(st.grants, roots), st.grants[root].token, st.nextFence)
    ensures !TokensAccepted(st)
  {
    var token := st.grants[root].token;
    assert token in Tokens(st);
    if TokenWellFormed(token, st.nextFence) {
      var t :| t in st.retired + TokensOf(st.grants, roots) && Clash(t, token);
      assert t in Tokens(st);
    }
  }

  lemma SeenGrows(st: State, seen: set<GrantToken>, roots: set<InodeId>, token: GrantToken)
    requires SeenAccepted(st, seen, roots) && Admissible(seen, token, st.nextFence)
    ensures SeenAccepted(st, seen + {token}, roots)
  {
    IssuedOnceExtends(seen, token);
  }

  lemma SeenGrowsByGrant(st: State, seen: set<GrantToken>, roots: set<InodeId>, root: InodeId)
    requires SeenAccepted(st, seen, roots) && st.retired <= seen && root in st.grants
    requires Admissible(seen, st.grants[root].token, st.nextFence)
    ensures SeenAccepted(st, seen + {st.grants[root].token}, roots + {root})
  {
    SeenGrows(st, seen, roots, st.grants[root].token);
  }

  /** The token loop of `validate`: receipts first, then the live grants. */
  method ValidateTokens(st: State) returns (r: Outcome)
    ensures r.Pass? <==> TokensAccepted(st)
  {
    var register := Register({}, {});
    ghost var seen: set<GrantToken> := {};
    assert Registered(seen, register) && SeenAccepted(st, seen, {}) by { NothingSeen(st); }
    var receipts := st.retired;
    while receipts != {}
      invariant receipts <= st.retired && seen == st.retired - receipts
      invariant Registered(seen, register) && SeenAccepted(st, seen, {})
      decreases receipts
    {
      var token :| token in receipts;
      receipts := receipts - {token};
      r, register := AdmitToken(seen, register, token, st.nextFence);
      if r.Fail? {
        ReceiptRefused(st, seen, token);
        return;
      }
      SeenGrows(st, seen, {}, token);
      seen := seen + {token};
    }
    var todo := st.grants.Keys;
    ghost var roots: set<InodeId> := {};
    while todo != {}
      invariant todo <= st.grants.Keys && roots == st.grants.Keys - todo
      invariant seen == st.retired + TokensOf(st.grants, roots)
      invariant Registered(seen, register) && SeenAccepted(st, seen, roots)
      decreases todo
    {
      var root :| root in todo;
      todo := todo - {root};
      r, register := AdmitToken(seen, register, st.grants[root].token, st.nextFence);
      if r.Fail? {
        GrantTokenRefused(st, roots, root);
        return;
      }
      SeenGrowsByGrant(st, seen, roots, root);
      TokensOfGrows(st.grants, roots, root);
      seen, roots := seen + {st.grants[root].token}, roots + {root};
    }
    AllSeen(st, seen, roots);
    r := Pass;
  }

  lemma NothingSeen(st: State)
    ensures Registered({}, Register({}, {})) && SeenAccepted(st, {}, {})
  {
  }

  lemma TokensOfGrows(grants: map<InodeId, DirectoryGrant>, roots: set<InodeId>, root: InodeId)
    requires root in grants
    ensures TokensOf(grants, roots + {root}) == TokensOf(grants, roots) + {grants[root].token}
  {
  }

  lemma AllSeen(st: State, seen: set<GrantToken>, roots: set<InodeId>)
    requires roots == st.grants.Keys && seen == st.retired + TokensOf(st.grants, roots)
    requires SeenAccepted(st, seen, roots)
    ensures TokensAccepted(st)
  {
    assert seen == Tokens(st);
  }

  // ---- Ownership checks of validate -----------------------------------------

  /** `owned.insert` over a whole set: refused as soon as one inode is already owned. */
  method ClaimAll(owned: set<InodeId>, inodes: set<InodeId>) returns (r: Outcome, owned': set<InodeId>)
    ensures r.Pass? <==> owned !! inodes
    ensures r.Pass? ==> owned' == owned + inodes
  {
    owned' := owned;
    var todo := inodes;
    while todo != {}
      invariant todo <= inodes && owned !! inodes - todo && owned' == owned + (inodes - todo)
      decreases todo
    {
      var inode :| inode in todo;
      if inode in owned' { return Fail, owned'; }
      todo := todo - {inode};
      owned' := owned' + {inode};
    }
    r := Pass;
  }

  /** Processed grants are valid, pairwise disjoint, and their holdings are what is owned. */
  ghost predicate OwnershipInvariant(
      ns: Namespace, grants: map<InodeId, DirectoryGrant>, done: set<InodeId>, owned: set<InodeId>)
  {
    && (forall root | root in done && root in grants ::
          GrantValid(ns, root, grants[root]) && Owned(ns, grants[root]) <= owned)
    && (forall inode | inode in owned ::
          exists root :: root in done && root in grants && inode in Owned(ns, grants[root]))
    && (forall a, b | a in done && b in done && a in grants && b in grants && a != b ::
          Owned(ns, grants[a]) !! Owned(ns, grants[b]))
  }

  lemma OwnershipGrows(
      ns: Namespace, grants: map<InodeId, DirectoryGrant>, done: set<InodeId>, owned: set<InodeId>, root: InodeId)
    requires OwnershipInvariant(ns, grants, done, owned) && root in grants
    requires GrantValid(ns, root, grants[root]) && owned !! Owned(ns, grants[root])
    ensures OwnershipInvariant(ns, grants, done + {root}, owned + Owned(ns, grants[root]))
  {
    hide GrantValid, Owned;
    var done', owned' := done + {root}, owned + Owned(ns, grants[root]);
    forall inode | inode in owned'
      ensures exists r :: r in done' && r in grants && inode in Owned(ns, grants[r])
    {
      if inode in Owned(ns, grants[root]) {
        assert root in done';
      } else {
        var r :| r in done && r in grants && inode in Owned(ns, grants[r]);
        assert r in done';
      }
    }
  }

  lemma OverlapRefused(
      ns: Namespace, grants: map<InodeId, DirectoryGrant>, done: set<InodeId>, owned: set<InodeId>, root: InodeId)
    requires OwnershipInvariant(ns, grants, done, owned) && root in grants && root !in done
    requires !(owned !! Owned(ns, grants[root]))
    ensures !GrantsDisjoint(ns, grants)
  {
    hide GrantValid, Owned;
    var inode :| inode in owned && inode in Owned(ns, grants[root]);
    var other :| other in done && other in grants && inode in Owned(ns, grants[other]);
    assert !(Owned(ns, grants[other]) !! Owned(ns, grants[root]));
  }

  /** One grant: filed under its root, claimable, with genuine orphans, overlapping nothing. */
  method ValidateGrant(ns: Namespace, root: InodeId, grant: DirectoryGrant, owned: set<InodeId>)
    returns (r: Outcome, owned': set<InodeId>)
    requires Valid(ns)
    ensures r.Pass? <==> GrantValid(ns, root, grant) && owned !! Owned(ns, grant)
    ensures r.Pass? ==> owned' == owned + Owned(ns, grant)
  {
    owned' := owned;
    if root != grant.token.root { return Fail, owned'; }
    var linked := ComputeSubtree(ns, root);
    if linked.Err? { return Fail, owned'; }
    if exists inode | inode in grant.orphans :: !IsOrphan(ns, inode) { return Fail, owned'; }
    LinkedAvoidsOrphans(ns, root, grant);
    r, owned' := ClaimAll(owned, linked.value);
    if r.Fail? { return; }
    r, owned' := ClaimAll(owned', grant.orphans);
  }

  method ValidateGrants(ns: Namespace, grants: map<InodeId, DirectoryGrant>) returns (r: Outcome)
    requires Valid(ns)
    ensures r.Pass? <==> GrantsValid(ns, grants) && GrantsDisjoint(ns, grants)
  {
    hide Valid, OwnershipInvariant, GrantValid, Owned;
    var owned: set<InodeId> := {};
    var todo := grants.Keys;
    ghost var done: set<InodeId> := {};
    NothingOwned(ns, grants);
    while todo != {}
      invariant todo <= grants.Keys && done == grants.Keys - todo
      invariant OwnershipInvariant(ns, grants, done, owned)
      decreases todo
    {
      var root :| root in todo;
      todo := todo - {root};
      ghost var before := owned;
      r, owned := ValidateGrant(ns, root, grants[root], owned);
      if r.Fail? {
        if GrantValid(ns, root, grants[root]) {
          OverlapRefused(ns, grants, done, before, root);
        }
        return;
      }
      OwnershipGrows(ns, grants, done, before, root);
      done := done + {root};
    }
    AllOwned(ns, grants, done, owned);
    r := Pass;
  }

  lemma NothingOwned(ns: Namespace, grants: map<InodeId, DirectoryGrant>)
    ensures OwnershipInvariant(ns, grants, {}, {})
  {
  }

  lemma AllOwned(ns: Namespace, grants: map<InodeId, DirectoryGrant>, done: set<InodeId>, owned: set<InodeId>)
    requires done == grants.Keys && OwnershipInvariant(ns, grants, done, owned)
    ensures GrantsValid(ns, grants) && GrantsDisjoint(ns, grants)
  {
  }

  lemma ReceiptsAreTheChecks(st: State, ns: Namespace)
    requires GrantsValid(ns, st.grants)
    ensures ReceiptsValid(st) <==>
      && BackingValid(st.backing) && st.nextFence != 0
      && |st.grants| + |st.retired| <= MAX_DELEGATION_IDENTITIES && TokensAccepted(st)
  {
    assert forall root | root in st.grants :: GrantValid(ns, root, st.grants[root]);
    if ReceiptsValid(st) {
      assert GrantsFiled(st);
    }
  }

  lemma FiledTokensAccepted(st: State)
    requires ReceiptsValid(st)
    ensures TokensAccepted(st)
  {
    assert GrantsFiled(st);
  }

  // ---- Publication checks ---------------------------------------------------

  /** The comparison of `authorize_publish` over every inode of either namespace. */
  method CompareNamespaces(
      prior: Namespace, proposed: Namespace, authority: set<InodeId>, after: set<InodeId>) returns (r: Outcome)
    ensures r.Pass? <==> DiffAllowed(prior, proposed, authority, after)
  {
    var todo := prior.nodes.Keys + proposed.nodes.Keys;
    while todo != {}
      invariant todo <= prior.nodes.Keys + proposed.nodes.Keys
      invariant forall inode | inode in prior.nodes.Keys + proposed.nodes.Keys - todo ::
        Unchanged(prior, proposed, inode) || ChangeAllowed(prior, proposed, authority, after, inode)
      decreases todo
    {
      var inode :| inode in todo;
      todo := todo - {inode};
      if Unchanged(prior, proposed, inode) { continue; }
      if inode in prior.nodes {
        if inode in proposed.nodes && !SameIdentity(prior.nodes[inode].stats, proposed.nodes[inode].stats) {
          return Fail;
        }
        if inode !in authority { return Fail; }
        if inode in proposed.nodes && proposed.nodes[inode].stats.nlink != 0 && inode !in after { return Fail; }
      } else if inode < prior.nextInode || inode !in after {
        return Fail;
      }
    }
    return Pass;
  }

  /** New ids must continue the allocator one by one. */
  method CheckAllocation(prior: Namespace, proposed: Namespace) returns (r: Outcome)
    ensures r.Pass? <==> AllocationContiguous(prior, proposed)
  {
    hide Ascending, Allocated;
    var ids := Ascending(Allocated(prior, proposed));
    if prior.nextInode + |ids| > U64_MAX { return Fail; }
    for offset := 0 to |ids|
      invariant forall k | 0 <= k < offset :: ids[k] == prior.nextInode + k
    {
      if ids[offset] != prior.nextInode + offset { return Fail; }
    }
    return if proposed.nextInode != prior.nextInode + |ids| then Fail else Pass;
  }

  method CheckForeignLinks(prior: Namespace, before: set<InodeId>, after: set<InodeId>) returns (r: Outcome)
    ensures r.Pass? <==> NoForeignLinks(prior, before, after)
  {
    var todo := after;
    while todo != {}
      invariant todo <= after
      invariant forall inode | inode in after - todo && inode in prior.nodes :: inode in before
      decreases todo
    {
      var inode :| inode in todo;
      todo := todo - {inode};
      if inode in prior.nodes && inode !in before { return Fail; }
    }
    return Pass;
  }

  // ---- The state ------------------------------------------------------------

  class DelegationState {
    var backing: BackingId
    var nextFence: u64
    var grants: map<InodeId, DirectoryGrant>
    var retired: set<GrantToken>

    function Value(): State
      reads this
    {
      State(backing, nextFence, grants, retired)
    }

    constructor (backing: BackingId)
      ensures Value() == Initial(backing)
    {
      this.backing, nextFence, grants, retired := backing, 1, map[], {};
    }

    constructor Clone(st: State)
      ensures Value() == st
    {
      backing, nextFence, grants, retired := st.backing, st.nextFence, st.grants, st.retired;
    }

    method Validate(ns: Namespace) returns (r: Outcome)
      ensures r.Pass? <==> StateValid(Value(), ns)
    {
      r := Validator.Validate(ns);
      if r.Fail? { return; }
      if (forall k | 0 <= k < 16 :: backing[k] == 0)
         || nextFence == 0 || |grants| + |retired| > MAX_DELEGATION_IDENTITIES
      {
        ReceiptsNeedCapacity(Value());
        return Fail;
      }
      r := ValidateTokens(Value());
      if r.Fail? {
        if ReceiptsValid(Value()) { FiledTokensAccepted(Value()); }
        return;
      }
      r := ValidateGrants(ns, grants);
      if r.Pass? { ReceiptsAreTheChecks(Value(), ns); }
    }

    method Checkout(ns: Namespace, root: InodeId, owner: string) returns (r: Result<DirectoryGrant>)
      modifies this
      ensures match CheckoutResult(old(Value()), ns, root, owner)
        case Ok((st, grant)) => r == Ok(grant) && Value() == st
        case Err => r.Err? && Value() == old(Value())
    {
      hide Valid, ReceiptsValid, GrantsDisjoint, Sealed;
      var valid := Validate(ns);
      if valid.Fail? { return Err; }
      if owner == "" { return Err; }
      if root in grants {
        return if grants[root].token.owner == owner then Ok(grants[root]) else Err;
      }
      if exists t | t in retired :: t.root == root && t.owner == owner { return Err; }
      if |grants| + |retired| >= MAX_DELEGATION_IDENTITIES { return Err; }
      if nextFence == U64_MAX { return Err; }
      NamespaceResolves(ns);
      var claimed := ComputeSubtree(ns, root);
      if claimed.Err? { return Err; }
      var todo := grants.Keys;
      while todo != {}
        invariant todo <= grants.Keys && Value() == old(Value())
        invariant forall other | other in grants.Keys - todo :: claimed.value !! Subtree(ns, other)
        decreases todo
      {
        var other :| other in todo;
        todo := todo - {other};
        assert GrantValid(ns, other, grants[other]);
        var held := ComputeSubtree(ns, grants[other].token.root);
        if held.Err? || !(claimed.value !! held.value) { return Err; }
      }
      var grant := DirectoryGrant(GrantToken(root, owner, nextFence), {});
      grants := grants[root := grant];
      nextFence := nextFence + 1;
      return Ok(grant);
    }

    /** Every check first, then the candidate, then its validation, then the swap. */
    method AuthorizePublish(prior: Namespace, proposed: Namespace, token: GrantToken) returns (r: Outcome)
      modifies this
      ensures match PublishResult(old(Value()), prior, proposed, token)
        case Ok(st) => r.Pass? && Value() == st
        case Err => r.Fail? && Value() == old(Value())
    {
      hide Valid, ReceiptsValid, GrantsDisjoint, Sealed, DiffAllowed, NoForeignLinks, AllocationContiguous, GrantsValid;
      r := Validate(prior);
      if r.Fail? { return; }
      r := Validator.Validate(proposed);
      if r.Fail? { return; }
      if token.root !in grants || grants[token.root].token != token { return Fail; }
      var grant := grants[token.root];
      if !SameHeader(prior, proposed) { return Fail; }
      NamespaceResolves(prior);
      NamespaceResolves(proposed);
      LiveGrantClaimable(Value(), prior, token);
      var before := ComputeSubtree(prior, token.root);
      if before.Err? { return Fail; }
      var after := ComputeSubtree(proposed, token.root);
      if after.Err? { return Fail; }
      var authority := before.value + grant.orphans;
      r := CheckForeignLinks(prior, before.value, after.value);
      if r.Fail? { return; }
      r := CompareNamespaces(prior, proposed, authority, after.value);
      if r.Fail? { return; }
      r := CheckAllocation(prior, proposed);
      if r.Fail? { return; }
      assert PublishChecks(Value(), prior, proposed, token);
      var orphans := set inode |
        inode in authority && inode in proposed.nodes && proposed.nodes[inode].stats.nlink == 0;
      var candidate := new DelegationState.Clone(Value());
      candidate.grants := candidate.grants[token.root := grant.(orphans := orphans)];
      assert candidate.Value() == Candidate(Value(), prior, proposed, token);
      r := candidate.Validate(proposed);
      if r.Fail? { return; }
      backing, nextFence, grants, retired :=
        candidate.backing, candidate.nextFence, candidate.grants, candidate.retired;
    }

    method Checkin(token: GrantToken, ns: Namespace) returns (r: Outcome)
      modifies this
      ensures match CheckinResult(old(Value()), token, ns)
        case Ok(st) => r.Pass? && Value() == st
        case Err => r.Fail? && Value() == old(Value())
    {
      hide StateValid;
      r := Validate(ns);
      if r.Fail? { return; }
      if token in retired { return Pass; }
      if token.root !in grants || grants[token.root].token != token { return Fail; }
      if grants[token.root].orphans != {} { return Fail; }
      grants := grants - {token.root};
      retired := retired + {token};
    }

    /** `recover` overwrites the namespace it is given; the overwritten value is returned. */
    method Recover(root: InodeId, expectedFence: u64, ns: Namespace) returns (r: Outcome, ns': Namespace)
      modifies this
      ensures match RecoverResult(old(Value()), root, expectedFence, ns)
        case Ok((st, pruned)) => r.Pass? && Value() == st && ns' == pruned
        case Err => r.Fail? && Value() == old(Value()) && ns' == ns
    {
      hide StateValid, Valid;
      ns' := ns;
      r := Validate(ns);
      if r.Fail? { return; }
      if root in grants && grants[root].token.fence != expectedFence { return Fail, ns; }
      if exists t | t in retired :: t.root == root && t.fence == expectedFence { return Pass, ns; }
      if root !in grants { return Fail, ns; }
      var grant := grants[root];
      var nodes := ns.nodes;
      var todo := grant.orphans;
      while todo != {}
        invariant todo <= grant.orphans && nodes == ns.nodes - (grant.orphans - todo)
        invariant Value() == old(Value())
        decreases todo
      {
        var inode :| inode in todo;
        todo := todo - {inode};
        nodes := nodes - {inode};
      }
      var candidate := ns.(nodes := nodes);
      assert grant.orphans - todo == grant.orphans;
      r := Validator.Validate(candidate);
      if r.Fail? { return; }
      LiveRootFiled(Value(), ns, root);
      grants := grants - {root};
      retired := retired + {grant.token};
      ns' := candidate;
    }
  }

  lemma ReceiptsNeedCapacity(st: State)
    ensures ReceiptsValid(st) ==>
      BackingValid(st.backing) && st.nextFence != 0 && |st.grants| + |st.retired| <= MAX_DELEGATION_IDENTITIES
  {
  }

  lemma NamespaceResolves(ns: Namespace)
    requires Valid(ns)
    ensures LinksResolve(ns)
  {
  }

  lemma LiveGrantClaimable(st: State, ns: Namespace, token: GrantToken)
    requires StateValid(st, ns) && TokenLive(st, token)
    ensures Claimable(ns, token.root)
  {
    assert GrantValid(ns, token.root, st.grants[token.root]);
  }
}
