/** The persisted authority of src/delegation.rs as a value, what it means for it to be
    valid, and what each protocol step does to it. */
module Authority {
  import opened Base
  import opened Storage
  import opened Tree

  const MAX_DELEGATION_IDENTITIES := 4096

  type BackingId = bytes: seq<bv8> | |bytes| == 16 witness seq(16, _ => 0)

  datatype GrantToken = GrantToken(root: InodeId, owner: string, fence: u64)
  datatype DirectoryGrant = DirectoryGrant(token: GrantToken, orphans: set<InodeId>)

  datatype State = State(
    backing: BackingId, nextFence: u64,
    grants: map<InodeId, DirectoryGrant>, retired: set<GrantToken>)

  predicate BackingValid(backing: BackingId) {
    exists k | 0 <= k < 16 :: backing[k] != 0
  }

  function Initial(backing: BackingId): State {
    State(backing, 1, map[], {})
  }

  // ---- Validity -------------------------------------------------------------

  /** Every token ever issued: the receipts and the live grants' tokens. */
  function Tokens(st: State): set<GrantToken> {
    st.retired + set root | root in st.grants :: st.grants[root].token
  }

  predicate TokenWellFormed(token: GrantToken, nextFence: u64) {
    token.owner != "" && token.root != 0 && 0 < token.fence < nextFence
  }

  /** The tokens carry the same fence, or the same session identity (root, owner). */
  predicate Clash(t: GrantToken, u: GrantToken) {
    t.fence == u.fence || (t.root == u.root && t.owner == u.owner)
  }

  /** No fence and no session identity is issued twice. */
  predicate IssuedOnce(tokens: set<GrantToken>) {
    forall t, u {:trigger Clash(t, u)} | t in tokens && u in tokens && Clash(t, u) :: t == u
  }

  predicate AllWellFormed(tokens: set<GrantToken>, nextFence: u64) {
    forall token {:trigger TokenWellFormed(token, nextFence)} | token in tokens ::
      TokenWellFormed(token, nextFence)
  }

  /** A grant is filed under its root and is not already retired. */
  predicate GrantsFiled(st: State) {
    forall root | root in st.grants ::
      st.grants[root].token.root == root && st.grants[root].token !in st.retired
  }

  predicate ReceiptsValid(st: State) {
    && BackingValid(st.backing)
    && st.nextFence != 0
    && |st.grants| + |st.retired| <= MAX_DELEGATION_IDENTITIES
    && AllWellFormed(Tokens(st), st.nextFence)
    && IssuedOnce(Tokens(st))
    && GrantsFiled(st)
  }

  /** An open-unlinked inode: present, not a directory, link count zero. */
  predicate IsOrphan(ns: Namespace, inode: InodeId) {
    inode in ns.nodes && ns.nodes[inode].stats.nlink == 0 && !ns.nodes[inode].data.Directory?
  }

  /** Everything a grant controls: its linked subtree and its orphans. */
  ghost function Owned(ns: Namespace, grant: DirectoryGrant): set<InodeId> {
    Subtree(ns, grant.token.root) + grant.orphans
  }

  ghost predicate GrantValid(ns: Namespace, root: InodeId, grant: DirectoryGrant) {
    && grant.token.root == root
    && Claimable(ns, root)
    && (forall inode | inode in grant.orphans :: IsOrphan(ns, inode))
  }

  ghost predicate GrantsValid(ns: Namespace, grants: map<InodeId, DirectoryGrant>) {
    forall root {:trigger GrantValid(ns, root, grants[root])} | root in grants ::
      GrantValid(ns, root, grants[root])
  }

  ghost predicate GrantsDisjoint(ns: Namespace, grants: map<InodeId, DirectoryGrant>) {
    forall a, b {:trigger Owned(ns, grants[a]), Owned(ns, grants[b])} | a in grants && b in grants && a != b ::
      Owned(ns, grants[a]) !! Owned(ns, grants[b])
  }

  /** What `DelegationState::validate` accepts. */
  ghost predicate StateValid(st: State, ns: Namespace) {
    && Valid(ns)
    && ReceiptsValid(st)
    && GrantsValid(ns, st.grants)
    && GrantsDisjoint(ns, st.grants)
  }

  // ---- Checkout -------------------------------------------------------------

  predicate IdentityRetired(st: State, root: InodeId, owner: string) {
    exists token | token in st.retired :: token.root == root && token.owner == owner
  }

  /** A session new to `root` may claim it: unused identity, room for one more receipt and
      one more fence, a claimable directory, and no overlap with a live grant's subtree. */
  ghost predicate CheckoutAllowed(st: State, ns: Namespace, root: InodeId, owner: string) {
    && !IdentityRetired(st, root, owner)
    && |st.grants| + |st.retired| < MAX_DELEGATION_IDENTITIES
    && st.nextFence < U64_MAX
    && Claimable(ns, root)
    && (forall other | other in st.grants :: Subtree(ns, root) !! Subtree(ns, other))
  }

  function FreshGrant(st: State, root: InodeId, owner: string): DirectoryGrant {
    DirectoryGrant(GrantToken(root, owner, st.nextFence), {})
  }

  function Issue(st: State, grant: DirectoryGrant): State
    requires st.nextFence < U64_MAX
  {
    st.(grants := st.grants[grant.token.root := grant], nextFence := st.nextFence + 1)
  }

  ghost function CheckoutResult(st: State, ns: Namespace, root: InodeId, owner: string)
    : Result<(State, DirectoryGrant)>
  {
    if !StateValid(st, ns) || owner == "" then Err
    else if root in st.grants then
      if st.grants[root].token.owner == owner then Ok((st, st.grants[root])) else Err
    else if !CheckoutAllowed(st, ns, root, owner) then Err
    else
      var grant := FreshGrant(st, root, owner);
      Ok((Issue(st, grant), grant))
  }

  // ---- Publication ----------------------------------------------------------

  predicate TokenLive(st: State, token: GrantToken) {
    token.root in st.grants && st.grants[token.root].token == token
  }

  predicate SameHeader(prior: Namespace, proposed: Namespace) {
    && prior.formatVersion == proposed.formatVersion
    && prior.root == proposed.root
    && prior.defaultUid == proposed.defaultUid
    && prior.defaultGid == proposed.defaultGid
    && prior.umask == proposed.umask
    && prior.defaultChunker == proposed.defaultChunker
    && prior.nextInode <= proposed.nextInode
  }

  /** `old.nodes.get(inode) == new.nodes.get(inode)`. */
  predicate Unchanged(prior: Namespace, proposed: Namespace, inode: InodeId) {
    && (inode in prior.nodes <==> inode in proposed.nodes)
    && (inode in prior.nodes ==> prior.nodes[inode] == proposed.nodes[inode])
  }

  predicate SameIdentity(a: Stats, b: Stats) {
    FileType(a) == FileType(b) && a.dev == b.dev && a.birthtimeMs == b.birthtimeMs
  }

  /** The verdict of the comparison loop on one inode that differs. */
  predicate ChangeAllowed(
      prior: Namespace, proposed: Namespace, authority: set<InodeId>, after: set<InodeId>, inode: InodeId)
  {
    if inode in prior.nodes then
      && (inode in proposed.nodes ==> SameIdentity(prior.nodes[inode].stats, proposed.nodes[inode].stats))
      && inode in authority
      && (inode in proposed.nodes && proposed.nodes[inode].stats.nlink != 0 ==> inode in after)
    else
      prior.nextInode <= inode && inode in after
  }

  /** Nothing that existed outside the subtree is linked into it. */
  predicate NoForeignLinks(prior: Namespace, before: set<InodeId>, after: set<InodeId>) {
    forall inode | inode in after && inode in prior.nodes :: inode in before
  }

  predicate DiffAllowed(
      prior: Namespace, proposed: Namespace, authority: set<InodeId>, after: set<InodeId>)
  {
    forall inode | (inode in prior.nodes || inode in proposed.nodes) && !Unchanged(prior, proposed, inode) ::
      ChangeAllowed(prior, proposed, authority, after, inode)
  }

  function Allocated(prior: Namespace, proposed: Namespace): set<InodeId> {
    proposed.nodes.Keys - prior.nodes.Keys
  }

  /** New ids, taken in ascending order, count up from the old allocator without a gap. */
  predicate AllocationContiguous(prior: Namespace, proposed: Namespace) {
    var ids := Ascending(Allocated(prior, proposed));
    && prior.nextInode + |ids| <= U64_MAX
    && (forall k | 0 <= k < |ids| :: ids[k] == prior.nextInode + k)
    && proposed.nextInode == prior.nextInode + |ids|
  }

  ghost predicate DeltaAllowed(prior: Namespace, proposed: Namespace, grant: DirectoryGrant) {
    var before, after := Subtree(prior, grant.token.root), Subtree(proposed, grant.token.root);
    && NoForeignLinks(prior, before, after)
    && DiffAllowed(prior, proposed, before + grant.orphans, after)
  }

  /** Every check `authorize_publish` makes before it forms the candidate state. */
  ghost predicate PublishChecks(st: State, prior: Namespace, proposed: Namespace, token: GrantToken) {
    && StateValid(st, prior)
    && Valid(proposed)
    && TokenLive(st, token)
    && SameHeader(prior, proposed)
    && Claimable(proposed, token.root)
    && DeltaAllowed(prior, proposed, st.grants[token.root])
    && AllocationContiguous(prior, proposed)
  }

  /** The members of the publisher's authority left with link count zero. */
  ghost function RemainingOrphans(prior: Namespace, proposed: Namespace, grant: DirectoryGrant): set<InodeId> {
    set inode | inode in Owned(prior, grant) && inode in proposed.nodes && proposed.nodes[inode].stats.nlink == 0
  }

  ghost function Candidate(st: State, prior: Namespace, proposed: Namespace, token: GrantToken): State
    requires TokenLive(st, token)
  {
    var grant := st.grants[token.root];
    st.(grants := st.grants[token.root := grant.(orphans := RemainingOrphans(prior, proposed, grant))])
  }

  ghost function PublishResult(st: State, prior: Namespace, proposed: Namespace, token: GrantToken): Result<State> {
    if !PublishChecks(st, prior, proposed, token) then Err
    else
      var candidate := Candidate(st, prior, proposed, token);
      if StateValid(candidate, proposed) then Ok(candidate) else Err
  }

  // ---- Checkin and recovery -------------------------------------------------

  function Retire(st: State, token: GrantToken): State {
    st.(grants := st.grants - {token.root}, retired := st.retired + {token})
  }

  ghost function CheckinResult(st: State, token: GrantToken, ns: Namespace): Result<State> {
    if !StateValid(st, ns) then Err
    else if token in st.retired then Ok(st)
    else if !TokenLive(st, token) then Err
    else if st.grants[token.root].orphans != {} then Err
    else Ok(Retire(st, token))
  }

  function WithoutNodes(ns: Namespace, inodes: set<InodeId>): Namespace {
    ns.(nodes := ns.nodes - inodes)
  }

  predicate FenceRetired(st: State, root: InodeId, fence: u64) {
    exists token | token in st.retired :: token.root == root && token.fence == fence
  }

  ghost function RecoverResult(st: State, root: InodeId, fence: u64, ns: Namespace)
    : Result<(State, Namespace)>
  {
    if !StateValid(st, ns) then Err
    else if root in st.grants && st.grants[root].token.fence != fence then Err
    else if FenceRetired(st, root, fence) then Ok((st, ns))
    else if root !in st.grants then Err
    else
      var pruned := WithoutNodes(ns, st.grants[root].orphans);
      if Valid(pruned) then Ok((Retire(st, st.grants[root].token), pruned)) else Err
  }
}
