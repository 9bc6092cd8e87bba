/** Whole runs of the protocol: authority and namespace committed together, step by step. */
module Runs {
  import opened Base
  import opened Storage
  import opened Authority
  import opened Safety
  import opened Steps

  datatype System = System(st: State, ns: Namespace)

  datatype Step =
    | Checkout(root: InodeId, owner: string)
    | Publish(proposed: Namespace, token: GrantToken)
    | Checkin(token: GrantToken)
    | Recover(root: InodeId, fence: u64)

  /** One transaction: an accepted step commits its result, a refused one commits nothing. */
  ghost function Apply(sys: System, step: Step): System {
    match step
    case Checkout(root, owner) =>
      var r := CheckoutResult(sys.st, sys.ns, root, owner);
      if r.Ok? then System(r.value.0, sys.ns) else sys
    case Publish(proposed, token) =>
      var r := PublishResult(sys.st, sys.ns, proposed, token);
      if r.Ok? then System(r.value, proposed) else sys
    case Checkin(token) =>
      var r := CheckinResult(sys.st, token, sys.ns);
      if r.Ok? then System(r.value, sys.ns) else sys
    case Recover(root, fence) =>
      var r := RecoverResult(sys.st, root, fence, sys.ns);
      if r.Ok? then System(r.value.0, r.value.1) else sys
  }

  ghost function Run(sys: System, steps: seq<Step>): System
    decreases |steps|
  {
    if steps == [] then sys else Run(Apply(sys, steps[0]), steps[1..])
  }

  ghost predicate SystemValid(sys: System) {
    StateValid(sys.st, sys.ns)
  }

  /** Every step keeps `DelegationState::validate` true of what is committed. */
  lemma StepPreserves(sys: System, step: Step)
    requires SystemValid(sys)
    ensures SystemValid(Apply(sys, step))
  {
    match step
    case Checkout(root, owner) =>
      if CheckoutResult(sys.st, sys.ns, root, owner).Ok? {
        CheckoutPreserves(sys.st, sys.ns, root, owner);
      }
    case Publish(proposed, token) => PublishIffChecks(sys.st, sys.ns, proposed, token);
    case Checkin(token) =>
      if CheckinResult(sys.st, token, sys.ns).Ok? { CheckinPreserves(sys.st, token, sys.ns); }
    case Recover(root, fence) =>
      if RecoverResult(sys.st, root, fence, sys.ns).Ok? { RecoverPreserves(sys.st, root, fence, sys.ns); }
  }

  lemma {:induction false} RunPreserves(sys: System, steps: seq<Step>)
    requires SystemValid(sys)
    ensures SystemValid(Run(sys, steps))
    decreases |steps|
  {
    if steps != [] {
      StepPreserves(sys, steps[0]);
      RunPreserves(Apply(sys, steps[0]), steps[1..]);
    }
  }

  // ---- What never goes backwards: inodes ------------------------------------

  /** The same kind of object: type bits, device, birth time and the variant of its data. */
  predicate SameObject(a: NodeMetadata, b: NodeMetadata) {
    && a.stats.mode & 0xF000 == b.stats.mode & 0xF000
    && a.stats.dev == b.stats.dev && a.stats.birthtimeMs == b.stats.birthtimeMs
    && a.data.Directory? == b.data.Directory? && a.data.File? == b.data.File?
    && a.data.Symlink? == b.data.Symlink? && a.data.Special? == b.data.Special?
  }

  /** The header is fixed but for the allocator, ids are only ever added above it, and an id
      that is still there is the same object and never relinked once orphaned. */
  predicate NamespaceEvolves(ns: Namespace, ns': Namespace) {
    && ns' == ns.(nextInode := ns'.nextInode, nodes := ns'.nodes)
    && ns.nextInode <= ns'.nextInode
    && (forall inode | inode in ns'.nodes && inode !in ns.nodes :: ns.nextInode <= inode)
    && (forall inode | inode in ns.nodes && inode in ns'.nodes ::
          && SameObject(ns.nodes[inode], ns'.nodes[inode])
          && (ns.nodes[inode].stats.nlink == 0 ==> ns'.nodes[inode].stats.nlink == 0))
  }

  lemma NamespaceEvolvesTransitive(a: Namespace, b: Namespace, c: Namespace)
    requires InodesValid(a)
    requires NamespaceEvolves(a, b) && NamespaceEvolves(b, c)
    ensures NamespaceEvolves(a, c)
  {
    forall inode | inode in a.nodes && inode in c.nodes
      ensures SameObject(a.nodes[inode], c.nodes[inode])
      ensures a.nodes[inode].stats.nlink == 0 ==> c.nodes[inode].stats.nlink == 0
    {
      assert inode in b.nodes;
    }
  }

  /** Two valid nodes with the same type bits hold the same variant of data. */
  lemma TypeBitsFixVariant(a: NodeMetadata, b: NodeMetadata)
    requires NodeKindValid(a) && NodeKindValid(b) && a.stats.mode & 0xF000 == b.stats.mode & 0xF000
    requires a.stats.dev == b.stats.dev && a.stats.birthtimeMs == b.stats.birthtimeMs
    ensures SameObject(a, b)
  {
  }

  lemma PublicationNamespaceEvolves(prior: Namespace, proposed: Namespace, grant: DirectoryGrant)
    requires Publication(prior, proposed, grant)
    ensures NamespaceEvolves(prior, proposed)
  {
    forall inode | inode in prior.nodes && inode in proposed.nodes
      ensures SameObject(prior.nodes[inode], proposed.nodes[inode])
      ensures prior.nodes[inode].stats.nlink == 0 ==> proposed.nodes[inode].stats.nlink == 0
    {
      hide DirectoryCountsValid, FileCountsValid, DirectoriesRooted, NodeKindValid;
      assert NodeKindValid(prior.nodes[inode]) && NodeKindValid(proposed.nodes[inode]);
      TypeBitsFixVariant(prior.nodes[inode], proposed.nodes[inode]);
      if prior.nodes[inode].stats.nlink == 0 { OrphanNotRelinked(prior, proposed, grant, inode); }
    }
  }

  lemma PublishNamespaceEvolves(st: State, prior: Namespace, proposed: Namespace, token: GrantToken)
    requires PublishResult(st, prior, proposed, token).Ok?
    ensures NamespaceEvolves(prior, proposed)
  {
    ChecksGivePublication(st, prior, proposed, token);
    PublicationNamespaceEvolves(prior, proposed, st.grants[token.root]);
  }

  lemma RecoverNamespaceEvolves(st: State, root: InodeId, fence: u64, ns: Namespace)
    requires RecoverResult(st, root, fence, ns).Ok?
    ensures NamespaceEvolves(ns, RecoverResult(st, root, fence, ns).value.1)
  {
  }

  lemma StepNamespaceEvolves(sys: System, step: Step)
    ensures NamespaceEvolves(sys.ns, Apply(sys, step).ns)
  {
    match step
    case Publish(proposed, token) =>
      if PublishResult(sys.st, sys.ns, proposed, token).Ok? {
        PublishNamespaceEvolves(sys.st, sys.ns, proposed, token);
      }
    case Recover(root, fence) =>
      if RecoverResult(sys.st, root, fence, sys.ns).Ok? {
        RecoverNamespaceEvolves(sys.st, root, fence, sys.ns);
      }
    case _ =>
  }

  lemma {:induction false} NamespaceEvolvesOverRuns(sys: System, steps: seq<Step>)
    requires SystemValid(sys)
    ensures NamespaceEvolves(sys.ns, Run(sys, steps).ns)
    decreases |steps|
  {
    if steps != [] {
      var next := Apply(sys, steps[0]);
      StepPreserves(sys, steps[0]);
      StepNamespaceEvolves(sys, steps[0]);
      NamespaceEvolvesOverRuns(next, steps[1..]);
      NamespaceEvolvesTransitive(sys.ns, next.ns, Run(next, steps[1..]).ns);
    }
  }

  /** Inode identity over runs: every header field but the allocator is what it was, ids are
      added only above the old allocator, and an inode present at both ends has the same type
      bits, device, birth time and variant of data, and no link if it had none. */
  lemma InodeIdentityOverRuns(sys: System, steps: seq<Step>)
    requires SystemValid(sys)
    ensures
      var ns, ns' := sys.ns, Run(sys, steps).ns;
      && ns'.formatVersion == ns.formatVersion && ns'.root == ns.root
      && ns'.defaultUid == ns.defaultUid && ns'.defaultGid == ns.defaultGid && ns'.umask == ns.umask
      && ns'.defaultChunker == ns.defaultChunker && ns.nextInode <= ns'.nextInode
      && (forall inode | inode in ns'.nodes && inode !in ns.nodes :: ns.nextInode <= inode < ns'.nextInode)
      && (forall inode | inode in ns.nodes && inode in ns'.nodes ::
            var a, b := ns.nodes[inode], ns'.nodes[inode];
            && a.stats.mode & 0xF000 == b.stats.mode & 0xF000
            && a.stats.dev == b.stats.dev && a.stats.birthtimeMs == b.stats.birthtimeMs
            && a.data.Directory? == b.data.Directory? && a.data.File? == b.data.File?
            && a.data.Symlink? == b.data.Symlink? && a.data.Special? == b.data.Special?
            && (a.stats.nlink == 0 ==> b.stats.nlink == 0))
  {
    NamespaceEvolvesOverRuns(sys, steps);
    RunPreserves(sys, steps);
  }

  lemma {:induction false} RunConcat(sys: System, first: seq<Step>, second: seq<Step>)
    ensures Run(sys, first + second) == Run(Run(sys, first), second)
    decreases |first|
  {
    if first == [] {
      assert first + second == second;
    } else {
      assert (first + second)[1..] == first[1..] + second;
      RunConcat(Apply(sys, first[0]), first[1..], second);
    }
  }

  /** An id that some run has removed is absent from every continuation of that run. */
  lemma RemovedNeverReturns(sys: System, first: seq<Step>, second: seq<Step>, inode: InodeId)
    requires SystemValid(sys)
    requires inode in sys.ns.nodes && inode !in Run(sys, first).ns.nodes
    ensures inode !in Run(sys, first + second).ns.nodes
  {
    RunConcat(sys, first, second);
    RunPreserves(sys, first);
    NamespaceEvolvesOverRuns(sys, first);
    NamespaceEvolvesOverRuns(Run(sys, first), second);
  }

  // ---- What never goes backwards: receipts ----------------------------------

  /** Receipts are kept, and every token issued later carries a later fence. */
  predicate ReceiptsEvolve(st: State, st': State) {
    && st.retired <= st'.retired
    && Tokens(st) <= Tokens(st')
    && st.nextFence <= st'.nextFence
    && (forall token | token in Tokens(st') && token !in Tokens(st) :: st.nextFence <= token.fence)
  }

  lemma CheckoutReceiptsEvolve(st: State, ns: Namespace, root: InodeId, owner: string)
    requires CheckoutResult(st, ns, root, owner).Ok?
    ensures ReceiptsEvolve(st, CheckoutResult(st, ns, root, owner).value.0)
  {
    if root !in st.grants {
      IssuedTokens(st, FreshGrant(st, root, owner));
    }
  }

  lemma PublishReceiptsEvolve(st: State, prior: Namespace, proposed: Namespace, token: GrantToken)
    requires PublishResult(st, prior, proposed, token).Ok?
    ensures ReceiptsEvolve(st, PublishResult(st, prior, proposed, token).value)
  {
    CandidateReceipts(st, prior, proposed, token);
  }

  lemma CheckinReceiptsEvolve(st: State, token: GrantToken, ns: Namespace)
    requires CheckinResult(st, token, ns).Ok?
    ensures ReceiptsEvolve(st, CheckinResult(st, token, ns).value)
  {
    if token !in st.retired { RetiredTokens(st, token); }
  }

  lemma RecoverReceiptsEvolve(st: State, root: InodeId, fence: u64, ns: Namespace)
    requires RecoverResult(st, root, fence, ns).Ok?
    ensures ReceiptsEvolve(st, RecoverResult(st, root, fence, ns).value.0)
  {
    if root in st.grants {
      assert GrantsFiled(st);
      RetiredTokens(st, st.grants[root].token);
    }
  }

  lemma StepReceiptsEvolve(sys: System, step: Step)
    ensures ReceiptsEvolve(sys.st, Apply(sys, step).st)
  {
    hide StateValid, CheckoutAllowed, PublishChecks;
    match step
    case Checkout(root, owner) =>
      if CheckoutResult(sys.st, sys.ns, root, owner).Ok? {
        CheckoutReceiptsEvolve(sys.st, sys.ns, root, owner);
      }
    case Publish(proposed, token) =>
      if PublishResult(sys.st, sys.ns, proposed, token).Ok? {
        PublishReceiptsEvolve(sys.st, sys.ns, proposed, token);
      }
    case Checkin(token) =>
      if CheckinResult(sys.st, token, sys.ns).Ok? { CheckinReceiptsEvolve(sys.st, token, sys.ns); }
    case Recover(root, fence) =>
      if RecoverResult(sys.st, root, fence, sys.ns).Ok? {
        RecoverReceiptsEvolve(sys.st, root, fence, sys.ns);
      }
  }

  lemma {:induction false} ReceiptsEvolveOverRuns(sys: System, steps: seq<Step>)
    ensures ReceiptsEvolve(sys.st, Run(sys, steps).st)
    decreases |steps|
  {
    if steps != [] {
      StepReceiptsEvolve(sys, steps[0]);
      ReceiptsEvolveOverRuns(Apply(sys, steps[0]), steps[1..]);
    }
  }

  lemma ReissueDiffers(st: State, ns: Namespace, token: GrantToken, root: InodeId, owner: string)
    requires token in st.retired && CheckoutResult(st, ns, root, owner).Ok?
    ensures CheckoutResult(st, ns, root, owner).value.1.token.fence != token.fence
    ensures root != token.root || owner != token.owner
  {
    CheckoutNeedsReceipts(st, ns, root, owner);
    assert token in Tokens(st) && TokenWellFormed(token, st.nextFence);
    if root in st.grants {
      var live := st.grants[root].token;
      assert live in Tokens(st) && live != token;
      assert !Clash(live, token);
    }
  }

  lemma CheckoutNeedsReceipts(st: State, ns: Namespace, root: InodeId, owner: string)
    requires CheckoutResult(st, ns, root, owner).Ok?
    ensures ReceiptsValid(st)
  {
  }

  /** A receipt never authorises a publication, and a grant issued beside it has another
      fence and another session identity. */
  lemma RetiredTokenPowerless(sys: System, token: GrantToken)
    requires SystemValid(sys) && token in sys.st.retired
    ensures forall proposed :: PublishResult(sys.st, sys.ns, proposed, token).Err?
    ensures forall root, owner | CheckoutResult(sys.st, sys.ns, root, owner).Ok? ::
      && CheckoutResult(sys.st, sys.ns, root, owner).value.1.token.fence != token.fence
      && (root != token.root || owner != token.owner)
  {
    assert !TokenLive(sys.st, token) by {
      assert GrantsFiled(sys.st);
    }
    forall root, owner | CheckoutResult(sys.st, sys.ns, root, owner).Ok?
      ensures CheckoutResult(sys.st, sys.ns, root, owner).value.1.token.fence != token.fence
      ensures root != token.root || owner != token.owner
    {
      ReissueDiffers(sys.st, sys.ns, token, root, owner);
    }
  }

  /** Fencing over runs: once a token is retired, no later state of any run lets it publish,
      and neither its fence nor its (root, owner) pair is ever issued again. */
  lemma RetiredForever(sys: System, steps: seq<Step>, token: GrantToken)
    requires SystemValid(sys) && token in sys.st.retired
    ensures var later := Run(sys, steps);
      && token in later.st.retired
      && (forall proposed :: PublishResult(later.st, later.ns, proposed, token).Err?)
      && (forall root, owner | CheckoutResult(later.st, later.ns, root, owner).Ok? ::
            && CheckoutResult(later.st, later.ns, root, owner).value.1.token.fence != token.fence
            && (root != token.root || owner != token.owner))
  {
    RunPreserves(sys, steps);
    ReceiptsEvolveOverRuns(sys, steps);
    RetiredTokenPowerless(Run(sys, steps), token);
  }

  /** Over runs, two checkouts are given the same fence if and only if they ask for the same
      directory in the same name, and then it is the very same token. */
  lemma TokensNeverShared(
      sys: System, root: InodeId, owner: string, steps: seq<Step>, root': InodeId, owner': string)
    requires SystemValid(sys) && CheckoutResult(sys.st, sys.ns, root, owner).Ok?
    requires
      var later := Run(Apply(sys, Checkout(root, owner)), steps);
      CheckoutResult(later.st, later.ns, root', owner').Ok?
    ensures
      var later := Run(Apply(sys, Checkout(root, owner)), steps);
      var t := CheckoutResult(sys.st, sys.ns, root, owner).value.1.token;
      var u := CheckoutResult(later.st, later.ns, root', owner').value.1.token;
      (t.fence == u.fence <==> root == root' && owner == owner') && (t.fence == u.fence ==> t == u)
  {
    hide StateValid, CheckoutResult;
    var next := Apply(sys, Checkout(root, owner));
    var later := Run(next, steps);
    var last := Apply(later, Checkout(root', owner'));
    var t := CheckoutResult(sys.st, sys.ns, root, owner).value.1.token;
    var u := CheckoutResult(later.st, later.ns, root', owner').value.1.token;
    StepPreserves(sys, Checkout(root, owner));
    RunPreserves(next, steps);
    StepPreserves(later, Checkout(root', owner'));
    CheckoutGrantsOwner(sys.st, sys.ns, root, owner);
    CheckoutGrantsOwner(later.st, later.ns, root', owner');
    ReceiptsEvolveOverRuns(next, steps);
    StepReceiptsEvolve(later, Checkout(root', owner'));
    assert t in Tokens(next.st) && u in Tokens(last.st);
    IssuedTokensApart(last.st, last.ns, t, u);
  }

  lemma IssuedTokensApart(st: State, ns: Namespace, t: GrantToken, u: GrantToken)
    requires StateValid(st, ns) && t in Tokens(st) && u in Tokens(st)
    ensures t.fence == u.fence <==> t.root == u.root && t.owner == u.owner
    ensures t.fence == u.fence ==> t == u
  {
    assert Clash(t, u) ==> t == u;
  }

  /** Over runs, recovery with the fence of a retired token is answered without effect while
      its directory is free, and refused for as long as the directory is granted again. */
  lemma RetiredFenceRecovery(sys: System, steps: seq<Step>, token: GrantToken)
    requires SystemValid(sys) && token in sys.st.retired
    ensures
      var later := Run(sys, steps);
      RecoverResult(later.st, token.root, token.fence, later.ns) ==
        if token.root in later.st.grants then Err else Ok((later.st, later.ns))
  {
    hide Valid, GrantsDisjoint, GrantsValid, RecoverResult;
    var later := Run(sys, steps);
    RunPreserves(sys, steps);
    ReceiptsEvolveOverRuns(sys, steps);
    RecoverExact(later.st, token.root, token.fence, later.ns);
    if token.root in later.st.grants {
      var live := later.st.grants[token.root].token;
      assert GrantsFiled(later.st);
      IssuedTokensApart(later.st, later.ns, live, token);
    }
  }
}
