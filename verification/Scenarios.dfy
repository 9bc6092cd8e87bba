/** What the repository's delegation and path tests assert, on their own inputs. */
module Scenarios {
  import opened Base
  import opened Storage
  import opened Authority
  import opened Steps
  import opened Runs
  import opened InodePublication
  import opened Acceptance
  import opened Tree
  import opened Progress
  import opened Unlink
  import opened Paths
  import opened Example

  // ---- Grants are exclusive, retry safe and fenced --------------------------

  const TOKEN_A := GrantToken(2, "session-a", 1)
  const TOKEN_B := GrantToken(3, "session-b", 2)
  const TOKEN_NEW := GrantToken(2, "new", 3)

  /** Session a has checked in. */
  function Released(backing: BackingId): State {
    State(backing, 3, map[3 := DirectoryGrant(TOKEN_B, {})], {TOKEN_A})
  }

  /** Its directory has been granted to another session. */
  function Regranted(backing: BackingId): State {
    State(backing, 4, map[2 := DirectoryGrant(TOKEN_NEW, {}), 3 := DirectoryGrant(TOKEN_B, {})], {TOKEN_A})
  }

  function Recovered(backing: BackingId): State {
    State(backing, 4, map[3 := DirectoryGrant(TOKEN_B, {})], {TOKEN_A, TOKEN_NEW})
  }

  /** A held directory is refused to another session. */
  lemma IntruderRefused(backing: BackingId)
    requires BackingValid(backing)
    ensures CheckoutResult(BothHeld(backing), TestNamespace(), 2, "intruder").Err?
  {
    hide CheckoutResult, StateValid, TestNamespace;
    BothHeldReached(backing);
    LiveRootCheckout(BothHeld(backing), TestNamespace(), 2, "intruder");
    assert "session-a"[0] != "intruder"[0];
  }

  /** Checking in retires the token, and checking in again changes nothing. */
  lemma CheckinTwice(backing: BackingId)
    requires BackingValid(backing)
    ensures var ns := TestNamespace();
      && CheckinResult(BothHeld(backing), TOKEN_A, ns) == Ok(Released(backing))
      && CheckinResult(Released(backing), TOKEN_A, ns) == Ok(Released(backing))
      && StateValid(Released(backing), ns)
  {
    hide StateValid, TestNamespace, CheckinResult;
    var st, ns := BothHeld(backing), TestNamespace();
    BothHeldReached(backing);
    CheckinExact(st, TOKEN_A, ns);
    var st' := CheckinResult(st, TOKEN_A, ns).value;
    assert st'.grants == Released(backing).grants;
    assert st' == Released(backing);
    CheckinPreserves(st, TOKEN_A, ns);
  }

  /** The retired session cannot come back, but another one gets the directory and a new fence. */
  lemma RegrantedToAnother(backing: BackingId)
    requires BackingValid(backing)
    ensures var ns := TestNamespace();
      && CheckoutResult(Released(backing), ns, 2, "session-a").Err?
      && CheckoutResult(Released(backing), ns, 2, "new") == Ok((Regranted(backing), DirectoryGrant(TOKEN_NEW, {})))
      && StateValid(Regranted(backing), ns)
  {
    hide StateValid, TestNamespace, CheckoutResult, Subtree;
    var st, ns := Released(backing), TestNamespace();
    CheckinTwice(backing);
    TestSubtrees();
    assert TOKEN_A in st.retired && "session-a"[0] != "new"[0];
    CheckoutRefusal(st, ns, 2, "session-a");
    CheckoutRefusal(st, ns, 2, "new");
    CheckoutGrantsOwner(st, ns, 2, "new");
    var (st', grant) := CheckoutResult(st, ns, 2, "new").value;
    assert grant == DirectoryGrant(TOKEN_NEW, {});
    assert st'.grants == Regranted(backing).grants;
    CheckoutPreserves(st, ns, 2, "new");
  }

  lemma LiveFenceRecovers(backing: BackingId)
    requires BackingValid(backing)
    ensures
      && RecoverResult(Regranted(backing), 2, 3, TestNamespace()) == Ok((Recovered(backing), TestNamespace()))
      && StateValid(Recovered(backing), TestNamespace())
  {
    hide StateValid, TestNamespace, RecoverResult, CheckoutResult, WithoutNodes, Retire;
    var st, ns := Regranted(backing), TestNamespace();
    RegrantedToAnother(backing);
    RecoveryTotalAndIdempotent(st, 2, ns);
    NothingDropped(ns);
    RetiredNew(backing);
  }

  lemma NothingDropped(ns: Namespace)
    ensures WithoutNodes(ns, {}) == ns
  {
    assert ns.nodes - {} == ns.nodes;
  }

  lemma RetiredNew(backing: BackingId)
    ensures Retire(Regranted(backing), TOKEN_NEW) == Recovered(backing)
  {
    assert Regranted(backing).grants - {2} == Recovered(backing).grants;
  }

  /** The old fence recovers nothing while the directory is granted again; the live one does,
      and its token is then useless. */
  lemma StaleRecoveryRefused(backing: BackingId)
    requires BackingValid(backing)
    ensures var ns := TestNamespace();
      && RecoverResult(Regranted(backing), 2, 1, ns).Err?
      && RecoverResult(Regranted(backing), 2, 3, ns) == Ok((Recovered(backing), ns))
      && PublishResult(Recovered(backing), ns, ns, TOKEN_NEW).Err?
  {
    hide StateValid, TestNamespace, RecoverResult, PublishResult, CheckoutResult;
    var ns := TestNamespace();
    RegrantedToAnother(backing);
    RecoverExact(Regranted(backing), 2, 1, ns);
    LiveFenceRecovers(backing);
    RetiredTokenPowerless(System(Recovered(backing), ns), TOKEN_NEW);
  }

  // ---- Hostile proposals ----------------------------------------------------

  /** `/a/file` turned into a symbolic link. */
  function Relinked(): Namespace {
    WithNode(TestNamespace(), 4, Node(4, 0xA1FF, 1, Symlink("elsewhere")))
  }

  /** `/a` with a second file under an id the allocator has already passed. */
  function Reused(): Namespace {
    var entries := [DirectoryEntry("file", 4), DirectoryEntry("new", 6)];
    WithNode(WithNode(TestNamespace(), 6, EmptyFile(6)), 2, Folder(2, 2, entries))
  }

  /** Session a may not change an inode's kind, the header, its neighbour's file or its own
      parent, nor take an id that was already passed over. */
  lemma HostileProposalsRefused(backing: BackingId, foreign: InodeId)
    requires BackingValid(backing) && foreign in {1, 3, 5}
    ensures
      var st, ns := BothHeld(backing), TestNamespace();
      && PublishResult(st, ns, Relinked(), TOKEN_A).Err?
      && PublishResult(st, ns, ns.(umask := 0), TOKEN_A).Err?
      && PublishResult(st, ns, Reused(), TOKEN_A).Err?
      && forall node | node != ns.nodes[foreign] ::
           PublishResult(st, ns, WithNode(ns, foreign, node), TOKEN_A).Err?
  {
    hide StateValid, TestNamespace, Valid, Claimable, Subtree, PublishResult;
    var st, ns := BothHeld(backing), TestNamespace();
    BothHeldReached(backing);
    TestNodes();
    TestSubtrees();
    TestHeaderFields();
    PublishAcceptedIff(st, ns, Relinked(), TOKEN_A);
    assert Relinked().nodes[4].stats.mode == 0xA1FF && ns.nodes[4].stats.mode == 0x8180;
    PublishAcceptedIff(st, ns, ns.(umask := 0), TOKEN_A);
    PublishAcceptedIff(st, ns, Reused(), TOKEN_A);
    assert 6 in Reused().nodes && 6 !in ns.nodes;
    forall node | node != ns.nodes[foreign]
      ensures PublishResult(st, ns, WithNode(ns, foreign, node), TOKEN_A).Err?
    {
      PublishAcceptedIff(st, ns, WithNode(ns, foreign, node), TOKEN_A);
      assert WithNode(ns, foreign, node).nodes[foreign] == node;
    }
  }

  lemma TestHeaderFields()
    ensures TestNamespace().umask == 18 && TestNamespace().nextInode == 8
  {
  }

  // ---- Open-unlinked files --------------------------------------------------

  /** `/a` without its only file. */
  function FileGone(): Namespace
    requires NamesFile(TestNamespace(), (2, 0))
  {
    Unlinked(TestNamespace(), (2, 0))
  }

  lemma FirstFileNamed()
    ensures NamesFile(TestNamespace(), (2, 0)) && EntryAt(TestNamespace(), (2, 0)).inode == 4
    ensures TestNamespace().nodes[4].stats.nlink == 1
  {
    TestSlots();
    TestNodes();
  }

  /** Unlinking the file leaves it to the grant as an orphan, which stands in the way of a
      checkin until the holder drops it. */
  lemma OrphanHoldsTheGrant(backing: BackingId)
    requires BackingValid(backing)
    ensures NamesFile(TestNamespace(), (2, 0))
    ensures
      var ns, st := FileGone(), BothHeld(backing);
      var held := st.(grants := st.grants[2 := DirectoryGrant(TOKEN_A, {4})]);
      && PublishResult(st, TestNamespace(), ns, TOKEN_A) == Ok(held)
      && CheckinResult(held, TOKEN_A, ns).Err?
      && var dropped := PublishResult(held, ns, WithoutNodes(ns, {4}), TOKEN_A);
      && dropped.Ok? && CheckinResult(dropped.value, TOKEN_A, WithoutNodes(ns, {4})).Ok?
  {
    hide StateValid, TestNamespace, Unlinked, NamesFile, Subtree, PublishResult, CheckinResult;
    FirstFileNamed();
    BothHeldReached(backing);
    TestSubtrees();
    var ns, st := FileGone(), BothHeld(backing);
    HolderCanUnlink(st, TestNamespace(), TOKEN_A, (2, 0));
    var held := st.(grants := st.grants[2 := DirectoryGrant(TOKEN_A, {4})]);
    assert {} + {4} == {4 as InodeId};
    PublishLeavesValid(st, TestNamespace(), ns, TOKEN_A);
    CheckinExact(held, TOKEN_A, ns);
    TokensOnFile(held, ns);
    HolderCanRelease(held, ns, TOKEN_A);
  }

  lemma PublishLeavesValid(st: State, prior: Namespace, proposed: Namespace, token: GrantToken)
    requires PublishResult(st, prior, proposed, token).Ok?
    ensures StateValid(PublishResult(st, prior, proposed, token).value, proposed)
  {
    hide StateValid;
    PublishIffChecks(st, prior, proposed, token);
  }

  // ---- Malformed persisted states -------------------------------------------

  /** A fence not below the next one, a grant filed under another root, an orphan that is
      linked, a live token that is also retired, an all-zero backing: none is valid. */
  lemma MalformedStatesRejected(backing: BackingId)
    ensures
      var ns := TestNamespace();
      var grant := DirectoryGrant(TOKEN_A, {});
      && !StateValid(State(backing, 1, map[2 := grant], {}), ns)
      && !StateValid(State(backing, 2, map[2 := grant.(token := TOKEN_A.(root := 3))], {}), ns)
      && !StateValid(State(backing, 2, map[2 := grant.(orphans := {5})], {}), ns)
      && !StateValid(State(backing, 2, map[2 := grant], {TOKEN_A}), ns)
      && !StateValid(State(seq(16, _ => 0), 2, map[2 := grant], {}), ns)
  {
    hide Valid, TestNamespace, Claimable, GrantsDisjoint;
    TestNodes();
    var ns, grant := TestNamespace(), DirectoryGrant(TOKEN_A, {});
    var early := State(backing, 1, map[2 := grant], {});
    assert early.grants[2].token in Tokens(early) && !TokenWellFormed(TOKEN_A, 1);
    var misfiled := State(backing, 2, map[2 := grant.(token := TOKEN_A.(root := 3))], {});
    assert misfiled.grants[2].token.root != 2;
    var linked := grant.(orphans := {5});
    assert !IsOrphan(ns, 5) && 5 in linked.orphans;
    assert !GrantValid(ns, 2, linked);
    var grants := map[2 := linked];
    assert grants[2] == linked && !GrantsValid(ns, grants);
    var both := State(backing, 2, map[2 := grant], {TOKEN_A});
    assert both.grants[2].token in both.retired;
  }

  // ---- Paths ----------------------------------------------------------------

  /** `..` is resolved before containment is decided. */
  lemma DotDotLeaves()
    ensures Normalize("/a/../ab") == "/ab" && !IsPathInside("/a/../ab", "/a")
  {
    hide Segments, Normalize;
    SegmentsOfName("");
    assert "" + "/" + "a" == "/a" && "/a" + "/" + ".." == "/a/.." && "/a/.." + "/" + "ab" == "/a/../ab";
    SegmentsExtend("", "a");
    SegmentsExtend("/a", "..");
    SegmentsExtend("/a/..", "ab");
    assert Segments("/a/../ab") == ["ab"] && Segments("/a") == ["a"];
    InsideIffSegmentPrefix("/a/../ab", "/a");
    assert "a" != "ab";
    RenderedAb();
  }

  lemma RenderedAb()
    requires Segments("/a/../ab") == ["ab"]
    ensures Normalize("/a/../ab") == "/ab"
  {
    hide Segments;
    assert Join(["ab"]) == "ab";
  }
}
