/** The namespace of the repository's own delegation tests, as evidence that the model's
    hypotheses are met: it is valid, and two sessions can hold its two directories and write
    in them at once. */
module Example {
  import opened Base
  import opened Chunking
  import opened Storage
  import opened Tree
  import opened Authority
  import opened Steps
  import opened Ledger
  import opened InodePublication
  import opened Progress
  import opened Merge

  function Node(ino: u64, mode: bv32, nlink: u64, data: NodeData): NodeMetadata {
    NodeMetadata(Stats(1, ino, mode, nlink, 0, 0, 0, 0, 4096, 0, 0, 0, 0, 0), data)
  }

  function Folder(ino: u64, nlink: u64, entries: seq<DirectoryEntry>): NodeMetadata {
    Node(ino, 0x41ED, nlink, Directory(entries))
  }

  function EmptyFile(ino: u64): NodeMetadata {
    Node(ino, 0x8180, 1, File(FileLayout(Config(4096), [])))
  }

  /** `/a/file` is inode 4 and `/b/file` is inode 5. */
  function TestNamespace(): Namespace {
    Namespace(1, 1, 8, 0, 0, 18, Config(4096), map[
      1 := Folder(1, 4, [DirectoryEntry("a", 2), DirectoryEntry("b", 3)]),
      2 := Folder(2, 2, [DirectoryEntry("file", 4)]),
      3 := Folder(3, 2, [DirectoryEntry("file", 5)]),
      4 := EmptyFile(4),
      5 := EmptyFile(5)])
  }

  lemma TestSlots()
    ensures Slots(TestNamespace()) == {(1, 0), (1, 1), (2, 0), (3, 0)}
    ensures var ns := TestNamespace();
      && EntryAt(ns, (1, 0)).inode == 2 && EntryAt(ns, (1, 1)).inode == 3
      && EntryAt(ns, (2, 0)).inode == 4 && EntryAt(ns, (3, 0)).inode == 5
  {
    var ns := TestNamespace();
    assert ns.nodes.Keys == {1, 2, 3, 4, 5};
    assert forall slot | slot in Slots(ns) :: slot in {(1, 0), (1, 1), (2, 0), (3, 0)};
    assert {(1, 0), (1, 1), (2, 0), (3, 0)} <= Slots(ns);
  }

  lemma TestLinks()
    ensures var ns := TestNamespace();
      && Links(ns, 1) == {} && Links(ns, 2) == {(1, 0)} && Links(ns, 3) == {(1, 1)}
      && Links(ns, 4) == {(2, 0)} && Links(ns, 5) == {(3, 0)}
      && ChildDirectories(ns, 1) == {(1, 0), (1, 1)}
      && ChildDirectories(ns, 2) == {} && ChildDirectories(ns, 3) == {}
  {
    TestSlots();
  }

  lemma TestChildren()
    ensures var ns := TestNamespace();
      && Children(ns, 1) == {2, 3} && Children(ns, 2) == {4} && Children(ns, 3) == {5}
      && Children(ns, 4) == {} && Children(ns, 5) == {}
  {
    var ns := TestNamespace();
    assert EntriesOf(ns.nodes[1])[0].inode == 2 && EntriesOf(ns.nodes[1])[1].inode == 3;
    assert EntriesOf(ns.nodes[2])[0].inode == 4 && EntriesOf(ns.nodes[3])[0].inode == 5;
  }

  lemma FolderKind(ino: u64, nlink: u64, entries: seq<DirectoryEntry>)
    ensures NodeKindValid(Folder(ino, nlink, entries)) && EntriesOf(Folder(ino, nlink, entries)) == entries
  {
  }

  lemma FileKind(ino: u64)
    ensures NodeKindValid(EmptyFile(ino)) && EntriesOf(EmptyFile(ino)) == []
  {
    ConfigRoundTrip(Config(4096), 4096);
  }

  lemma TestNodes()
    ensures var nodes := TestNamespace().nodes;
      && nodes.Keys == {1, 2, 3, 4, 5}
      && nodes[1] == Folder(1, 4, [DirectoryEntry("a", 2), DirectoryEntry("b", 3)])
      && nodes[2] == Folder(2, 2, [DirectoryEntry("file", 4)])
      && nodes[3] == Folder(3, 2, [DirectoryEntry("file", 5)])
      && nodes[4] == EmptyFile(4) && nodes[5] == EmptyFile(5)
  {
  }

  lemma TestKinds()
    ensures KindsValid(TestNamespace())
  {
    hide TestNamespace, NodeKindValid, Folder, EmptyFile;
    TestNodes();
    FolderKind(1, 4, [DirectoryEntry("a", 2), DirectoryEntry("b", 3)]);
    FolderKind(2, 2, [DirectoryEntry("file", 4)]);
    FolderKind(3, 2, [DirectoryEntry("file", 5)]);
    FileKind(4);
    FileKind(5);
  }

  lemma TestNames()
    ensures NamesValid(TestNamespace())
  {
    hide TestNamespace;
    TestNodes();
    assert "a"[0] == 'a' && "b"[0] == 'b' && "file"[0] == 'f' && |"file"| == 4;
    assert EntryNamesValid([DirectoryEntry("a", 2), DirectoryEntry("b", 3)]);
    assert EntryNamesValid([DirectoryEntry("file", 4)]);
    assert EntryNamesValid([DirectoryEntry("file", 5)]);
    assert EntryNamesValid([]);
  }

  lemma TestHeader()
    ensures HeaderValid(TestNamespace()) && InodesValid(TestNamespace())
  {
    ConfigRoundTrip(Config(4096), 4096);
  }

  lemma TestRooted()
    ensures LinksResolve(TestNamespace()) && DirectoriesRooted(TestNamespace())
  {
    var ns := TestNamespace();
    TestNodes();
    TestSlots();
    TestChildren();
    assert LinksResolve(ns);
    SubtreeClosed(ns, 1);
    assert 2 in Children(ns, 1) && 3 in Children(ns, 1);
  }

  lemma TestCounts()
    ensures DirectoryCountsValid(TestNamespace()) && FileCountsValid(TestNamespace())
  {
    hide Slots, Links, ChildDirectories;
    TestNodes();
    TestLinks();
  }

  /** The namespace of the delegation tests passes validation. */
  lemma TestNamespaceValid()
    ensures Valid(TestNamespace())
  {
    hide TestNamespace, HeaderValid, InodesValid, KindsValid, NamesValid, LinksResolve,
         DirectoryCountsValid, DirectoriesRooted, FileCountsValid;
    TestHeader();
    TestKinds();
    TestNames();
    TestRooted();
    TestCounts();
  }

  /** A directory whose only entry is a file linked nowhere else can be claimed. */
  lemma LoneFileClaimable(ns: Namespace, folder: InodeId, file: InodeId)
    requires LinksResolve(ns) && IsDirectory(ns, folder)
    requires Children(ns, folder) == {file} && Children(ns, file) == {}
    requires forall parent | parent in ns.nodes && parent != folder :: file !in Children(ns, parent)
    ensures Subtree(ns, folder) == {folder, file} && Claimable(ns, folder)
  {
    SubtreeClosed(ns, folder);
    SubtreeLeast(ns, folder, {folder, file});
  }

  lemma TestSubtrees()
    ensures var ns := TestNamespace();
      && Subtree(ns, 2) == {2, 4} && Subtree(ns, 3) == {3, 5}
      && Claimable(ns, 2) && Claimable(ns, 3)
  {
    hide TestNamespace, LinksResolve, Subtree, Sealed, Children;
    TestNodes();
    TestChildren();
    TestRooted();
    LoneFileClaimable(TestNamespace(), 2, 4);
    LoneFileClaimable(TestNamespace(), 3, 5);
  }

  /** The opening of the delegation tests: a session obtains fence 1 on one directory and a
      retry returns the same grant, the root above it is refused, and another session obtains
      fence 2 on the sibling. */
  lemma SiblingsGrantedRootRefused(backing: BackingId)
    requires BackingValid(backing)
    ensures
      var ns, start := TestNamespace(), Initial(backing);
      var first := CheckoutResult(start, ns, 2, "session-a");
      && first.Ok? && first.value.1.token == GrantToken(2, "session-a", 1)
      && var one := first.value.0;
      && CheckoutResult(one, ns, 2, "session-a") == Ok((one, first.value.1))
      && CheckoutResult(one, ns, 1, "other").Err?
      && var second := CheckoutResult(one, ns, 3, "session-b");
      && second.Ok? && second.value.1.token == GrantToken(3, "session-b", 2)
      && StateValid(second.value.0, ns)
  {
    hide TestNamespace, Valid, Subtree, Sealed, ReceiptsValid;
    var ns, start := TestNamespace(), Initial(backing);
    TestNamespaceValid();
    TestSubtrees();
    TestNodes();
    InitialValid(backing, ns);
    CheckoutPreserves(start, ns, 2, "session-a");
    var one := Issue(start, FreshGrant(start, 2, "session-a"));
    assert one.grants.Keys == {2};
    RootHoldsEverything();
    CheckoutPreserves(one, ns, 3, "session-b");
  }

  lemma RootHoldsEverything()
    ensures 2 in Subtree(TestNamespace(), 1)
  {
    var ns := TestNamespace();
    TestNamespaceValid();
    TestChildren();
    SubtreeClosed(ns, 1);
  }

  // ---- Two sessions writing at once -----------------------------------------

  /** The empty file with a later modification time. */
  function TouchedFile(ino: u64): NodeMetadata {
    var file := EmptyFile(ino);
    file.(stats := file.stats.(mtimeMs := 1))
  }

  function Touched(inode: InodeId): Namespace {
    WithNode(TestNamespace(), inode, TouchedFile(inode))
  }

  /** The state after both sessions have checked out. */
  function BothHeld(backing: BackingId): State {
    State(backing, 3, map[
      2 := DirectoryGrant(GrantToken(2, "session-a", 1), {}),
      3 := DirectoryGrant(GrantToken(3, "session-b", 2), {})], {})
  }

  lemma BothHeldReached(backing: BackingId)
    requires BackingValid(backing)
    ensures StateValid(BothHeld(backing), TestNamespace())
  {
    hide TestNamespace, StateValid;
    var ns, start := TestNamespace(), Initial(backing);
    SiblingsGrantedRootRefused(backing);
    var one := Issue(start, FreshGrant(start, 2, "session-a"));
    assert CheckoutResult(start, ns, 2, "session-a").value.0 == one;
    assert CheckoutResult(one, ns, 3, "session-b").value.0 == BothHeld(backing);
  }

  lemma TouchAccepted(backing: BackingId, root: InodeId, inode: InodeId)
    requires StateValid(BothHeld(backing), TestNamespace())
    requires (root == 2 && inode == 4) || (root == 3 && inode == 5)
    ensures
      var st := BothHeld(backing);
      && PublishResult(st, TestNamespace(), Touched(inode), st.grants[root].token).Ok?
      && inode in Owned(TestNamespace(), st.grants[root]) && Allocated(TestNamespace(), Touched(inode)) == {}
  {
    hide TestNamespace, StateValid, Subtree, NodeKindValid;
    TestNodes();
    TestSubtrees();
    FileKind(inode);
    TouchedKind(inode);
    ContentWriteIffHeld(
      BothHeld(backing), TestNamespace(), BothHeld(backing).grants[root].token, inode, TouchedFile(inode));
  }

  lemma TouchedKind(ino: u64)
    ensures NodeKindValid(TouchedFile(ino))
  {
    FileKind(ino);
  }

  /** Both sessions touch their own file starting from the same namespace; the merge carries
      both changes and is accepted after either. */
  lemma SiblingsWriteAtOnce(backing: BackingId)
    requires BackingValid(backing)
    ensures
      var ns, st := TestNamespace(), BothHeld(backing);
      var t, u := st.grants[2].token, st.grants[3].token;
      var m := Merged(ns, ProposalOf(st, Touched(4), t), ProposalOf(st, Touched(5), u));
      && PublishResult(st, ns, Touched(4), t).Ok? && PublishResult(st, ns, Touched(5), u).Ok?
      && PublishResult(PublishResult(st, ns, Touched(4), t).value, Touched(4), m, u).Ok?
      && PublishResult(PublishResult(st, ns, Touched(5), u).value, Touched(5), m, t).Ok?
      && 4 in m.nodes && m.nodes[4] == TouchedFile(4) && 5 in m.nodes && m.nodes[5] == TouchedFile(5)
  {
    hide TestNamespace, StateValid, PublishResult, Merged, Owned;
    var ns, st := TestNamespace(), BothHeld(backing);
    var t, u := st.grants[2].token, st.grants[3].token;
    BothHeldReached(backing);
    TouchAccepted(backing, 2, 4);
    TouchAccepted(backing, 3, 5);
    ConcurrentPublicationsMerge(st, ns, Touched(4), t, Touched(5), u);
    var m := Merged(ns, ProposalOf(st, Touched(4), t), ProposalOf(st, Touched(5), u));
    assert Unchanged(Touched(4), m, 4) && Unchanged(Touched(5), m, 5);
  }
}
