/** Per-inode publication (MRC4) of src/storage.rs: which replacements of one node are
    admitted, why admitted ones keep the namespace valid, and what comparing versions buys. */
module InodePublication {
  import opened Base
  import opened Storage
  import opened Tree
  import Validator

  /** `inode_publication_attributes_allowed`. */
  predicate AttributesAllowed(inode: InodeId, original: Stats, next: Stats, originalFile: bool, nextFile: bool) {
    && inode != 0
    && originalFile && nextFile
    && original.ino == inode && next.ino == inode
    && FileType(original) == S_IFREG && FileType(next) == S_IFREG
    && original.dev == next.dev
    && original.mode == next.mode
    && original.nlink == next.nlink
    && original.uid == next.uid
    && original.gid == next.gid
    && original.rdev == next.rdev
    && original.blksize == next.blksize
    && original.atimeMs == next.atimeMs
    && original.birthtimeMs == next.birthtimeMs
  }

  predicate PublicationAllowed(inode: InodeId, original: NodeMetadata, next: NodeMetadata) {
    && NodeKindValid(original) && NodeKindValid(next)
    && AttributesAllowed(inode, original.stats, next.stats, original.data.File?, next.data.File?)
  }

  method ValidateInodePublication(inode: InodeId, original: NodeMetadata, next: NodeMetadata) returns (r: Outcome)
    ensures r.Pass? <==> PublicationAllowed(inode, original, next)
  {
    r := Validator.ValidateNodeKind(original);
    if r.Fail? { return; }
    r := Validator.ValidateNodeKind(next);
    if r.Fail? { return; }
    return if AttributesAllowed(inode, original.stats, next.stats, original.data.File?, next.data.File?)
           then Pass else Fail;
  }

  /** The same file with other content: only the layout, the sizes and the change times differ. */
  predicate ContentReplaced(original: NodeMetadata, next: NodeMetadata) {
    && original.data.File? && next.data.File?
    && next.stats == original.stats.(
         size := next.stats.size, blocks := next.stats.blocks,
         mtimeMs := next.stats.mtimeMs, ctimeMs := next.stats.ctimeMs)
  }

  /** Admitted publications are exactly content replacements of a valid file by a valid file. */
  lemma AllowedIffContentReplaced(inode: InodeId, original: NodeMetadata, next: NodeMetadata)
    ensures PublicationAllowed(inode, original, next) <==>
      && inode != 0 && original.stats.ino == inode
      && NodeKindValid(original) && NodeKindValid(next) && ContentReplaced(original, next)
  {
  }

  function WithNode(ns: Namespace, inode: InodeId, next: NodeMetadata): Namespace {
    ns.(nodes := ns.nodes[inode := next])
  }

  /** Same header, same inodes, and every node unchanged or with its content replaced. */
  predicate SameStructure(ns: Namespace, ns': Namespace) {
    && ns' == ns.(nodes := ns'.nodes)
    && ns'.nodes.Keys == ns.nodes.Keys
    && (forall inode | inode in ns.nodes ::
          ns'.nodes[inode] == ns.nodes[inode] || ContentReplaced(ns.nodes[inode], ns'.nodes[inode]))
  }

  lemma StructureSlots(ns: Namespace, ns': Namespace)
    requires SameStructure(ns, ns')
    ensures Slots(ns') == Slots(ns)
    ensures forall slot | slot in Slots(ns) :: EntryAt(ns', slot) == EntryAt(ns, slot)
    ensures forall inode :: IsDirectory(ns', inode) <==> IsDirectory(ns, inode)
    ensures forall inode :: Children(ns', inode) == Children(ns, inode)
  {
    forall inode | inode in ns.nodes ensures EntriesOf(ns'.nodes[inode]) == EntriesOf(ns.nodes[inode]) {}
  }

  lemma StructureLinks(ns: Namespace, ns': Namespace)
    requires SameStructure(ns, ns')
    ensures forall inode :: Links(ns', inode) == Links(ns, inode)
    ensures forall inode :: ChildDirectories(ns', inode) == ChildDirectories(ns, inode)
  {
    StructureSlots(ns, ns');
  }

  lemma StructureSubtree(ns: Namespace, ns': Namespace, root: InodeId)
    requires SameStructure(ns, ns') && LinksResolve(ns) && root in ns.nodes
    ensures LinksResolve(ns') && Subtree(ns', root) == Subtree(ns, root)
  {
    StructureSlots(ns, ns');
    SubtreeFrame(ns, ns', root);
  }

  /** Validity depends on structure and on each node's own kind and layout. */
  lemma StructureKeepsValid(ns: Namespace, ns': Namespace)
    requires Valid(ns) && SameStructure(ns, ns') && KindsValid(ns')
    ensures Valid(ns')
  {
    StructureSlots(ns, ns');
    StructureLinks(ns, ns');
    StructureSubtree(ns, ns', ns.root);
    forall inode | inode in ns'.nodes ensures EntryNamesValid(EntriesOf(ns'.nodes[inode])) {
      assert EntryNamesValid(EntriesOf(ns.nodes[inode]));
    }
  }

  /** Replacing one node by an admitted one keeps the whole namespace valid. */
  lemma PublicationKeepsValid(ns: Namespace, inode: InodeId, next: NodeMetadata)
    requires Valid(ns) && inode in ns.nodes && PublicationAllowed(inode, ns.nodes[inode], next)
    ensures Valid(WithNode(ns, inode, next)) && SameStructure(ns, WithNode(ns, inode, next))
  {
    var ns' := WithNode(ns, inode, next);
    AllowedIffContentReplaced(inode, ns.nodes[inode], next);
    assert SameStructure(ns, ns');
    PublishedKindsValid(ns, inode, next);
    StructureKeepsValid(ns, ns');
  }

  lemma PublishedKindsValid(ns: Namespace, inode: InodeId, next: NodeMetadata)
    requires KindsValid(ns) && NodeKindValid(next)
    ensures KindsValid(WithNode(ns, inode, next))
  {
    forall i | i in WithNode(ns, inode, next).nodes ensures NodeKindValid(WithNode(ns, inode, next).nodes[i]) {
      if i != inode { assert NodeKindValid(ns.nodes[i]); }
    }
  }

  // ---- Snapshots ------------------------------------------------------------

  datatype Snapshot = Snapshot(structuralGeneration: u64, namespace: Namespace, revisions: map<InodeId, u64>)

  /** `InodeMetadataSnapshot::validate`. */
  ghost predicate SnapshotValid(snapshot: Snapshot) {
    && snapshot.structuralGeneration != 0
    && Valid(snapshot.namespace)
    && snapshot.revisions.Keys == snapshot.namespace.nodes.Keys
  }

  method ValidateSnapshot(snapshot: Snapshot) returns (r: Outcome)
    ensures r.Pass? <==> SnapshotValid(snapshot)
    ensures r.Pass? <==>
      && snapshot.structuralGeneration != 0 && Valid(snapshot.namespace)
      && snapshot.revisions.Keys == snapshot.namespace.nodes.Keys
  {
    if snapshot.structuralGeneration == 0 { return Fail; }
    r := Validator.Validate(snapshot.namespace);
    if r.Fail? { return; }
    return if snapshot.revisions.Keys != snapshot.namespace.nodes.Keys then Fail else Pass;
  }

  // ---- Versioned publication -------------------------------------------------

  datatype InodeVersion = InodeVersion(structuralGeneration: u64, inodeRevision: u64)

  function VersionOf(snapshot: Snapshot, inode: InodeId): InodeVersion
    requires inode in snapshot.revisions
  {
    InodeVersion(snapshot.structuralGeneration, snapshot.revisions[inode])
  }

  /** One conditional write: a node against the version it was read at, or a whole namespace
      against the generation and every inode revision it was built from. */
  datatype Update =
    | InodeUpdate(inode: InodeId, expected: InodeVersion, next: NodeMetadata)
    | StructureUpdate(generation: u64, revisions: map<InodeId, u64>, namespace: Namespace)

  /** The stored inode is still at the version the writer read. */
  predicate VersionHolds(snapshot: Snapshot, inode: InodeId, expected: InodeVersion) {
    && inode in snapshot.namespace.nodes && inode in snapshot.revisions
    && VersionOf(snapshot, inode) == expected
  }

  /** The compare-and-swap of `publish_inode_if_version` and `publish_structure_if_versions`:
      the first moves one inode to its next revision, the second moves to the next generation
      with every revision back at zero. */
  ghost function Publish(snapshot: Snapshot, update: Update): Result<Snapshot> {
    var ns := snapshot.namespace;
    match update
    case InodeUpdate(inode, expected, next) =>
      if && VersionHolds(snapshot, inode, expected)
         && expected.inodeRevision < U64_MAX
         && PublicationAllowed(inode, ns.nodes[inode], next)
      then
        Ok(snapshot.(
          namespace := WithNode(ns, inode, next),
          revisions := snapshot.revisions[inode := expected.inodeRevision + 1]))
      else Err
    case StructureUpdate(generation, revisions, namespace) =>
      if && Valid(namespace)
         && generation < U64_MAX
         && snapshot.structuralGeneration == generation
         && snapshot.revisions == revisions
      then Ok(Snapshot(generation + 1, namespace, map inode | inode in namespace.nodes :: 0))
      else Err
  }

  /** The snapshot after a conditional write, a refused one changing nothing. */
  ghost function After(snapshot: Snapshot, update: Update): Snapshot {
    var r := Publish(snapshot, update);
    if r.Ok? then r.value else snapshot
  }

  ghost function PublishAll(snapshot: Snapshot, history: seq<Update>): Snapshot
    decreases |history|
  {
    if history == [] then snapshot else PublishAll(After(snapshot, history[0]), history[1..])
  }

  /** How a snapshot may develop: generations never fall; within one generation the structure
      is fixed, revisions never fall, and an inode at the same revision is the same node. */
  predicate Evolves(s: Snapshot, t: Snapshot)
    requires s.revisions.Keys == s.namespace.nodes.Keys && t.revisions.Keys == t.namespace.nodes.Keys
  {
    && s.structuralGeneration <= t.structuralGeneration
    && (s.structuralGeneration == t.structuralGeneration ==>
          && SameStructure(s.namespace, t.namespace)
          && (forall inode | inode in s.revisions ::
                && s.revisions[inode] <= t.revisions[inode]
                && (s.revisions[inode] == t.revisions[inode] ==>
                      s.namespace.nodes[inode] == t.namespace.nodes[inode])))
  }

  lemma SameStructureTransitive(a: Namespace, b: Namespace, c: Namespace)
    requires SameStructure(a, b) && SameStructure(b, c)
    ensures SameStructure(a, c)
  {
    forall inode | inode in a.nodes
      ensures c.nodes[inode] == a.nodes[inode] || ContentReplaced(a.nodes[inode], c.nodes[inode])
    {
      assert inode in b.nodes;
    }
  }

  lemma UpdateEvolves(snapshot: Snapshot, update: Update)
    requires SnapshotValid(snapshot)
    ensures SnapshotValid(After(snapshot, update)) && Evolves(snapshot, After(snapshot, update))
  {
    if Publish(snapshot, update).Ok? && update.InodeUpdate? {
      PublicationKeepsValid(snapshot.namespace, update.inode, update.next);
    }
  }

  lemma EvolvesTransitive(a: Snapshot, b: Snapshot, c: Snapshot)
    requires SnapshotValid(a) && SnapshotValid(b) && SnapshotValid(c)
    requires Evolves(a, b) && Evolves(b, c)
    ensures Evolves(a, c)
  {
    hide Valid;
    if a.structuralGeneration == c.structuralGeneration {
      SameStructureTransitive(a.namespace, b.namespace, c.namespace);
    }
  }

  lemma {:induction false} HistoryEvolves(snapshot: Snapshot, history: seq<Update>)
    requires SnapshotValid(snapshot)
    ensures SnapshotValid(PublishAll(snapshot, history)) && Evolves(snapshot, PublishAll(snapshot, history))
    decreases |history|
  {
    if history != [] {
      var next := After(snapshot, history[0]);
      UpdateEvolves(snapshot, history[0]);
      HistoryEvolves(next, history[1..]);
      EvolvesTransitive(snapshot, next, PublishAll(next, history[1..]));
    }
  }

  /** Whatever is published, the snapshot stays valid; and as long as the generation has not
      moved, every inode, header field and structural attribute is the same and every subtree
      is the same set. */
  lemma HistoryKeepsStructure(snapshot: Snapshot, history: seq<Update>)
    requires SnapshotValid(snapshot)
    ensures
      var later := PublishAll(snapshot, history);
      && SnapshotValid(later)
      && snapshot.structuralGeneration <= later.structuralGeneration
      && (later.structuralGeneration == snapshot.structuralGeneration ==>
            && SameStructure(snapshot.namespace, later.namespace)
            && forall root | root in snapshot.namespace.nodes ::
                 Subtree(later.namespace, root) == Subtree(snapshot.namespace, root))
  {
    HistoryEvolves(snapshot, history);
    var later := PublishAll(snapshot, history);
    if later.structuralGeneration == snapshot.structuralGeneration {
      forall root | root in snapshot.namespace.nodes
        ensures Subtree(later.namespace, root) == Subtree(snapshot.namespace, root)
      {
        StructureSubtree(snapshot.namespace, later.namespace, root);
      }
    }
  }

  /** No lost update: whatever was published since a snapshot was read, a write conditional on
      its versions is accepted only while what it was computed from is still current: the one
      node for an inode write, the entire snapshot for a structural one. */
  lemma NoLostUpdate(read: Snapshot, history: seq<Update>, update: Update)
    requires SnapshotValid(read) && Publish(PublishAll(read, history), update).Ok?
    ensures
      var current := PublishAll(read, history);
      match update
      case InodeUpdate(inode, expected, _) =>
        VersionHolds(read, inode, expected) ==> current.namespace.nodes[inode] == read.namespace.nodes[inode]
      case StructureUpdate(generation, revisions, _) =>
        generation == read.structuralGeneration && revisions == read.revisions ==> current == read
  {
    HistoryEvolves(read, history);
    var current := PublishAll(read, history);
    if update.StructureUpdate? && update.generation == read.structuralGeneration && update.revisions == read.revisions {
      assert forall inode | inode in read.revisions :: current.namespace.nodes[inode] == read.namespace.nodes[inode];
      assert current.namespace.nodes == read.namespace.nodes;
    }
  }

  /** An accepted write makes its own version stale, for ever: no later write conditional on
      what it replaced is accepted, whatever happens in between. */
  lemma StaleWriteRefused(snapshot: Snapshot, first: Update, history: seq<Update>, second: Update)
    requires SnapshotValid(snapshot) && Publish(snapshot, first).Ok?
    requires match second
      case InodeUpdate(inode, expected, _) =>
        && VersionHolds(snapshot, inode, expected)
        && (first.InodeUpdate? ==> first.inode == inode)
      case StructureUpdate(generation, revisions, _) =>
        generation == snapshot.structuralGeneration && revisions == snapshot.revisions
    ensures Publish(PublishAll(Publish(snapshot, first).value, history), second).Err?
  {
    hide Valid, PublicationAllowed, SameStructure;
    UpdateEvolves(snapshot, first);
    HistoryEvolves(Publish(snapshot, first).value, history);
    assert first.InodeUpdate? ==> first.inode in snapshot.revisions;
  }

  /** An inode write is accepted exactly when it is conditional on the current version, that
      version has a successor, and it replaces only the content of the file; then that one
      node and its revision move, and nothing else. */
  lemma InodeWriteExact(snapshot: Snapshot, inode: InodeId, expected: InodeVersion, next: NodeMetadata)
    requires SnapshotValid(snapshot)
    ensures
      var ns, r := snapshot.namespace, Publish(snapshot, InodeUpdate(inode, expected, next));
      && (r.Ok? <==>
            && inode in ns.nodes
            && expected.structuralGeneration == snapshot.structuralGeneration
            && expected.inodeRevision == snapshot.revisions[inode] < U64_MAX
            && NodeKindValid(next) && ContentReplaced(ns.nodes[inode], next))
      && (r.Ok? ==> r.value == Snapshot(
            snapshot.structuralGeneration,
            ns.(nodes := ns.nodes[inode := next]),
            snapshot.revisions[inode := snapshot.revisions[inode] + 1]))
  {
    hide NodeKindValid, NamesValid, LinksResolve, DirectoryCountsValid, DirectoriesRooted, FileCountsValid;
    if inode in snapshot.namespace.nodes {
      assert NodeKindValid(snapshot.namespace.nodes[inode]);
      AllowedIffContentReplaced(inode, snapshot.namespace.nodes[inode], next);
    }
  }

  /** A structural write is accepted exactly when it is conditional on the current generation
      and every current revision, has a next generation, and proposes a valid namespace; then
      every inode starts over at revision zero of the next generation. */
  lemma StructureWriteExact(snapshot: Snapshot, generation: u64, revisions: map<InodeId, u64>, ns: Namespace)
    ensures
      var r := Publish(snapshot, StructureUpdate(generation, revisions, ns));
      && (r.Ok? <==>
            && generation == snapshot.structuralGeneration < U64_MAX
            && revisions == snapshot.revisions && Valid(ns))
      && (r.Ok? ==>
            && r.value.namespace == ns && r.value.revisions.Keys == ns.nodes.Keys
            && (forall inode | inode in ns.nodes ::
                  VersionOf(r.value, inode) == InodeVersion(snapshot.structuralGeneration + 1, 0)))
  {
    hide Valid;
  }

  /** Publications to distinct inodes commute: same verdicts and same snapshot either way. */
  lemma DistinctPublicationsCommute(snapshot: Snapshot, p: Update, q: Update)
    requires p.InodeUpdate? && q.InodeUpdate? && p.inode != q.inode
    ensures After(After(snapshot, p), q) == After(After(snapshot, q), p)
    ensures Publish(After(snapshot, p), q).Ok? <==> Publish(snapshot, q).Ok?
  {
    hide PublicationAllowed, Valid;
    var s := snapshot;
    assert s.namespace.nodes[p.inode := p.next][q.inode := q.next]
        == s.namespace.nodes[q.inode := q.next][p.inode := p.next];
    if p.expected.inodeRevision < U64_MAX && q.expected.inodeRevision < U64_MAX {
      var i, j := p.expected.inodeRevision + 1, q.expected.inodeRevision + 1;
      assert s.revisions[p.inode := i][q.inode := j] == s.revisions[q.inode := j][p.inode := i];
    }
  }
}
