/** The persisted namespace of src/storage.rs and what it means for one to be valid. */
module Storage {
  import opened Base
  import opened Chunking

  const S_IFMT: bv32 := 0xF000
  const S_IFREG: bv32 := 0x8000
  const S_IFDIR: bv32 := 0x4000
  const S_IFLNK: bv32 := 0xA000
  const S_IFBLK: bv32 := 0x6000
  const S_IFCHR: bv32 := 0x2000
  const S_IFIFO: bv32 := 0x1000
  const S_IFSOCK: bv32 := 0xC000

  const NAMESPACE_FORMAT_VERSION := 1

  datatype Stats = Stats(
    dev: u64, ino: u64, mode: bv32, nlink: u64, uid: u32, gid: u32, rdev: u64,
    size: u64, blksize: u64, blocks: u64,
    atimeMs: i64, mtimeMs: i64, ctimeMs: i64, birthtimeMs: i64)

  datatype BlockExtent = BlockExtent(fileOffset: u64, block: string, blockOffset: u64, length: u64)
  datatype FileLayout = FileLayout(chunker: ChunkerConfig, extents: seq<BlockExtent>)
  datatype DirectoryEntry = DirectoryEntry(name: string, inode: InodeId)

  datatype NodeData =
    | Directory(entries: seq<DirectoryEntry>)
    | File(layout: FileLayout)
    | Symlink(target: string)
    | Special

  datatype NodeMetadata = NodeMetadata(stats: Stats, data: NodeData)

  datatype Namespace = Namespace(
    formatVersion: u32, root: InodeId, nextInode: InodeId,
    defaultUid: u32, defaultGid: u32, umask: u32,
    defaultChunker: ChunkerConfig, nodes: map<InodeId, NodeMetadata>)

  function FileType(stats: Stats): bv32 {
    stats.mode & S_IFMT
  }

  predicate IsDirectory(ns: Namespace, inode: InodeId) {
    inode in ns.nodes && ns.nodes[inode].data.Directory?
  }

  function EntriesOf(node: NodeMetadata): seq<DirectoryEntry> {
    if node.data.Directory? then node.data.entries else []
  }

  // ---- File extents ---------------------------------------------------------

  /** One stored range: nonempty, named, representable, inside the file. */
  predicate ExtentInRange(extent: BlockExtent, fileSize: u64) {
    && extent.length != 0
    && extent.block != ""
    && extent.blockOffset + extent.length <= U64_MAX
    && extent.fileOffset + extent.length <= fileSize
  }

  predicate Covers(extent: BlockExtent, offset: int) {
    extent.fileOffset <= offset < extent.fileOffset + extent.length
  }

  /** Every extent in range and every earlier one wholly before every later one. */
  predicate ExtentsValid(extents: seq<BlockExtent>, fileSize: u64) {
    && (forall i | 0 <= i < |extents| :: ExtentInRange(extents[i], fileSize))
    && (forall i, j | 0 <= i < j < |extents| ::
          extents[i].fileOffset + extents[i].length <= extents[j].fileOffset)
  }

  // ---- Nodes ----------------------------------------------------------------

  predicate LayoutValid(layout: FileLayout, fileSize: u64) {
    FromConfig(layout.chunker).Ok? && ExtentsValid(layout.extents, fileSize)
  }

  /** The node's data agrees with its mode, and a file's layout is valid. */
  predicate NodeKindValid(node: NodeMetadata) {
    var kind := FileType(node.stats);
    match node.data
    case Directory(_) => kind == S_IFDIR
    case File(layout) => kind == S_IFREG && LayoutValid(layout, node.stats.size)
    case Symlink(_) => kind == S_IFLNK
    case Special => kind == S_IFBLK || kind == S_IFCHR || kind == S_IFIFO || kind == S_IFSOCK
  }

  predicate EntryNameValid(name: string) {
    name != "" && name != "." && name != ".." && '/' !in name && '\0' !in name
  }

  // ---- Links ----------------------------------------------------------------

  /** A directory slot: a directory and the index of one of its entries. */
  type Slot = (InodeId, nat)

  function Slots(ns: Namespace): set<Slot> {
    set parent: InodeId, k: nat |
      parent in ns.nodes && k < |EntriesOf(ns.nodes[parent])| :: (parent, k)
  }

  function EntryAt(ns: Namespace, slot: Slot): DirectoryEntry
    requires slot in Slots(ns)
  {
    EntriesOf(ns.nodes[slot.0])[slot.1]
  }

  /** The slots that reference an inode; their number is its reference count. */
  function Links(ns: Namespace, inode: InodeId): set<Slot> {
    set slot | slot in Slots(ns) && EntryAt(ns, slot).inode == inode
  }

  /** The slots of one directory that reference directories. */
  function ChildDirectories(ns: Namespace, parent: InodeId): set<Slot> {
    set slot | slot in Slots(ns) && slot.0 == parent && IsDirectory(ns, EntryAt(ns, slot).inode)
  }

  // ---- Reachability ---------------------------------------------------------

  function TargetsOf(entries: seq<DirectoryEntry>): set<InodeId> {
    set entry | entry in entries :: entry.inode
  }

  function Children(ns: Namespace, inode: InodeId): set<InodeId> {
    if inode in ns.nodes then TargetsOf(EntriesOf(ns.nodes[inode])) else {}
  }

  /** The set holds the root and, with any inode, everything its entries name. */
  ghost predicate ClosedFrom(ns: Namespace, root: InodeId, closed: set<InodeId>) {
    root in closed && forall inode | inode in closed :: Children(ns, inode) <= closed
  }

  ghost predicate InEveryClosed(ns: Namespace, root: InodeId, inode: InodeId) {
    forall closed :: ClosedFrom(ns, root, closed) ==> inode in closed
  }

  /** Everything below a directory, itself included: the least set closed under entries.
      `Tree.SubtreeIsReachable` shows it is what following entries step by step reaches. */
  ghost function Subtree(ns: Namespace, root: InodeId): set<InodeId> {
    set inode | inode in ns.nodes && InEveryClosed(ns, root, inode)
  }

  // ---- Validity -------------------------------------------------------------

  predicate InodesValid(ns: Namespace) {
    forall inode | inode in ns.nodes ::
      0 < inode < ns.nextInode && ns.nodes[inode].stats.ino == inode
  }

  predicate KindsValid(ns: Namespace) {
    forall inode {:trigger NodeKindValid(ns.nodes[inode])} | inode in ns.nodes ::
      NodeKindValid(ns.nodes[inode])
  }

  /** Entry names are well formed and unique within one directory. */
  predicate EntryNamesValid(entries: seq<DirectoryEntry>) {
    && (forall k | 0 <= k < |entries| :: EntryNameValid(entries[k].name))
    && (forall j, k | 0 <= j < k < |entries| :: entries[j].name != entries[k].name)
  }

  predicate NamesValid(ns: Namespace) {
    forall inode {:trigger EntryNamesValid(EntriesOf(ns.nodes[inode]))} | inode in ns.nodes ::
      EntryNamesValid(EntriesOf(ns.nodes[inode]))
  }

  /** No entry dangles. */
  predicate LinksResolve(ns: Namespace) {
    forall slot | slot in Slots(ns) :: EntryAt(ns, slot).inode in ns.nodes
  }

  /** The root is nobody's child and every other directory has one parent slot. */
  predicate ParentCountsValid(ns: Namespace) {
    forall inode {:trigger Links(ns, inode)} | IsDirectory(ns, inode) ::
      |Links(ns, inode)| == (if inode == ns.root then 0 else 1)
  }

  /** A directory also counts itself, its `.` and one `..` per child directory. */
  predicate DirectoryCountsValid(ns: Namespace) {
    && ParentCountsValid(ns)
    && (forall inode {:trigger ChildDirectories(ns, inode)} | IsDirectory(ns, inode) ::
          ns.nodes[inode].stats.nlink == 2 + |ChildDirectories(ns, inode)|)
  }

  ghost predicate DirectoriesRooted(ns: Namespace) {
    forall inode {:trigger inode in Subtree(ns, ns.root)} | IsDirectory(ns, inode) ::
      inode in Subtree(ns, ns.root)
  }

  predicate FileCountsValid(ns: Namespace) {
    forall inode {:trigger Links(ns, inode)} | inode in ns.nodes && !IsDirectory(ns, inode) ::
      ns.nodes[inode].stats.nlink == |Links(ns, inode)|
  }

  predicate HeaderValid(ns: Namespace) {
    && ns.formatVersion == NAMESPACE_FORMAT_VERSION
    && FromConfig(ns.defaultChunker).Ok?
    && IsDirectory(ns, ns.root)
  }

  /** What `Namespace::validate` accepts. */
  ghost predicate Valid(ns: Namespace) {
    && HeaderValid(ns)
    && InodesValid(ns)
    && KindsValid(ns)
    && NamesValid(ns)
    && LinksResolve(ns)
    && DirectoryCountsValid(ns)
    && DirectoriesRooted(ns)
    && FileCountsValid(ns)
  }
}
