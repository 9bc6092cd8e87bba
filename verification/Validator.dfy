/** `Namespace::validate` of src/storage.rs, loop by loop, against `Storage.Valid`. */
module Validator {
  import opened Base
  import opened Chunking
  import opened Storage
  import opened Tree

  // ---- Extents and kinds ----------------------------------------------------

  /** For a list of any length: accepted exactly when every extent is in range and they
      are pairwise disjoint in increasing order. */
  method ValidateFileExtents(extents: seq<BlockExtent>, fileSize: u64) returns (r: Outcome)
    ensures r.Pass? <==> ExtentsValid(extents, fileSize)
  {
    var previousEnd: int := -1;  // -1 stands for `None`
    for k := 0 to |extents|
      invariant ExtentsValid(extents[..k], fileSize)
      invariant previousEnd == if k == 0 then -1 else extents[k - 1].fileOffset + extents[k - 1].length
      invariant forall i | 0 <= i < k :: extents[i].fileOffset + extents[i].length <= previousEnd
    {
      var extent := extents[k];
      assert extents[..k + 1] == extents[..k] + [extent];
      if extent.length == 0 { return Fail; }
      if extent.block == "" { return Fail; }
      var fileEnd := extent.fileOffset + extent.length;
      if fileEnd > U64_MAX { return Fail; }
      if extent.blockOffset + extent.length > U64_MAX { return Fail; }
      if fileEnd > fileSize { return Fail; }
      if previousEnd != -1 && extent.fileOffset < previousEnd { return Fail; }
      previousEnd := fileEnd;
    }
    assert extents[..|extents|] == extents;
    return Pass;
  }

  method ValidateNodeKind(node: NodeMetadata) returns (r: Outcome)
    ensures r.Pass? <==> NodeKindValid(node)
  {
    var kind := node.stats.mode & S_IFMT;
    var valid;
    match node.data {
      case Directory(_) => valid := kind == S_IFDIR;
      case File(layout) =>
        if kind == S_IFREG {
          if FromConfig(layout.chunker).Err? { return Fail; }
          var extentsOutcome := ValidateFileExtents(layout.extents, node.stats.size);
          if extentsOutcome.Fail? { return Fail; }
          valid := true;
        } else {
          valid := false;
        }
      case Symlink(_) => valid := kind == S_IFLNK;
      case Special => valid := kind in {S_IFBLK, S_IFCHR, S_IFIFO, S_IFSOCK};
    }
    return if valid then Pass else Fail;
  }

  // ---- Counting references --------------------------------------------------

  function CountOf(counts: map<InodeId, u64>, inode: InodeId): u64 {
    if inode in counts then counts[inode] else 0
  }

  /** The two reference tables the validator fills. */
  datatype Tally = Tally(references: map<InodeId, u64>, directoryReferences: map<InodeId, u64>)

  /** The tables hold the number of slots seen so far that reference each inode. */
  ghost predicate TallyExact(ns: Namespace, seen: set<Slot>, tally: Tally) {
    forall inode: InodeId ::
      && CountOf(tally.references, inode) == |Links(ns, inode) * seen|
      && (IsDirectory(ns, inode) ==> CountOf(tally.directoryReferences, inode) == |Links(ns, inode) * seen|)
  }

  predicate Incremented(counts: map<InodeId, u64>, counts': map<InodeId, u64>, inode: InodeId) {
    forall i: InodeId :: CountOf(counts', i) == CountOf(counts, i) + (if i == inode then 1 else 0)
  }

  method IncrementCount(counts: map<InodeId, u64>, inode: InodeId)
    returns (r: Outcome, counts': map<InodeId, u64>)
    ensures r.Pass? <==> CountOf(counts, inode) < U64_MAX
    ensures r.Pass? ==> Incremented(counts, counts', inode)
  {
    var count := CountOf(counts, inode);
    if count == U64_MAX { return Fail, counts; }
    return Pass, counts[inode := count + 1];
  }

  lemma CardinalityGrows<T>(s: set<T>, seen: set<T>, x: T)
    requires x !in seen
    ensures |s * (seen + {x})| == |s * seen| + (if x in s then 1 else 0)
  {
    if x in s {
      assert s * (seen + {x}) == s * seen + {x};
    } else {
      assert s * (seen + {x}) == s * seen;
    }
  }

  lemma CardinalitySubset<T>(s: set<T>, t: set<T>)
    requires s <= t
    ensures |s| <= |t|
    ensures |s| == |t| ==> s == t
  {
    assert t == s + (t - s);
  }

  /** One more slot adds one reference to its target and none to anything else. */
  lemma LinkCounted(ns: Namespace, seen: set<Slot>, slot: Slot, inode: InodeId)
    requires slot in Slots(ns) && slot !in seen
    ensures |Links(ns, inode) * (seen + {slot})|
      == |Links(ns, inode) * seen| + (if EntryAt(ns, slot).inode == inode then 1 else 0)
  {
    CardinalityGrows(Links(ns, inode), seen, slot);
  }

  /** A reference count beyond u64 is refused by the link equalities anyway. */
  lemma OverflowIsInvalid(ns: Namespace, inode: InodeId)
    requires inode in ns.nodes && |Links(ns, inode)| > U64_MAX
    ensures !Valid(ns)
  {
  }

  /** So is a child count that leaves no room for the directory's own two links. */
  lemma ChildOverflowIsInvalid(ns: Namespace, inode: InodeId)
    requires IsDirectory(ns, inode) && |ChildDirectories(ns, inode)| > U64_MAX - 2
    ensures !Valid(ns)
  {
    var links := Links(ns, inode);
  }

  function SlotsOf(ns: Namespace, parent: InodeId): set<Slot> {
    set slot | slot in Slots(ns) && slot.0 == parent
  }

  function SlotsBelow(ns: Namespace, parent: InodeId, bound: nat): set<Slot> {
    set slot | slot in Slots(ns) && slot.0 == parent && slot.1 < bound
  }

  lemma BadNamesAreInvalid(ns: Namespace, parent: InodeId)
    requires parent in ns.nodes && !EntryNamesValid(EntriesOf(ns.nodes[parent]))
    ensures !Valid(ns)
  {
  }

  lemma DanglingIsInvalid(ns: Namespace, slot: Slot)
    requires slot in Slots(ns) && EntryAt(ns, slot).inode !in ns.nodes
    ensures !Valid(ns)
  {
  }

  lemma TallyGrows(ns: Namespace, seen: set<Slot>, slot: Slot, tally: Tally, tally': Tally)
    requires slot in Slots(ns) && slot !in seen && TallyExact(ns, seen, tally)
    requires Incremented(tally.references, tally'.references, EntryAt(ns, slot).inode)
    requires if IsDirectory(ns, EntryAt(ns, slot).inode)
             then Incremented(tally.directoryReferences, tally'.directoryReferences, EntryAt(ns, slot).inode)
             else tally'.directoryReferences == tally.directoryReferences
    ensures TallyExact(ns, seen + {slot}, tally')
  {
    forall inode: InodeId
      ensures CountOf(tally'.references, inode) == |Links(ns, inode) * (seen + {slot})|
      ensures IsDirectory(ns, inode) ==>
        CountOf(tally'.directoryReferences, inode) == |Links(ns, inode) * (seen + {slot})|
    {
      LinkCounted(ns, seen, slot, inode);
    }
  }

  lemma FullCountIsInvalid(ns: Namespace, seen: set<Slot>, slot: Slot)
    requires slot in Slots(ns) && slot !in seen && EntryAt(ns, slot).inode in ns.nodes
    requires |Links(ns, EntryAt(ns, slot).inode) * seen| == U64_MAX
    ensures !Valid(ns)
  {
    var inode := EntryAt(ns, slot).inode;
    LinkCounted(ns, seen, slot, inode);
    CardinalitySubset(Links(ns, inode) * (seen + {slot}), Links(ns, inode));
    OverflowIsInvalid(ns, inode);
  }

  /** Counting one entry whose target exists. */
  method TallyEntry(ns: Namespace, parent: InodeId, k: nat, ghost seen: set<Slot>, tally: Tally, children: u64)
    returns (r: Outcome, tally': Tally, children': u64)
    requires (parent, k) in Slots(ns) && (parent, k) !in seen
    requires EntryAt(ns, (parent, k)).inode in ns.nodes
    requires TallyExact(ns, seen, tally) && children == |ChildDirectories(ns, parent) * seen|
    ensures r.Fail? ==> !Valid(ns)
    ensures r.Pass? ==> TallyExact(ns, seen + {(parent, k)}, tally')
    ensures r.Pass? ==> children' == |ChildDirectories(ns, parent) * (seen + {(parent, k)})|
  {
    var inode := EntryAt(ns, (parent, k)).inode;
    CardinalityGrows(ChildDirectories(ns, parent), seen, (parent, k));
    tally', children' := tally, children;
    var outcome, references := IncrementCount(tally.references, inode);
    if outcome.Fail? {
      FullCountIsInvalid(ns, seen, (parent, k));
      return Fail, tally', children';
    }
    var directoryReferences := tally.directoryReferences;
    if ns.nodes[inode].data.Directory? {
      if children == U64_MAX {
        CardinalitySubset(ChildDirectories(ns, parent) * seen, ChildDirectories(ns, parent));
        ChildOverflowIsInvalid(ns, parent);
        return Fail, tally', children';
      }
      children' := children + 1;
      outcome, directoryReferences := IncrementCount(tally.directoryReferences, inode);
      if outcome.Fail? {
        FullCountIsInvalid(ns, seen, (parent, k));
        return Fail, tally', children';
      }
    }
    tally' := Tally(references, directoryReferences);
    TallyGrows(ns, seen, (parent, k), tally, tally');
    r := Pass;
  }

  function NamesOf(entries: seq<DirectoryEntry>): set<string> {
    set entry | entry in entries :: entry.name
  }

  lemma NoneChecked(entries: seq<DirectoryEntry>)
    ensures EntryNamesValid(entries[..0]) && NamesOf(entries[..0]) == {} && TargetsOf(entries[..0]) == {}
  {
  }

  /** The duplicate test on one more name is the pairwise test on one more entry. */
  lemma NamesExtend(entries: seq<DirectoryEntry>, k: nat)
    requires k < |entries| && EntryNamesValid(entries[..k])
    ensures EntryNamesValid(entries[..k + 1]) <==>
      EntryNameValid(entries[k].name) && entries[k].name !in NamesOf(entries[..k])
    ensures EntryNamesValid(entries) ==> EntryNamesValid(entries[..k + 1])
    ensures NamesOf(entries[..k + 1]) == NamesOf(entries[..k]) + {entries[k].name}
  {
    var before, through := entries[..k], entries[..k + 1];
    assert through == before + [entries[k]];
    if entries[k].name in NamesOf(before) {
      var e :| e in before && e.name == entries[k].name;
      var j :| 0 <= j < k && before[j] == e;
      assert through[j].name == through[k].name;
    } else {
      assert forall j | 0 <= j < k :: through[j] == before[j] && before[j] in before;
    }
  }

  lemma TargetsExtend(entries: seq<DirectoryEntry>, k: nat)
    requires k < |entries|
    ensures TargetsOf(entries[..k + 1]) == TargetsOf(entries[..k]) + {entries[k].inode}
  {
    assert entries[..k + 1] == entries[..k] + [entries[k]];
  }

  /** The slots seen by the outer loop and the first `bound` of the current directory. */
  ghost function SeenBelow(ns: Namespace, seen: set<Slot>, parent: InodeId, bound: nat): set<Slot> {
    seen + SlotsBelow(ns, parent, bound)
  }

  lemma SeenBelowStep(ns: Namespace, seen: set<Slot>, parent: InodeId, k: nat)
    requires parent in ns.nodes && k < |EntriesOf(ns.nodes[parent])| && seen !! SlotsOf(ns, parent)
    ensures (parent, k) in Slots(ns) && (parent, k) !in SeenBelow(ns, seen, parent, k)
    ensures SeenBelow(ns, seen, parent, k + 1) == SeenBelow(ns, seen, parent, k) + {(parent, k)}
  {
    assert SlotsBelow(ns, parent, k + 1) == SlotsBelow(ns, parent, k) + {(parent, k)};
  }

  lemma SeenBelowEnds(ns: Namespace, seen: set<Slot>, parent: InodeId)
    requires parent in ns.nodes && seen !! SlotsOf(ns, parent)
    ensures SeenBelow(ns, seen, parent, 0) == seen
    ensures ChildDirectories(ns, parent) * seen == {}
    ensures var all := SeenBelow(ns, seen, parent, |EntriesOf(ns.nodes[parent])|);
      && all == seen + SlotsOf(ns, parent)
      && ChildDirectories(ns, parent) * all == ChildDirectories(ns, parent)
  {
    assert SlotsBelow(ns, parent, |EntriesOf(ns.nodes[parent])|) == SlotsOf(ns, parent);
    assert ChildDirectories(ns, parent) <= SlotsOf(ns, parent);
    assert ChildDirectories(ns, parent) * (seen + SlotsOf(ns, parent)) == ChildDirectories(ns, parent);
  }

  /** The inner loop: one directory's entries checked and counted. */
  method TallyDirectory(ns: Namespace, parent: InodeId, ghost seen: set<Slot>, tally: Tally)
    returns (r: Outcome, tally': Tally, children: u64)
    requires IsDirectory(ns, parent) && seen !! SlotsOf(ns, parent) && TallyExact(ns, seen, tally)
    ensures r.Fail? ==> !Valid(ns)
    ensures r.Pass? ==>
      && EntryNamesValid(EntriesOf(ns.nodes[parent])) && Children(ns, parent) <= ns.nodes.Keys
      && TallyExact(ns, seen + SlotsOf(ns, parent), tally')
      && children == |ChildDirectories(ns, parent)|
  {
    hide Valid, TallyExact, SeenBelow, EntryNamesValid, NamesOf, TargetsOf, ChildDirectories;
    var entries := EntriesOf(ns.nodes[parent]);
    var names: set<string> := {};
    tally', children := tally, 0;
    SeenBelowEnds(ns, seen, parent);
    NoneChecked(entries);
    for k := 0 to |entries|
      invariant EntryNamesValid(entries[..k])
      invariant TargetsOf(entries[..k]) <= ns.nodes.Keys
      invariant names == NamesOf(entries[..k])
      invariant TallyExact(ns, SeenBelow(ns, seen, parent, k), tally')
      invariant children == |ChildDirectories(ns, parent) * SeenBelow(ns, seen, parent, k)|
    {
      var entry := entries[k];
      NamesExtend(entries, k);
      TargetsExtend(entries, k);
      SeenBelowStep(ns, seen, parent, k);
      if !EntryNameValid(entry.name) || entry.name in names {
        BadNamesAreInvalid(ns, parent);
        return Fail, tally', children;
      }
      names := names + {entry.name};
      if entry.inode !in ns.nodes {
        DanglingIsInvalid(ns, (parent, k));
        return Fail, tally', children;
      }
      r, tally', children := TallyEntry(ns, parent, k, SeenBelow(ns, seen, parent, k), tally', children);
      if r.Fail? { return; }
    }
    assert entries[..|entries|] == entries;
    r := Pass;
  }

  /** Both tables and the child counts, complete. */
  ghost predicate CountsComplete(ns: Namespace, tally: Tally, children: map<InodeId, u64>) {
    && (forall inode: InodeId ::
          && CountOf(tally.references, inode) == |Links(ns, inode)|
          && (IsDirectory(ns, inode) ==> CountOf(tally.directoryReferences, inode) == |Links(ns, inode)|))
    && (forall inode | IsDirectory(ns, inode) :: CountOf(children, inode) == |ChildDirectories(ns, inode)|)
  }

  function SlotsIn(ns: Namespace, parents: set<InodeId>): set<Slot> {
    set slot | slot in Slots(ns) && slot.0 in parents
  }

  lemma SlotsInStep(ns: Namespace, parents: set<InodeId>, parent: InodeId)
    requires parent !in parents
    ensures SlotsIn(ns, parents) !! SlotsOf(ns, parent)
    ensures SlotsIn(ns, parents + {parent}) == SlotsIn(ns, parents) + SlotsOf(ns, parent)
    ensures parent in ns.nodes && !IsDirectory(ns, parent) ==> SlotsOf(ns, parent) == {}
  {
  }

  lemma SlotsInAll(ns: Namespace)
    ensures SlotsIn(ns, {}) == {} && SlotsIn(ns, ns.nodes.Keys) == Slots(ns)
  {
  }

  lemma CompleteTally(ns: Namespace, tally: Tally)
    requires TallyExact(ns, Slots(ns), tally)
    ensures forall inode: InodeId ::
      && CountOf(tally.references, inode) == |Links(ns, inode)|
      && (IsDirectory(ns, inode) ==> CountOf(tally.directoryReferences, inode) == |Links(ns, inode)|)
  {
    forall inode ensures Links(ns, inode) * Slots(ns) == Links(ns, inode) {}
  }

  lemma ResolvedChildren(ns: Namespace)
    requires forall parent | parent in ns.nodes :: Children(ns, parent) <= ns.nodes.Keys
    ensures LinksResolve(ns)
  {
    forall slot | slot in Slots(ns) ensures EntryAt(ns, slot).inode in ns.nodes {
      assert slot in Links(ns, EntryAt(ns, slot).inode);
      LinkIsChild(ns, slot, EntryAt(ns, slot).inode);
    }
  }

  /** The outer loop over every node, in any order. */
  method TallyEntries(ns: Namespace)
    returns (r: Outcome, tally: Tally, children: map<InodeId, u64>)
    ensures r.Fail? ==> !Valid(ns)
    ensures r.Pass? ==> NamesValid(ns) && LinksResolve(ns) && CountsComplete(ns, tally, children)
  {
    hide Valid, TallyExact, EntryNamesValid, TargetsOf, ChildDirectories, SlotsIn, SlotsOf;
    tally, children := Tally(map[], map[]), map[];
    var todo := ns.nodes.Keys;
    ghost var parents: set<InodeId> := {};
    SlotsInAll(ns);
    EmptyTally(ns);
    while todo != {}
      invariant parents == ns.nodes.Keys - todo && todo <= ns.nodes.Keys
      invariant TallyExact(ns, SlotsIn(ns, parents), tally)
      invariant forall p | p in parents ::
        EntryNamesValid(EntriesOf(ns.nodes[p])) && Children(ns, p) <= ns.nodes.Keys
      invariant forall p | p in parents && IsDirectory(ns, p) :: CountOf(children, p) == |ChildDirectories(ns, p)|
      decreases todo
    {
      var parent :| parent in todo;
      todo := todo - {parent};
      SlotsInStep(ns, parents, parent);
      if ns.nodes[parent].data.Directory? {
        var count;
        r, tally, count := TallyDirectory(ns, parent, SlotsIn(ns, parents), tally);
        if r.Fail? { return; }
        children := children[parent := count];
      } else {
        NoEntries(ns, parent);
      }
      parents := parents + {parent};
    }
    assert parents == ns.nodes.Keys;
    CompleteTally(ns, tally);
    ResolvedChildren(ns);
    r := Pass;
  }

  lemma EmptyTally(ns: Namespace)
    ensures TallyExact(ns, {}, Tally(map[], map[]))
  {
    forall inode ensures Links(ns, inode) * {} == {} {}
  }

  lemma NoEntries(ns: Namespace, inode: InodeId)
    requires inode in ns.nodes && !IsDirectory(ns, inode)
    ensures EntryNamesValid(EntriesOf(ns.nodes[inode])) && Children(ns, inode) == {}
  {
  }

  // ---- Directory links ------------------------------------------------------

  /** `validate_directory_link_counts`: its overflow test refuses nothing that the equality
      on unbounded integers would accept. */
  function DirectoryLinkCountsAllowed(isRoot: bool, parents: u64, children: u64, nlink: u64): (r: bool)
    ensures r <==> parents == (if isRoot then 0 else 1) && nlink == children + 2
  {
    if isRoot && parents != 0 then false
    else if !isRoot && parents != 1 then false
    else if children > U64_MAX - 2 then false
    else nlink == 2 + children
  }

  function Directories(ns: Namespace): set<InodeId> {
    set inode | inode in ns.nodes && IsDirectory(ns, inode)
  }

  /** The directories among a list of entries, in order: what the walk pushes. */
  function DirectoryTargets(ns: Namespace, entries: seq<DirectoryEntry>): (targets: seq<InodeId>)
    ensures forall inode :: inode in targets <==> inode in TargetsOf(entries) && IsDirectory(ns, inode)
  {
    if entries == [] then [] else
      var init, last := entries[..|entries| - 1], entries[|entries| - 1].inode;
      assert entries == init + [entries[|entries| - 1]];
      DirectoryTargets(ns, init) + if IsDirectory(ns, last) then [last] else []
  }

  predicate NoDuplicates<T(==)>(s: seq<T>) {
    forall i, j | 0 <= i < j < |s| :: s[i] != s[j]
  }

  lemma {:induction false} DirectoryTargetsUnique(ns: Namespace, entries: seq<DirectoryEntry>)
    requires forall j, k | 0 <= j < k < |entries| && IsDirectory(ns, entries[k].inode) ::
      entries[j].inode != entries[k].inode
    ensures NoDuplicates(DirectoryTargets(ns, entries))
  {
    if entries != [] {
      DirectoryTargetsUnique(ns, entries[..|entries| - 1]);
    }
  }

  /** A child directory's only parent is the directory it was found in. */
  lemma OnlyParent(ns: Namespace, p: InodeId, q: InodeId, child: InodeId)
    requires ParentCountsValid(ns) && IsDirectory(ns, child)
    requires child in Children(ns, p) && child in Children(ns, q)
    ensures p == q && child != ns.root
  {
    var s := ChildHasLink(ns, p, child);
    var t := ChildHasLink(ns, q, child);
    if child != ns.root {
      SingletonMembers(Links(ns, child), s, t);
    }
  }

  lemma DirectoryEntriesUnique(ns: Namespace, inode: InodeId)
    requires ParentCountsValid(ns) && inode in ns.nodes
    ensures NoDuplicates(DirectoryTargets(ns, EntriesOf(ns.nodes[inode])))
  {
    var entries := EntriesOf(ns.nodes[inode]);
    forall j, k | 0 <= j < k < |entries| && IsDirectory(ns, entries[k].inode)
      ensures entries[j].inode != entries[k].inode
    {
      var s, t: Slot := (inode, j), (inode, k);
      assert s in Slots(ns) && t in Slots(ns);
      if entries[j].inode == entries[k].inode {
        var child := entries[k].inode;
        assert s in Links(ns, child) && t in Links(ns, child);
        assert |Links(ns, child)| <= 1;
        SingletonMembers(Links(ns, child), s, t);
      }
    }
    DirectoryTargetsUnique(ns, entries);
  }

  ghost function RootedDirectories(ns: Namespace): set<InodeId> {
    Directories(ns) * Subtree(ns, ns.root)
  }

  ghost predicate FoundThrough(ns: Namespace, visited: set<InodeId>, inode: InodeId) {
    inode == ns.root || exists parent :: parent in visited && inode in Children(ns, parent)
  }

  /** The walk's stack and visited set: disjoint, without repeats, all reached from visited
      directories, and together closed under child directories. */
  ghost predicate WalkInvariant(ns: Namespace, visited: set<InodeId>, pending: seq<InodeId>) {
    && NoDuplicates(pending)
    && (forall inode | inode in pending :: inode !in visited && inode in RootedDirectories(ns))
    && visited <= RootedDirectories(ns)
    && (forall inode | inode in pending || inode in visited :: FoundThrough(ns, visited, inode))
    && (forall parent, child | parent in visited && child in Children(ns, parent) && IsDirectory(ns, child) ::
          child in visited || child in pending)
    && (ns.root in visited || ns.root in pending)
  }

  /** What a newly visited directory pushes was neither visited nor waiting before. */
  lemma PushedAreNew(ns: Namespace, visited: set<InodeId>, pending: seq<InodeId>, top: InodeId, child: InodeId)
    requires ParentCountsValid(ns) && WalkInvariant(ns, visited, pending)
    requires top !in visited && child in Children(ns, top) && IsDirectory(ns, child)
    ensures child !in visited && child !in pending
  {
    if child in visited || child in pending {
      assert FoundThrough(ns, visited, child);
      OnlyParent(ns, top, top, child);
      var parent :| parent in visited && child in Children(ns, parent);
      OnlyParent(ns, top, parent, child);
    }
  }

  lemma AppendUnique<T>(s: seq<T>, t: seq<T>)
    requires NoDuplicates(s) && NoDuplicates(t) && forall x | x in t :: x !in s
    ensures NoDuplicates(s + t)
  {
    forall i, j | 0 <= i < j < |s + t| ensures (s + t)[i] != (s + t)[j] {
      if i < |s| <= j {
        assert t[j - |s|] in t && s[i] in s;
      }
    }
  }

  /** A popped directory's targets: fresh, rooted, and free of repeats. */
  lemma WalkPush(ns: Namespace, visited: set<InodeId>, rest: seq<InodeId>, top: InodeId)
    requires ParentCountsValid(ns) && LinksResolve(ns) && IsDirectory(ns, ns.root)
    requires IsDirectory(ns, top) && WalkInvariant(ns, visited, rest + [top])
    ensures var pushed := DirectoryTargets(ns, EntriesOf(ns.nodes[top]));
      && NoDuplicates(rest + pushed)
      && (forall child | child in pushed ::
            child !in visited && child != top && child in RootedDirectories(ns))
  {
    var pending, pushed := rest + [top], DirectoryTargets(ns, EntriesOf(ns.nodes[top]));
    assert top in pending;
    SubtreeClosed(ns, ns.root);
    forall child | child in pushed
      ensures child !in visited && child !in pending && child in RootedDirectories(ns)
    {
      PushedAreNew(ns, visited, pending, top, child);
    }
    DirectoryEntriesUnique(ns, top);
    assert NoDuplicates(rest) by {
      assert forall i | 0 <= i < |rest| :: pending[i] == rest[i];
    }
    assert forall x | x in rest :: x in pending;
    AppendUnique(rest, pushed);
  }

  lemma WalkFound(ns: Namespace, visited: set<InodeId>, rest: seq<InodeId>, top: InodeId, inode: InodeId)
    requires WalkInvariant(ns, visited, rest + [top]) && IsDirectory(ns, top)
    requires inode in rest + DirectoryTargets(ns, EntriesOf(ns.nodes[top])) || inode in visited + {top}
    ensures FoundThrough(ns, visited + {top}, inode)
  {
    if inode in Children(ns, top) {
      assert top in visited + {top};
    } else {
      assert inode in rest + [top] || inode in visited;
      assert FoundThrough(ns, visited, inode);
      if inode != ns.root {
        var parent :| parent in visited && inode in Children(ns, parent);
        assert parent in visited + {top};
      }
    }
  }

  lemma WalkStep(ns: Namespace, visited: set<InodeId>, rest: seq<InodeId>, top: InodeId)
    requires ParentCountsValid(ns) && LinksResolve(ns) && IsDirectory(ns, ns.root)
    requires IsDirectory(ns, top) && WalkInvariant(ns, visited, rest + [top])
    ensures WalkInvariant(ns, visited + {top}, rest + DirectoryTargets(ns, EntriesOf(ns.nodes[top])))
  {
    hide ParentCountsValid, LinksResolve, FoundThrough, RootedDirectories;
    var pending, pushed := rest + [top], DirectoryTargets(ns, EntriesOf(ns.nodes[top]));
    WalkTop(ns, visited, rest, top);
    WalkPush(ns, visited, rest, top);
    forall inode | inode in rest + pushed || inode in visited + {top}
      ensures FoundThrough(ns, visited + {top}, inode)
    {
      WalkFound(ns, visited, rest, top, inode);
    }
    assert forall x :: x in pending <==> x in rest || x == top;
    assert forall i | 0 <= i < |rest| :: pending[i] == rest[i] && pending[|rest|] == top;
  }

  /** An empty stack means everything rooted has been visited. */
  lemma WalkEnd(ns: Namespace, visited: set<InodeId>)
    requires LinksResolve(ns) && WalkInvariant(ns, visited, [])
    ensures visited == RootedDirectories(ns)
  {
    var closed := visited + (ns.nodes.Keys - Directories(ns));
    forall inode, child | inode in closed && child in Children(ns, inode) ensures child in closed {
      var slot := ChildHasLink(ns, inode, child);
      assert EntryAt(ns, slot).inode in ns.nodes;
    }
    SubtreeLeast(ns, ns.root, closed);
  }

  /** The traversal of `validate_directory_links`. Once the parent counts hold, its
      repeated-directory error is unreachable and it visits exactly the rooted directories. */
  method WalkDirectories(ns: Namespace) returns (visited: set<InodeId>, repeated: bool)
    requires ParentCountsValid(ns) && LinksResolve(ns) && IsDirectory(ns, ns.root)
    ensures !repeated
    ensures visited == RootedDirectories(ns)
  {
    visited, repeated := {}, false;
    var pending := [ns.root];
    WalkStart(ns);
    while pending != [] && !repeated
      invariant WalkInvariant(ns, visited, pending) && !repeated
      decreases RootedDirectories(ns) - visited
    {
      var top := pending[|pending| - 1];
      var rest := pending[..|pending| - 1];
      assert pending == rest + [top];
      WalkTop(ns, visited, rest, top);
      WalkStep(ns, visited, rest, top);
      if top in visited {
        repeated := true;
      } else {
        visited := visited + {top};
        pending := rest + DirectoryTargets(ns, EntriesOf(ns.nodes[top]));
      }
    }
    WalkEnd(ns, visited);
  }

  lemma WalkStart(ns: Namespace)
    requires IsDirectory(ns, ns.root) && LinksResolve(ns)
    ensures WalkInvariant(ns, {}, [ns.root])
  {
    SubtreeClosed(ns, ns.root);
  }

  lemma WalkTop(ns: Namespace, visited: set<InodeId>, rest: seq<InodeId>, top: InodeId)
    requires WalkInvariant(ns, visited, rest + [top])
    ensures top !in visited && top in RootedDirectories(ns) && IsDirectory(ns, top)
  {
    assert top in rest + [top];
  }

  method ValidateDirectoryCounts(ns: Namespace, directoryReferences: map<InodeId, u64>, children: map<InodeId, u64>)
    returns (r: Outcome)
    requires forall inode | IsDirectory(ns, inode) ::
      && CountOf(directoryReferences, inode) == |Links(ns, inode)|
      && CountOf(children, inode) == |ChildDirectories(ns, inode)|
    ensures r.Pass? <==> DirectoryCountsValid(ns)
  {
    var todo := Directories(ns);
    while todo != {}
      invariant todo <= Directories(ns)
      invariant forall inode | inode in Directories(ns) - todo ::
        && |Links(ns, inode)| == (if inode == ns.root then 0 else 1)
        && ns.nodes[inode].stats.nlink == 2 + |ChildDirectories(ns, inode)|
      decreases todo
    {
      var inode :| inode in todo;
      todo := todo - {inode};
      if !DirectoryLinkCountsAllowed(
          inode == ns.root, CountOf(directoryReferences, inode), CountOf(children, inode),
          ns.nodes[inode].stats.nlink)
      {
        return Fail;
      }
    }
    return Pass;
  }

  /** Comparing the number of directories visited with the number there are decides
      whether every directory is rooted. */
  lemma RootedByCount(ns: Namespace)
    ensures |RootedDirectories(ns)| == |Directories(ns)| <==> DirectoriesRooted(ns)
  {
    CardinalitySubset(RootedDirectories(ns), Directories(ns));
    if DirectoriesRooted(ns) {
      assert RootedDirectories(ns) == Directories(ns);
    }
    if RootedDirectories(ns) == Directories(ns) {
      forall inode | IsDirectory(ns, inode) ensures inode in Subtree(ns, ns.root) {
        assert inode in Directories(ns);
      }
    }
  }

  /** The directory part of a namespace: a tree of unique paths from the root, with `nlink`
      two more than the number of child directories. */
  ghost predicate DirectoryPartValid(ns: Namespace) {
    && DirectoriesFormTree(ns)
    && (forall inode | IsDirectory(ns, inode) ::
          ns.nodes[inode].stats.nlink == 2 + |ChildDirectories(ns, inode)|)
  }

  lemma DirectoryPartIffCounts(ns: Namespace)
    requires IsDirectory(ns, ns.root) && LinksResolve(ns)
    ensures DirectoryPartValid(ns) <==> DirectoryCountsValid(ns) && DirectoriesRooted(ns)
    ensures DirectoryCountsValid(ns) ==> ParentCountsValid(ns)
  {
    CountsIffTree(ns);
  }

  /** `validate_directory_links` accepts exactly the directory graphs that are such a tree. */
  method ValidateDirectoryLinks(ns: Namespace, directoryReferences: map<InodeId, u64>, children: map<InodeId, u64>)
    returns (r: Outcome)
    requires LinksResolve(ns) && IsDirectory(ns, ns.root)
    requires forall inode | IsDirectory(ns, inode) ::
      && CountOf(directoryReferences, inode) == |Links(ns, inode)|
      && CountOf(children, inode) == |ChildDirectories(ns, inode)|
    ensures r.Pass? <==> DirectoryPartValid(ns)
  {
    DirectoryPartIffCounts(ns);
    RootedByCount(ns);
    var counts := ValidateDirectoryCounts(ns, directoryReferences, children);
    if counts.Fail? { return Fail; }
    var visited, repeated := WalkDirectories(ns);
    return if repeated || |visited| != |Directories(ns)| then Fail else Pass;
  }

  method ValidateNodeLinks(ns: Namespace, references: map<InodeId, u64>) returns (r: Outcome)
    requires forall inode: InodeId :: CountOf(references, inode) == |Links(ns, inode)|
    ensures r.Pass? <==> FileCountsValid(ns)
  {
    var todo := ns.nodes.Keys;
    while todo != {}
      invariant todo <= ns.nodes.Keys
      invariant forall inode | inode in ns.nodes.Keys - todo && !IsDirectory(ns, inode) ::
        ns.nodes[inode].stats.nlink == |Links(ns, inode)|
      decreases todo
    {
      var inode :| inode in todo;
      todo := todo - {inode};
      if !ns.nodes[inode].data.Directory? {
        var count := CountOf(references, inode);
        if count == 0 {
          if ns.nodes[inode].stats.nlink != 0 { return Fail; }
        } else if ns.nodes[inode].stats.nlink != count {
          return Fail;
        }
      }
    }
    return Pass;
  }

  predicate NodesAccepted(ns: Namespace) {
    forall inode {:trigger ns.nodes[inode]} | inode in ns.nodes ::
      inode != 0 && ns.nodes[inode].stats.ino == inode && NodeKindValid(ns.nodes[inode])
  }

  method ValidateNodes(ns: Namespace) returns (r: Outcome)
    ensures r.Pass? <==> NodesAccepted(ns)
  {
    var todo := ns.nodes.Keys;
    while todo != {}
      invariant todo <= ns.nodes.Keys
      invariant forall inode | inode in ns.nodes.Keys - todo ::
        inode != 0 && ns.nodes[inode].stats.ino == inode && NodeKindValid(ns.nodes[inode])
      decreases todo
    {
      var inode :| inode in todo;
      todo := todo - {inode};
      if inode == 0 { return Fail; }
      if ns.nodes[inode].stats.ino != inode { return Fail; }
      var kind := ValidateNodeKind(ns.nodes[inode]);
      if kind.Fail? { return Fail; }
    }
    return Pass;
  }

  predicate HeaderAccepted(ns: Namespace) {
    && ns.formatVersion == NAMESPACE_FORMAT_VERSION
    && FromConfig(ns.defaultChunker).Ok?
    && (forall inode | inode in ns.nodes :: inode < ns.nextInode)
    && ns.root != 0 && ns.root in ns.nodes && FileType(ns.nodes[ns.root].stats) == S_IFDIR
  }

  /** The checks before the node loop; the test against `u64::MAX` is implied by `next_inode`. */
  method ValidateHeader(ns: Namespace) returns (r: Outcome)
    ensures r.Pass? <==> HeaderAccepted(ns)
    ensures r.Pass? ==> ns.formatVersion == 1 && FromConfig(ns.defaultChunker).Ok?
  {
    hide Ascending, FromConfig;
    if ns.formatVersion > NAMESPACE_FORMAT_VERSION { return Fail; }
    if ns.formatVersion != NAMESPACE_FORMAT_VERSION { return Fail; }
    if FromConfig(ns.defaultChunker).Err? { return Fail; }
    if ns.nodes.Keys == {} { return Fail; }
    var maxInode := Greatest(ns.nodes.Keys);
    if maxInode == U64_MAX { return Fail; }
    if ns.nextInode <= maxInode { return Fail; }
    if ns.root == 0 { return Fail; }
    if ns.root !in ns.nodes { return Fail; }
    return if ns.nodes[ns.root].stats.mode & S_IFMT != S_IFDIR then Fail else Pass;
  }

  /** A node typed as a directory by its mode carries directory entries. */
  lemma KindDecidesDirectory(node: NodeMetadata)
    requires NodeKindValid(node)
    ensures node.data.Directory? <==> FileType(node.stats) == S_IFDIR
  {
  }

  lemma ValidIsTheChecks(ns: Namespace)
    ensures HeaderAccepted(ns) && NodesAccepted(ns) ==> IsDirectory(ns, ns.root)
    ensures Valid(ns) <==>
      && HeaderAccepted(ns) && NodesAccepted(ns) && NamesValid(ns) && LinksResolve(ns)
      && DirectoryPartValid(ns) && FileCountsValid(ns)
  {
    assert NodesAccepted(ns) && (forall inode | inode in ns.nodes :: inode < ns.nextInode)
      <==> InodesValid(ns) && KindsValid(ns);
    if ns.root in ns.nodes && NodeKindValid(ns.nodes[ns.root]) {
      KindDecidesDirectory(ns.nodes[ns.root]);
    }
    if IsDirectory(ns, ns.root) && LinksResolve(ns) {
      DirectoryPartIffCounts(ns);
    }
  }

  /** `Namespace::validate`, for namespaces of any size. */
  method Validate(ns: Namespace) returns (r: Outcome)
    ensures r.Pass? <==> Valid(ns)
  {
    ValidIsTheChecks(ns);
    var header := ValidateHeader(ns);
    if header.Fail? { return Fail; }
    var nodes := ValidateNodes(ns);
    if nodes.Fail? { return Fail; }
    var entries, tally, children := TallyEntries(ns);
    if entries.Fail? { return Fail; }
    var directories := ValidateDirectoryLinks(ns, tally.directoryReferences, children);
    if directories.Fail? { return Fail; }
    var links := ValidateNodeLinks(ns, tally.references);
    return links;
  }
}
