/** Grafting: replacing one claimable subtree of a valid namespace, together with the orphans
    that belong to it, by the same subtree of another valid namespace. */
module Graft {
  import opened Base
  import opened Storage
  import opened Tree
  import opened Authority

  /** A claimable subtree and some orphans: what one grant holds. */
  ghost predicate Region(ns: Namespace, root: InodeId, held: set<InodeId>) {
    && Claimable(ns, root)
    && Subtree(ns, root) <= held <= ns.nodes.Keys
    && (forall inode | inode in held && inode !in Subtree(ns, root) :: IsOrphan(ns, inode))
  }

  /** A namespace and the region of it that one grant holds. */
  datatype Part = Part(ns: Namespace, held: set<InodeId>)

  /** `ns` is the base outside its region and the donor inside the donor's region. */
  ghost predicate Grafted(ns: Namespace, base: Part, donor: Part, root: InodeId) {
    && Valid(base.ns) && Valid(donor.ns)
    && Region(base.ns, root, base.held) && Region(donor.ns, root, donor.held)
    && base.ns.nodes.Keys - base.held !! donor.held
    && ns.nodes.Keys == base.ns.nodes.Keys - base.held + donor.held
    && (forall inode | inode in base.ns.nodes && inode !in base.held ::
          ns.nodes[inode] == base.ns.nodes[inode])
    && (forall inode | inode in donor.held :: ns.nodes[inode] == donor.ns.nodes[inode])
    && base.ns.root == donor.ns.root
    && ns == base.ns.(nextInode := ns.nextInode, nodes := ns.nodes)
    && base.ns.nextInode <= ns.nextInode && donor.ns.nextInode <= ns.nextInode
  }

  // ---- Regions --------------------------------------------------------------

  /** A claimable directory is not an entry of anything below itself. */
  lemma NotBelowItself(ns: Namespace, root: InodeId, parent: InodeId)
    requires Valid(ns) && Claimable(ns, root) && parent in Subtree(ns, root)
    ensures root !in Children(ns, parent)
  {
    if root in Children(ns, parent) {
      var slot := ChildHasLink(ns, parent, root);
      RootHasNoParent(ns);
      SubtreeClosed(ns, ns.root);
      assert root in Subtree(ns, ns.root);
      if ns.root in Subtree(ns, root) { RootOnlyUnderItself(ns, root); }
      var outside := Subtree(ns, ns.root) - Subtree(ns, root);
      forall i, child | i in outside && child in Children(ns, i) ensures child in outside {
        var other := ChildHasLink(ns, i, child);
        if child == root {
          SingletonMembers(Links(ns, root), slot, other);
        } else if child in Subtree(ns, root) {
          SealedParent(ns, root, i, child);
        }
      }
      SubtreeClosed(ns, root);
      SubtreeLeast(ns, ns.root, outside);
    }
  }

  /** Entries inside a region stay inside and never name its root. */
  lemma RegionInside(ns: Namespace, root: InodeId, held: set<InodeId>, parent: InodeId, child: InodeId)
    requires Valid(ns) && Region(ns, root, held) && parent in held && child in Children(ns, parent)
    ensures parent in Subtree(ns, root) && child in Subtree(ns, root) && child in held && child != root
  {
    var slot := ChildHasLink(ns, parent, child);
    assert parent !in Subtree(ns, root) ==> IsOrphan(ns, parent);
    SubtreeClosed(ns, root);
    NotBelowItself(ns, root, parent);
  }

  /** Entries outside a region name nothing inside but its root. */
  lemma RegionOutside(ns: Namespace, root: InodeId, held: set<InodeId>, parent: InodeId, child: InodeId)
    requires Valid(ns) && Region(ns, root, held) && parent !in held && child in Children(ns, parent)
    ensures child in ns.nodes && (child in held ==> child == root)
  {
    var slot := ChildHasLink(ns, parent, child);
    if child in held {
      if child !in Subtree(ns, root) {
        assert IsOrphan(ns, child);
        OrphanIsUnreferenced(ns, child);
      } else if child != root {
        SealedParent(ns, root, parent, child);
      }
    }
  }

  // ---- Slots, links and children --------------------------------------------

  /** Where an inode's entries come from. */
  function Source(base: Part, donor: Part, inode: InodeId): Namespace {
    if inode in donor.held then donor.ns else base.ns
  }

  lemma GraftSlots(ns: Namespace, base: Part, donor: Part, root: InodeId, slot: Slot)
    requires Grafted(ns, base, donor, root)
    ensures slot in Slots(ns) <==> slot.0 in ns.nodes && slot in Slots(Source(base, donor, slot.0))
    ensures slot in Slots(ns) ==> EntryAt(ns, slot) == EntryAt(Source(base, donor, slot.0), slot)
  {
    hide Valid, Claimable;
  }

  lemma GraftChildren(ns: Namespace, base: Part, donor: Part, root: InodeId, inode: InodeId)
    requires Grafted(ns, base, donor, root) && inode in ns.nodes
    ensures Children(ns, inode) == Children(Source(base, donor, inode), inode)
  {
    hide Valid, Claimable;
  }

  /** A slot of the graft that names `inode`, read in the namespace that governs `inode`. */
  lemma GraftLinkDown(ns: Namespace, base: Part, donor: Part, root: InodeId, inode: InodeId, slot: Slot)
    requires Grafted(ns, base, donor, root) && inode in ns.nodes && slot in Links(ns, inode)
    ensures
      var source := if inode == root then base.ns else Source(base, donor, inode);
      slot in Links(source, inode)
  {
    hide Valid, Region;
    GraftSlots(ns, base, donor, root, slot);
    var from := Source(base, donor, slot.0);
    assert slot in Links(from, inode);
    LinkIsChild(from, slot, inode);
    if slot.0 in donor.held {
      RegionInside(donor.ns, root, donor.held, slot.0, inode);
    } else {
      RegionOutside(base.ns, root, base.held, slot.0, inode);
    }
  }

  /** And back: a slot of the governing namespace is still there in the graft. */
  lemma GraftLinkUp(ns: Namespace, base: Part, donor: Part, root: InodeId, inode: InodeId, slot: Slot)
    requires Grafted(ns, base, donor, root) && inode in ns.nodes
    requires
      var source := if inode == root then base.ns else Source(base, donor, inode);
      slot in Links(source, inode)
    ensures slot in Links(ns, inode)
  {
    hide Valid, Region;
    var source := if inode == root then base.ns else Source(base, donor, inode);
    LinkIsChild(source, slot, inode);
    GraftSlots(ns, base, donor, root, slot);
    if inode == root || inode !in donor.held {
      if slot.0 in base.held {
        RegionInside(base.ns, root, base.held, slot.0, inode);
      }
    } else {
      if slot.0 !in donor.held {
        RegionOutside(donor.ns, root, donor.held, slot.0, inode);
      }
    }
  }

  lemma GraftLinks(ns: Namespace, base: Part, donor: Part, root: InodeId, inode: InodeId)
    requires Grafted(ns, base, donor, root) && inode in ns.nodes
    ensures Links(ns, inode) == Links(if inode == root then base.ns else Source(base, donor, inode), inode)
  {
    hide Grafted, Links;
    var source := if inode == root then base.ns else Source(base, donor, inode);
    forall slot | slot in Links(ns, inode) ensures slot in Links(source, inode) {
      GraftLinkDown(ns, base, donor, root, inode, slot);
    }
    forall slot | slot in Links(source, inode) ensures slot in Links(ns, inode) {
      GraftLinkUp(ns, base, donor, root, inode, slot);
    }
  }

  lemma GraftResolves(ns: Namespace, base: Part, donor: Part, root: InodeId)
    requires Grafted(ns, base, donor, root)
    ensures LinksResolve(ns)
  {
    hide Valid, Sealed;
    forall slot | slot in Slots(ns) ensures EntryAt(ns, slot).inode in ns.nodes {
      var child := EntryAt(ns, slot).inode;
      GraftSlots(ns, base, donor, root, slot);
      var from := Source(base, donor, slot.0);
      assert slot in Links(from, child);
      LinkIsChild(from, slot, child);
      if slot.0 in donor.held {
        RegionInside(donor.ns, root, donor.held, slot.0, child);
      } else {
        RegionOutside(base.ns, root, base.held, slot.0, child);
        SubtreeHoldsRoot(donor.ns, root);
      }
    }
  }

  /** Directories outside the donor's region are the base's, those inside the donor's. */
  lemma GraftKind(ns: Namespace, base: Part, donor: Part, root: InodeId, inode: InodeId)
    requires Grafted(ns, base, donor, root) && inode in ns.nodes
    ensures inode in Source(base, donor, inode).nodes
    ensures ns.nodes[inode] == Source(base, donor, inode).nodes[inode]
    ensures root in donor.held && IsDirectory(base.ns, root) && IsDirectory(donor.ns, root)
  {
    hide Valid, Sealed;
    SubtreeHoldsRoot(donor.ns, root);
  }

  lemma GraftChildDirectories(ns: Namespace, base: Part, donor: Part, root: InodeId, parent: InodeId)
    requires Grafted(ns, base, donor, root) && parent in ns.nodes
    ensures ChildDirectories(ns, parent) == ChildDirectories(Source(base, donor, parent), parent)
  {
    hide Valid, Sealed;
    var from := Source(base, donor, parent);
    GraftKind(ns, base, donor, root, parent);
    forall slot: Slot | slot.0 == parent
      ensures slot in ChildDirectories(ns, parent) <==> slot in ChildDirectories(from, parent)
    {
      GraftSlots(ns, base, donor, root, slot);
      if slot in Slots(ns) {
        GraftEntryKind(ns, base, donor, root, slot);
      }
    }
  }

  /** An entry names a directory in the graft exactly when it did where it came from. */
  lemma GraftEntryKind(ns: Namespace, base: Part, donor: Part, root: InodeId, slot: Slot)
    requires Grafted(ns, base, donor, root) && slot in Slots(ns)
    requires slot in Slots(Source(base, donor, slot.0))
    requires EntryAt(ns, slot) == EntryAt(Source(base, donor, slot.0), slot)
    ensures IsDirectory(ns, EntryAt(ns, slot).inode)
      <==> IsDirectory(Source(base, donor, slot.0), EntryAt(ns, slot).inode)
  {
    hide Valid, Sealed, Region;
    var child, from := EntryAt(ns, slot).inode, Source(base, donor, slot.0);
    assert slot in Links(from, child);
    LinkIsChild(from, slot, child);
    GraftResolves(ns, base, donor, root);
    GraftKind(ns, base, donor, root, child);
    if slot.0 in donor.held {
      RegionInside(donor.ns, root, donor.held, slot.0, child);
    } else {
      RegionOutside(base.ns, root, base.held, slot.0, child);
    }
  }

  // ---- Reachability ---------------------------------------------------------

  /** A base directory outside the region is still reached from the namespace root. */
  lemma GraftReachesOutside(ns: Namespace, base: Part, donor: Part, root: InodeId, inode: InodeId)
    requires Grafted(ns, base, donor, root)
    requires IsDirectory(base.ns, inode) && inode !in base.held
    requires ns.root in ns.nodes && LinksResolve(ns)
    ensures inode in Subtree(ns, ns.root)
  {
    hide Sealed;
    SubtreeClosed(ns, ns.root);
    var reached := Subtree(ns, ns.root) + base.held;
    forall i, child | i in reached && child in Children(base.ns, i) ensures child in reached {
      if i in base.held {
        RegionInside(base.ns, root, base.held, i, child);
      } else {
        GraftChildren(ns, base, donor, root, i);
      }
    }
    SubtreeLeast(base.ns, ns.root, reached);
    assert inode in Subtree(base.ns, base.ns.root);
  }

  /** So is the root of the region, through the base's entry for it. */
  lemma GraftReachesRoot(ns: Namespace, base: Part, donor: Part, root: InodeId)
    requires Grafted(ns, base, donor, root) && ns.root in ns.nodes && LinksResolve(ns)
    ensures root in Subtree(ns, ns.root)
  {
    hide Sealed;
    SubtreeClosed(ns, ns.root);
    if root != ns.root {
      var links := Links(base.ns, root);
      assert |links| == 1;
      assert links != {};
      var slot :| slot in links;
      LinkIsChild(base.ns, slot, root);
      if slot.0 in base.held {
        RegionInside(base.ns, root, base.held, slot.0, root);
      } else {
        GraftReachesOutside(ns, base, donor, root, slot.0);
        GraftChildren(ns, base, donor, root, slot.0);
      }
    }
  }

  /** The subtree of the region's root is the donor's. */
  lemma GraftSubtree(ns: Namespace, base: Part, donor: Part, root: InodeId)
    requires Grafted(ns, base, donor, root)
    ensures Subtree(ns, root) == Subtree(donor.ns, root)
  {
    hide Sealed;
    GraftResolves(ns, base, donor, root);
    forall i | i in Subtree(donor.ns, root)
      ensures i in ns.nodes && Children(ns, i) == Children(donor.ns, i)
    {
      GraftChildren(ns, base, donor, root, i);
    }
    SubtreeFrame(donor.ns, ns, root);
  }

  lemma GraftRooted(ns: Namespace, base: Part, donor: Part, root: InodeId)
    requires Grafted(ns, base, donor, root) && ns.root in ns.nodes && LinksResolve(ns)
    ensures DirectoriesRooted(ns)
  {
    hide Sealed;
    GraftReachesRoot(ns, base, donor, root);
    GraftSubtree(ns, base, donor, root);
    SubtreeClosed(ns, ns.root);
    SubtreeLeast(ns, root, Subtree(ns, ns.root));
    forall inode | IsDirectory(ns, inode) ensures inode in Subtree(ns, ns.root) {
      GraftKind(ns, base, donor, root, inode);
      if inode !in donor.held {
        GraftReachesOutside(ns, base, donor, root, inode);
      }
    }
  }

  // ---- Validity -------------------------------------------------------------

  lemma GraftHeader(ns: Namespace, base: Part, donor: Part, root: InodeId)
    requires Grafted(ns, base, donor, root)
    ensures HeaderValid(ns) && InodesValid(ns)
  {
    hide Sealed;
    if ns.root !in ns.nodes {
      assert ns.root in Subtree(base.ns, root) || IsOrphan(base.ns, ns.root);
      RootOnlyUnderItself(base.ns, root);
      SubtreeHoldsRoot(donor.ns, root);
      assert false;
    }
  }

  lemma GraftNodes(ns: Namespace, base: Part, donor: Part, root: InodeId)
    requires Grafted(ns, base, donor, root)
    ensures KindsValid(ns) && NamesValid(ns)
  {
    hide Sealed, NodeKindValid, EntryNamesValid;
    forall inode | inode in ns.nodes
      ensures NodeKindValid(ns.nodes[inode]) && EntryNamesValid(EntriesOf(ns.nodes[inode]))
    {
      var from := Source(base, donor, inode);
      GraftKind(ns, base, donor, root, inode);
      assert NodeKindValid(from.nodes[inode]) && EntryNamesValid(EntriesOf(from.nodes[inode]));
    }
  }

  lemma GraftCounts(ns: Namespace, base: Part, donor: Part, root: InodeId)
    requires Grafted(ns, base, donor, root)
    ensures DirectoryCountsValid(ns) && FileCountsValid(ns)
  {
    hide Sealed, Slots, Links, ChildDirectories;
    forall inode | inode in ns.nodes
      ensures IsDirectory(ns, inode) ==>
        && |Links(ns, inode)| == (if inode == ns.root then 0 else 1)
        && ns.nodes[inode].stats.nlink == 2 + |ChildDirectories(ns, inode)|
      ensures !IsDirectory(ns, inode) ==> ns.nodes[inode].stats.nlink == |Links(ns, inode)|
    {
      GraftKind(ns, base, donor, root, inode);
      GraftLinks(ns, base, donor, root, inode);
      GraftChildDirectories(ns, base, donor, root, inode);
    }
  }

  lemma GraftClaimable(ns: Namespace, base: Part, donor: Part, root: InodeId)
    requires Grafted(ns, base, donor, root)
    ensures Claimable(ns, root)
  {
    hide Valid;
    GraftSubtree(ns, base, donor, root);
    SubtreeHoldsRoot(donor.ns, root);
    forall parent, child | parent in ns.nodes && parent !in Subtree(ns, root)
                           && child in Children(ns, parent) && child != root
      ensures child !in Subtree(ns, root)
    {
      GraftChildren(ns, base, donor, root, parent);
      if parent in donor.held {
        RegionInside(donor.ns, root, donor.held, parent, child);
      } else {
        RegionOutside(base.ns, root, base.held, parent, child);
      }
    }
  }

  /** A graft of valid namespaces is valid, and its region is the donor's. */
  lemma GraftValid(ns: Namespace, base: Part, donor: Part, root: InodeId)
    requires Grafted(ns, base, donor, root)
    ensures Valid(ns)
    ensures Subtree(ns, root) == Subtree(donor.ns, root) && Claimable(ns, root)
  {
    hide InodesValid, KindsValid, NamesValid, LinksResolve,
         DirectoryCountsValid, FileCountsValid, DirectoriesRooted, Subtree;
    GraftHeader(ns, base, donor, root);
    GraftNodes(ns, base, donor, root);
    GraftCounts(ns, base, donor, root);
    GraftResolves(ns, base, donor, root);
    GraftRooted(ns, base, donor, root);
    GraftSubtree(ns, base, donor, root);
    GraftClaimable(ns, base, donor, root);
  }
}
