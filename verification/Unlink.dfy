/** Removing a directory entry for a file: the smallest change that can leave an inode without
    a link. It keeps every valid namespace valid, and a holder is always allowed to make it. */
module Unlink {
  import opened Base
  import opened Storage
  import opened Tree
  import opened Authority
  import opened Acceptance

  function Without<T>(s: seq<T>, k: nat): seq<T>
    requires k < |s|
  {
    s[..k] + s[k + 1..]
  }

  /** The slot holds an entry for something other than a directory. */
  predicate NamesFile(ns: Namespace, slot: Slot) {
    && slot in Slots(ns)
    && EntryAt(ns, slot).inode in ns.nodes && !IsDirectory(ns, EntryAt(ns, slot).inode)
    && ns.nodes[EntryAt(ns, slot).inode].stats.nlink > 0
  }

  /** The namespace without that entry, and with one link less on what it named. */
  function Unlinked(ns: Namespace, slot: Slot): Namespace
    requires NamesFile(ns, slot)
  {
    var folder, file := slot.0, EntryAt(ns, slot).inode;
    var entries := Without(EntriesOf(ns.nodes[folder]), slot.1);
    var stats := ns.nodes[file].stats;
    ns.(nodes := ns.nodes[folder := ns.nodes[folder].(data := Directory(entries))]
                         [file := ns.nodes[file].(stats := stats.(nlink := stats.nlink - 1))])
  }

  // ---- Slots ----------------------------------------------------------------

  /** Where a slot of the new namespace was in the old one. */
  function Shift(gone: Slot, slot: Slot): Slot {
    if slot.0 == gone.0 && slot.1 >= gone.1 then (slot.0, slot.1 + 1) else slot
  }

  function Shifted(gone: Slot, slots: set<Slot>): set<Slot> {
    set slot | slot in slots :: Shift(gone, slot)
  }

  lemma {:induction false} ShiftedSize(gone: Slot, slots: set<Slot>)
    ensures |Shifted(gone, slots)| == |slots|
    decreases slots
  {
    if slots != {} {
      var slot :| slot in slots;
      var rest := slots - {slot};
      ShiftedSize(gone, rest);
      assert Shifted(gone, slots) == Shifted(gone, rest) + {Shift(gone, slot)} by {
        assert slots == rest + {slot};
      }
      assert Shift(gone, slot) !in Shifted(gone, rest);
    }
  }

  lemma UnlinkedEntries(ns: Namespace, gone: Slot, inode: InodeId)
    requires NamesFile(ns, gone) && inode in ns.nodes
    ensures inode in Unlinked(ns, gone).nodes
    ensures EntriesOf(Unlinked(ns, gone).nodes[inode]) ==
      if inode == gone.0 then Without(EntriesOf(ns.nodes[inode]), gone.1) else EntriesOf(ns.nodes[inode])
    ensures IsDirectory(Unlinked(ns, gone), inode) == IsDirectory(ns, inode)
  {
  }

  /** The slots left are the old ones but for the one removed, in the same order. */
  lemma UnlinkedSlot(ns: Namespace, gone: Slot, slot: Slot)
    requires NamesFile(ns, gone)
    ensures slot in Slots(Unlinked(ns, gone)) <==> Shift(gone, slot) in Slots(ns)
    ensures slot in Slots(Unlinked(ns, gone)) ==>
      EntryAt(Unlinked(ns, gone), slot) == EntryAt(ns, Shift(gone, slot)) && Shift(gone, slot) != gone
  {
    if slot.0 in ns.nodes { UnlinkedEntries(ns, gone, slot.0); }
  }

  lemma Unshift(gone: Slot, slot: Slot) returns (before: Slot)
    requires slot != gone
    ensures Shift(gone, before) == slot
  {
    before := if slot.0 == gone.0 && slot.1 > gone.1 then (slot.0, slot.1 - 1) else slot;
  }

  lemma UnlinkedLinks(ns: Namespace, gone: Slot, inode: InodeId)
    requires NamesFile(ns, gone)
    ensures Shifted(gone, Links(Unlinked(ns, gone), inode)) == Links(ns, inode) - {gone}
    ensures |Links(Unlinked(ns, gone), inode)| == |Links(ns, inode) - {gone}|
  {
    var links := Links(Unlinked(ns, gone), inode);
    forall slot | slot in links ensures Shift(gone, slot) in Links(ns, inode) - {gone} {
      UnlinkedSlot(ns, gone, slot);
    }
    forall slot | slot in Links(ns, inode) - {gone} ensures slot in Shifted(gone, links) {
      var before := Unshift(gone, slot);
      UnlinkedSlot(ns, gone, before);
    }
    ShiftedSize(gone, links);
  }

  lemma UnlinkedChildDirectories(ns: Namespace, gone: Slot, parent: InodeId)
    requires NamesFile(ns, gone)
    ensures |ChildDirectories(Unlinked(ns, gone), parent)| == |ChildDirectories(ns, parent)|
  {
    hide Unlinked;
    var ns' := Unlinked(ns, gone);
    var children := ChildDirectories(ns', parent);
    forall slot | slot in children ensures Shift(gone, slot) in ChildDirectories(ns, parent) {
      UnlinkedSlot(ns, gone, slot);
      SameDirectories(ns, gone, EntryAt(ns', slot).inode);
    }
    forall slot | slot in ChildDirectories(ns, parent) ensures slot in Shifted(gone, children) {
      var before := Unshift(gone, slot);
      UnlinkedSlot(ns, gone, before);
      SameDirectories(ns, gone, EntryAt(ns, slot).inode);
    }
    assert Shifted(gone, children) == ChildDirectories(ns, parent);
    ShiftedSize(gone, children);
  }

  lemma SameDirectories(ns: Namespace, gone: Slot, inode: InodeId)
    requires NamesFile(ns, gone)
    ensures IsDirectory(Unlinked(ns, gone), inode) <==> IsDirectory(ns, inode)
  {
  }

  /** Only the file's own name is missing among a directory's entries. */
  lemma UnlinkedChildren(ns: Namespace, gone: Slot, parent: InodeId, child: InodeId)
    requires NamesFile(ns, gone)
    ensures child in Children(Unlinked(ns, gone), parent) ==> child in Children(ns, parent)
    ensures child in Children(ns, parent) && child != EntryAt(ns, gone).inode ==>
      child in Children(Unlinked(ns, gone), parent)
  {
    hide Unlinked;
    var ns' := Unlinked(ns, gone);
    if child in Children(ns', parent) {
      var slot := ChildHasLink(ns', parent, child);
      UnlinkedSlot(ns, gone, slot);
      LinkIsChild(ns, Shift(gone, slot), child);
    }
    if child in Children(ns, parent) && child != EntryAt(ns, gone).inode {
      var slot := ChildHasLink(ns, parent, child);
      var before := Unshift(gone, slot);
      UnlinkedSlot(ns, gone, before);
      LinkIsChild(ns', before, child);
    }
  }

  // ---- Validity -------------------------------------------------------------

  lemma UnlinkedNodes(ns: Namespace, gone: Slot)
    requires Valid(ns) && NamesFile(ns, gone)
    ensures HeaderValid(Unlinked(ns, gone)) && InodesValid(Unlinked(ns, gone))
    ensures KindsValid(Unlinked(ns, gone)) && NamesValid(Unlinked(ns, gone))
  {
    hide LinksResolve, DirectoryCountsValid, DirectoriesRooted, FileCountsValid, EntryAt;
    var ns' := Unlinked(ns, gone);
    forall inode | inode in ns'.nodes
      ensures NodeKindValid(ns'.nodes[inode]) && EntryNamesValid(EntriesOf(ns'.nodes[inode]))
    {
      UnlinkedEntries(ns, gone, inode);
      assert NodeKindValid(ns.nodes[inode]) && EntryNamesValid(EntriesOf(ns.nodes[inode]));
      if inode == gone.0 { FewerNames(EntriesOf(ns.nodes[inode]), gone.1); }
    }
  }

  lemma FewerNames(entries: seq<DirectoryEntry>, k: nat)
    requires k < |entries| && EntryNamesValid(entries)
    ensures EntryNamesValid(Without(entries, k))
  {
  }

  lemma UnlinkedResolves(ns: Namespace, gone: Slot)
    requires Valid(ns) && NamesFile(ns, gone)
    ensures LinksResolve(Unlinked(ns, gone))
  {
    hide Unlinked;
    var ns' := Unlinked(ns, gone);
    forall slot | slot in Slots(ns') ensures EntryAt(ns', slot).inode in ns'.nodes {
      UnlinkedSlot(ns, gone, slot);
      UnlinkedEntries(ns, gone, EntryAt(ns, Shift(gone, slot)).inode);
    }
  }

  lemma UnlinkedRooted(ns: Namespace, gone: Slot)
    requires Valid(ns) && NamesFile(ns, gone)
    ensures DirectoriesRooted(Unlinked(ns, gone))
  {
    var ns', file := Unlinked(ns, gone), EntryAt(ns, gone).inode;
    UnlinkedSubtree(ns, gone, ns.root);
    forall inode | IsDirectory(ns', inode) ensures inode in Subtree(ns', ns'.root) {
      SameDirectories(ns, gone, inode);
      assert inode in Subtree(ns, ns.root);
    }
  }

  /** A subtree loses at most the file itself. */
  lemma UnlinkedSubtree(ns: Namespace, gone: Slot, root: InodeId)
    requires Valid(ns) && NamesFile(ns, gone) && root in ns.nodes
    ensures Subtree(Unlinked(ns, gone), root) <= Subtree(ns, root)
    ensures Subtree(ns, root) <= Subtree(Unlinked(ns, gone), root) + {EntryAt(ns, gone).inode}
  {
    hide Unlinked;
    var ns', file := Unlinked(ns, gone), EntryAt(ns, gone).inode;
    UnlinkedResolves(ns, gone);
    UnlinkedEntries(ns, gone, root);
    SubtreeClosed(ns, root);
    SubtreeClosed(ns', root);
    forall i, child | i in Subtree(ns, root) && child in Children(ns', i) ensures child in Subtree(ns, root) {
      UnlinkedChildren(ns, gone, i, child);
    }
    SubtreeLeast(ns', root, Subtree(ns, root));
    var most := Subtree(ns', root) + {file};
    forall i, child | i in most && child in Children(ns, i) ensures child in most {
      var slot := ChildHasLink(ns, i, child);
      UnlinkedChildren(ns, gone, i, child);
    }
    SubtreeLeast(ns, root, most);
  }

  lemma UnlinkedCounts(ns: Namespace, gone: Slot)
    requires Valid(ns) && NamesFile(ns, gone)
    ensures DirectoryCountsValid(Unlinked(ns, gone)) && FileCountsValid(Unlinked(ns, gone))
  {
    var ns', file := Unlinked(ns, gone), EntryAt(ns, gone).inode;
    assert gone in Links(ns, file);
    forall inode | inode in ns'.nodes
      ensures IsDirectory(ns', inode) ==>
        && |Links(ns', inode)| == (if inode == ns'.root then 0 else 1)
        && ns'.nodes[inode].stats.nlink == 2 + |ChildDirectories(ns', inode)|
      ensures !IsDirectory(ns', inode) ==> ns'.nodes[inode].stats.nlink == |Links(ns', inode)|
    {
      UnlinkedCount(ns, gone, inode);
      hide Slots, EntryAt, Links, ChildDirectories;
      SameDirectories(ns, gone, inode);
      UnlinkedChildDirectories(ns, gone, inode);
    }
  }

  /** One link less for the file, as many as before for everything else. */
  lemma UnlinkedCount(ns: Namespace, gone: Slot, inode: InodeId)
    requires NamesFile(ns, gone)
    ensures |Links(Unlinked(ns, gone), inode)| ==
      |Links(ns, inode)| - (if inode == EntryAt(ns, gone).inode then 1 else 0)
  {
    hide Unlinked;
    UnlinkedLinks(ns, gone, inode);
    assert gone in Links(ns, inode) <==> inode == EntryAt(ns, gone).inode;
    assert gone !in Links(ns, inode) ==> Links(ns, inode) - {gone} == Links(ns, inode);
  }

  /** Removing an entry for a file and counting one link less keeps the namespace valid, also
      when no link is left. */
  lemma UnlinkKeepsValid(ns: Namespace, gone: Slot)
    requires Valid(ns) && NamesFile(ns, gone)
    ensures Valid(Unlinked(ns, gone))
  {
    hide Unlinked, HeaderValid, InodesValid, KindsValid, NamesValid, LinksResolve,
         DirectoryCountsValid, DirectoriesRooted, FileCountsValid;
    UnlinkedNodes(ns, gone);
    UnlinkedResolves(ns, gone);
    UnlinkedRooted(ns, gone);
    UnlinkedCounts(ns, gone);
  }

  // ---- A holder may unlink --------------------------------------------------

  lemma UnlinkedClaimable(ns: Namespace, gone: Slot, root: InodeId)
    requires Valid(ns) && NamesFile(ns, gone) && Claimable(ns, root)
    ensures Claimable(Unlinked(ns, gone), root)
  {
    hide Valid, Unlinked, Subtree;
    var ns', file := Unlinked(ns, gone), EntryAt(ns, gone).inode;
    UnlinkedSubtree(ns, gone, root);
    SameDirectories(ns, gone, root);
    forall parent, child | parent in ns'.nodes && parent !in Subtree(ns', root)
                           && child in Children(ns', parent) && child != root
      ensures child !in Subtree(ns', root)
    {
      var slot := ChildHasLink(ns', parent, child);
      SameDirectories(ns, gone, parent);
      UnlinkedChildren(ns, gone, parent, child);
    }
  }

  /** Two nodes change, and neither becomes another kind of object. */
  lemma UnlinkedDiffers(ns: Namespace, gone: Slot)
    requires NamesFile(ns, gone)
    ensures
      var ns' := Unlinked(ns, gone);
      && ns' == ns.(nodes := ns'.nodes) && ns'.nodes.Keys == ns.nodes.Keys
      && (forall inode | inode in ns.nodes && inode != gone.0 && inode != EntryAt(ns, gone).inode ::
            ns'.nodes[inode] == ns.nodes[inode])
      && (forall inode | inode in ns.nodes ::
            && ns'.nodes[inode].stats.mode == ns.nodes[inode].stats.mode
            && ns'.nodes[inode].stats.dev == ns.nodes[inode].stats.dev
            && ns'.nodes[inode].stats.birthtimeMs == ns.nodes[inode].stats.birthtimeMs)
  {
  }

  lemma UnlinkedInside(ns: Namespace, gone: Slot, root: InodeId)
    requires Valid(ns) && NamesFile(ns, gone) && root in ns.nodes && gone.0 in Subtree(ns, root)
    ensures EntryAt(ns, gone).inode in Subtree(ns, root)
  {
    assert gone in Links(ns, EntryAt(ns, gone).inode);
    LinkIsChild(ns, gone, EntryAt(ns, gone).inode);
    SubtreeClosed(ns, root);
  }

  lemma UnlinkedLawful(ns: Namespace, gone: Slot, grant: DirectoryGrant)
    requires Valid(ns) && NamesFile(ns, gone)
    requires GrantValid(ns, grant.token.root, grant) && gone.0 in Subtree(ns, grant.token.root)
    ensures Lawful(ns, Unlinked(ns, gone), grant)
    ensures EntryAt(ns, gone).inode in Subtree(ns, grant.token.root)
  {
    hide Valid, Unlinked, NamesFile, Subtree, Sealed, EntryAt;
    UnlinkedSubtree(ns, gone, grant.token.root);
    UnlinkedInside(ns, gone, grant.token.root);
    UnlinkedDiffers(ns, gone);
  }

  /** The holder of a grant may remove any entry for a file below its directory; a file that
      loses its last link becomes an orphan of the grant, and nothing else does. */
  lemma HolderCanUnlink(st: State, ns: Namespace, token: GrantToken, gone: Slot)
    requires StateValid(st, ns) && TokenLive(st, token)
    requires NamesFile(ns, gone) && gone.0 in Subtree(ns, token.root)
    ensures
      var file, grant := EntryAt(ns, gone).inode, st.grants[token.root];
      var orphans := grant.orphans + (if ns.nodes[file].stats.nlink == 1 then {file} else {});
      PublishResult(st, ns, Unlinked(ns, gone), token)
        == Ok(st.(grants := st.grants[token.root := DirectoryGrant(token, orphans)]))
  {
    hide Valid, Claimable, Unlinked, Lawful, ReceiptsValid, GrantsDisjoint, PublishResult;
    var grant := st.grants[token.root];
    assert GrantValid(ns, token.root, grant);
    UnlinkKeepsValid(ns, gone);
    UnlinkedClaimable(ns, gone, token.root);
    UnlinkedLawful(ns, gone, grant);
    PublishAcceptedIff(st, ns, Unlinked(ns, gone), token);
    UnlinkedOrphans(ns, gone, grant);
    var ns', held := Unlinked(ns, gone), Subtree(ns, token.root) + grant.orphans;
    var orphans := set inode | inode in held && inode in ns'.nodes && ns'.nodes[inode].stats.nlink == 0;
    assert orphans == grant.orphans + (if ns.nodes[EntryAt(ns, gone).inode].stats.nlink == 1
                                       then {EntryAt(ns, gone).inode} else {});
    assert PublishResult(st, ns, ns', token).value
        == st.(grants := st.grants[token.root := DirectoryGrant(token, orphans)]);
  }

  lemma UnlinkedOrphans(ns: Namespace, gone: Slot, grant: DirectoryGrant)
    requires Valid(ns) && NamesFile(ns, gone)
    requires GrantValid(ns, grant.token.root, grant)
    requires EntryAt(ns, gone).inode in Subtree(ns, grant.token.root)
    ensures
      var file, ns' := EntryAt(ns, gone).inode, Unlinked(ns, gone);
      (set inode | inode in Subtree(ns, grant.token.root) + grant.orphans
                   && inode in ns'.nodes && ns'.nodes[inode].stats.nlink == 0)
        == grant.orphans + (if ns.nodes[file].stats.nlink == 1 then {file} else {})
  {
    var file, ns' := EntryAt(ns, gone).inode, Unlinked(ns, gone);
    forall inode | inode in ns.nodes
      ensures inode in ns'.nodes
        && (ns'.nodes[inode].stats.nlink == 0 <==>
            ns.nodes[inode].stats.nlink == 0 || (inode == file && ns.nodes[file].stats.nlink == 1))
    {
      UnlinkedEntries(ns, gone, inode);
    }
    forall inode | inode in Subtree(ns, grant.token.root) ensures ns.nodes[inode].stats.nlink != 0 {
      if ns.nodes[inode].stats.nlink == 0 { OrphanIsUnreferenced(ns, inode); }
    }
    assert forall inode | inode in grant.orphans :: IsOrphan(ns, inode);
  }
}
