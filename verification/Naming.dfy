/** Names in the namespace and virtual paths: every directory of a valid namespace has exactly
    one canonical path, and every path leads to at most one inode. */
module Naming {
  import opened Base
  import opened Storage
  import opened Tree
  import opened Paths

  /** An entry may carry exactly the names that are one path segment of their own. */
  lemma EntryNameIsSegment(name: string)
    ensures EntryNameValid(name) <==> '\0' !in name && SplitPath("/" + name) == [name]
  {
    SplitPathIsSegments("/" + name);
    if '/' !in name {
      assert "" + "/" + name == "/" + name;
      SegmentsOfName("");
      SegmentsExtend("", name);
    } else {
      SegmentsPlain("/" + name);
      assert Segments("/" + name) == [name] ==> Plain(Segments("/" + name)[0]);
    }
  }

  /** The names lead from the namespace root, entry by entry, to the inode. */
  ghost predicate Named(ns: Namespace, names: seq<string>, inode: InodeId)
    decreases |names|
  {
    if names == [] then inode == ns.root
    else exists slot ::
      && slot in Links(ns, inode) && EntryAt(ns, slot).name == names[|names| - 1]
      && Named(ns, names[..|names| - 1], slot.0)
  }

  lemma LastEntry(ns: Namespace, names: seq<string>, inode: InodeId) returns (slot: Slot)
    requires names != [] && Named(ns, names, inode)
    ensures slot in Links(ns, inode) && EntryAt(ns, slot).name == names[|names| - 1]
    ensures Named(ns, names[..|names| - 1], slot.0) && IsDirectory(ns, slot.0)
  {
    slot :| slot in Links(ns, inode) && EntryAt(ns, slot).name == names[|names| - 1]
      && Named(ns, names[..|names| - 1], slot.0);
    LinkIsChild(ns, slot, inode);
  }

  /** Within one directory a name determines the entry. */
  lemma NameDeterminesSlot(ns: Namespace, s: Slot, t: Slot)
    requires NamesValid(ns) && s in Slots(ns) && t in Slots(ns)
    requires s.0 == t.0 && EntryAt(ns, s).name == EntryAt(ns, t).name
    ensures s == t
  {
    assert EntryNamesValid(EntriesOf(ns.nodes[s.0]));
  }

  /** A list of names leads to at most one inode. */
  lemma {:induction false} NamesLeadToOne(ns: Namespace, names: seq<string>, i: InodeId, j: InodeId)
    requires NamesValid(ns) && Named(ns, names, i) && Named(ns, names, j)
    ensures i == j
    decreases |names|
  {
    if names != [] {
      var init := names[..|names| - 1];
      var s := LastEntry(ns, names, i);
      var t := LastEntry(ns, names, j);
      NamesLeadToOne(ns, init, s.0, t.0);
      NameDeterminesSlot(ns, s, t);
    }
  }

  /** A directory is led to by at most one list of names. */
  lemma {:induction false} OneNaming(ns: Namespace, a: seq<string>, b: seq<string>, inode: InodeId)
    requires ParentCountsValid(ns) && IsDirectory(ns, inode)
    requires Named(ns, a, inode) && Named(ns, b, inode)
    ensures a == b
    decreases |a|
  {
    hide Links, EntryAt, IsDirectory;
    if a != [] && b != [] {
      var s := LastEntry(ns, a, inode);
      var t := LastEntry(ns, b, inode);
      LinkedOnce(ns, inode, s);
      SingletonMembers(Links(ns, inode), s, t);
      OneNaming(ns, a[..|a| - 1], b[..|b| - 1], s.0);
      assert a == a[..|a| - 1] + [a[|a| - 1]] && b == b[..|b| - 1] + [b[|b| - 1]];
    } else if a != [] {
      var s := LastEntry(ns, a, inode);
      LinkedOnce(ns, inode, s);
    } else if b != [] {
      var t := LastEntry(ns, b, inode);
      LinkedOnce(ns, inode, t);
    }
  }

  lemma LinkedOnce(ns: Namespace, inode: InodeId, slot: Slot)
    requires ParentCountsValid(ns) && IsDirectory(ns, inode) && slot in Links(ns, inode)
    ensures inode != ns.root && |Links(ns, inode)| == 1
  {
  }

  /** Every chain of slots spells a list of names. */
  lemma {:induction false} PathSpells(ns: Namespace, path: seq<Slot>, inode: InodeId) returns (names: seq<string>)
    requires LeadsTo(ns, path, inode)
    ensures Named(ns, names, inode)
    decreases |path|
  {
    if path == [] {
      names := [];
    } else {
      var last := path[|path| - 1];
      var init := PathSpells(ns, path[..|path| - 1], last.0);
      names := init + [EntryAt(ns, last).name];
      assert names[..|names| - 1] == init;
    }
  }

  predicate NamesUsable(names: seq<string>) {
    forall k | 0 <= k < |names| :: EntryNameValid(names[k])
  }

  lemma {:induction false} NamedUsable(ns: Namespace, names: seq<string>, inode: InodeId)
    requires NamesValid(ns) && Named(ns, names, inode)
    ensures NamesUsable(names)
    decreases |names|
  {
    if names != [] {
      hide Named, NamesValid, Links, EntryNameValid;
      var init := names[..|names| - 1];
      var s := LastEntry(ns, names, inode);
      NamedUsable(ns, init, s.0);
      EntryUsable(ns, s);
      assert names == init + [EntryAt(ns, s).name];
    }
  }

  lemma EntryUsable(ns: Namespace, slot: Slot)
    requires NamesValid(ns) && slot in Slots(ns)
    ensures EntryNameValid(EntryAt(ns, slot).name)
  {
    assert EntryNamesValid(EntriesOf(ns.nodes[slot.0]));
  }

  lemma {:induction false} JoinHasNoNul(names: seq<string>)
    requires NamesUsable(names)
    ensures '\0' !in Join(names)
    decreases |names|
  {
    if |names| > 1 {
      JoinHasNoNul(names[1..]);
    }
  }

  /** Names an entry may carry render to a path the command line accepts and read back as themselves. */
  lemma UsableNamesRender(names: seq<string>)
    requires NamesUsable(names)
    ensures Segments(Render(names)) == names && CheckoutPathAccepted(Render(names))
  {
    SegmentsRendered(names);
    JoinHasNoNul(names);
    AcceptedIffCanonical(Render(names));
  }

  /** A path leads to the inode its segments name. */
  ghost predicate LeadsPathTo(ns: Namespace, path: string, inode: InodeId) {
    Named(ns, Segments(path), inode)
  }

  /** Every path, canonical or not, leads to at most one inode. */
  lemma PathLeadsToOne(ns: Namespace, path: string, i: InodeId, j: InodeId)
    requires Valid(ns) && LeadsPathTo(ns, path, i) && LeadsPathTo(ns, path, j)
    ensures i == j
  {
    NamesLeadToOne(ns, Segments(path), i, j);
  }

  lemma DirectoryHasNaming(ns: Namespace, inode: InodeId) returns (names: seq<string>)
    requires Valid(ns) && IsDirectory(ns, inode)
    ensures Named(ns, names, inode)
  {
    CountsIffTree(ns);
    var path :| LeadsTo(ns, path, inode);
    names := PathSpells(ns, path, inode);
  }

  /** Every directory has one and only one path that the command line accepts for a checkout. */
  lemma DirectoryHasOnePath(ns: Namespace, inode: InodeId) returns (path: string)
    requires Valid(ns) && IsDirectory(ns, inode)
    ensures CheckoutPathAccepted(path) && LeadsPathTo(ns, path, inode)
    ensures forall other | CheckoutPathAccepted(other) && LeadsPathTo(ns, other, inode) :: other == path
  {
    var names := DirectoryHasNaming(ns, inode);
    NamedUsable(ns, names, inode);
    UsableNamesRender(names);
    path := Render(names);
    forall other | CheckoutPathAccepted(other) && LeadsPathTo(ns, other, inode) ensures other == path {
      AcceptedIffCanonical(other);
      OneNaming(ns, Segments(other), names, inode);
    }
  }
}
