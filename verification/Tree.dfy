/** Graph facts about namespaces: closure, minimality and sealing of subtrees, and
    the equivalence of the validator's counts with unique paths from the root. */
module Tree {
  import opened Base
  import opened Storage

  /** `subtree`'s hardlink test: nothing outside links into the subtree except at its root. */
  ghost predicate Sealed(ns: Namespace, root: InodeId) {
    forall parent | parent in ns.nodes && parent !in Subtree(ns, root) ::
      forall child | child in Children(ns, parent) && child != root :: child !in Subtree(ns, root)
  }

  /** `subtree` succeeds exactly on a directory whose subtree is sealed. */
  ghost predicate Claimable(ns: Namespace, root: InodeId) {
    IsDirectory(ns, root) && Sealed(ns, root)
  }

  lemma ChildHasLink(ns: Namespace, parent: InodeId, child: InodeId) returns (slot: Slot)
    requires child in Children(ns, parent)
    ensures slot in Links(ns, child) && slot.0 == parent
    ensures IsDirectory(ns, parent)
  {
    var entries := EntriesOf(ns.nodes[parent]);
    var e :| e in entries && e.inode == child;
    var k: nat :| k < |entries| && entries[k] == e;
    slot := (parent, k);
  }

  lemma LinkIsChild(ns: Namespace, slot: Slot, inode: InodeId)
    requires slot in Links(ns, inode)
    ensures inode in Children(ns, slot.0) && IsDirectory(ns, slot.0)
  {
    assert EntryAt(ns, slot) in EntriesOf(ns.nodes[slot.0]);
  }

  /** A subtree contains its root and is closed under directory entries. */
  lemma SubtreeClosed(ns: Namespace, root: InodeId)
    requires root in ns.nodes && LinksResolve(ns)
    ensures root in Subtree(ns, root)
    ensures forall inode | inode in Subtree(ns, root) :: Children(ns, inode) <= Subtree(ns, root)
  {
    forall inode, child | inode in Subtree(ns, root) && child in Children(ns, inode)
      ensures child in Subtree(ns, root)
    {
      var slot := ChildHasLink(ns, inode, child);
    }
  }

  /** It is the least such set: any closed set holding the root holds the subtree. */
  lemma SubtreeLeast(ns: Namespace, root: InodeId, closed: set<InodeId>)
    requires root in closed
    requires forall i | i in closed :: Children(ns, i) <= closed
    ensures Subtree(ns, root) <= closed
  {
    assert ClosedFrom(ns, root, closed);
  }

  // ---- Reachability step by step --------------------------------------------

  /** `to` is reached from `from` by following exactly `steps` directory entries. */
  ghost predicate ReachesIn(ns: Namespace, from: InodeId, to: InodeId, steps: nat)
    decreases steps
  {
    if steps == 0 then from == to
    else exists mid: InodeId :: ReachesIn(ns, from, mid, steps - 1) && to in Children(ns, mid)
  }

  ghost predicate Reaches(ns: Namespace, from: InodeId, to: InodeId) {
    exists steps: nat :: ReachesIn(ns, from, to, steps)
  }

  lemma ReachStep(ns: Namespace, from: InodeId, mid: InodeId, to: InodeId)
    requires Reaches(ns, from, mid) && to in Children(ns, mid)
    ensures Reaches(ns, from, to)
  {
    var steps: nat :| ReachesIn(ns, from, mid, steps);
    assert ReachesIn(ns, from, to, steps + 1);
  }

  lemma {:induction false} ReachStaysInside(
      ns: Namespace, root: InodeId, closed: set<InodeId>, inode: InodeId, steps: nat)
    requires root in closed
    requires forall i | i in closed :: Children(ns, i) <= closed
    requires ReachesIn(ns, root, inode, steps)
    ensures inode in closed
    decreases steps
  {
    if steps > 0 {
      var mid: InodeId :| ReachesIn(ns, root, mid, steps - 1) && inode in Children(ns, mid);
      ReachStaysInside(ns, root, closed, mid, steps - 1);
    }
  }

  /** The subtree is exactly what a walk along directory entries can reach. */
  lemma SubtreeIsReachable(ns: Namespace, root: InodeId, inode: InodeId)
    requires root in ns.nodes && LinksResolve(ns)
    ensures inode in Subtree(ns, root) <==> Reaches(ns, root, inode)
  {
    SubtreeClosed(ns, root);
    if Reaches(ns, root, inode) {
      var steps: nat :| ReachesIn(ns, root, inode, steps);
      ReachStaysInside(ns, root, Subtree(ns, root), inode, steps);
    }
    var reached := set i | i in ns.nodes && Reaches(ns, root, i);
    assert ReachesIn(ns, root, root, 0);
    forall i, child | i in reached && child in Children(ns, i) ensures child in reached {
      ReachStep(ns, root, i, child);
      var slot := ChildHasLink(ns, i, child);
    }
    SubtreeLeast(ns, root, reached);
  }

  /** How deep below `root` a member of its subtree lies along some path. */
  lemma DepthOf(ns: Namespace, root: InodeId, inode: InodeId) returns (steps: nat)
    requires root in ns.nodes && LinksResolve(ns) && inode in Subtree(ns, root)
    ensures ReachesIn(ns, root, inode, steps)
  {
    SubtreeIsReachable(ns, root, inode);
    steps :| ReachesIn(ns, root, inode, steps);
  }

  /** A subtree is determined by the entries of its own members. */
  lemma SubtreeFrame(ns: Namespace, ns': Namespace, root: InodeId)
    requires root in ns.nodes && LinksResolve(ns) && LinksResolve(ns')
    requires forall i | i in Subtree(ns, root) ::
      i in ns'.nodes && Children(ns', i) == Children(ns, i)
    ensures Subtree(ns', root) == Subtree(ns, root)
  {
    SubtreeClosed(ns, root);
    SubtreeLeast(ns', root, Subtree(ns, root));
    SubtreeClosed(ns', root);
    SubtreeLeast(ns, root, Subtree(ns', root));
  }

  lemma DirectoryIsLinked(ns: Namespace, inode: InodeId)
    requires Valid(ns) && IsDirectory(ns, inode)
    ensures ns.nodes[inode].stats.nlink >= 2
  {
    var children := ChildDirectories(ns, inode);
  }

  /** A node with a nonzero link count hangs from the namespace root. */
  lemma LinkedIsRooted(ns: Namespace, inode: InodeId)
    requires Valid(ns) && inode in ns.nodes && ns.nodes[inode].stats.nlink != 0
    ensures inode in Subtree(ns, ns.root)
  {
    if !IsDirectory(ns, inode) {
      assert Links(ns, inode) != {};
      var slot :| slot in Links(ns, inode);
      LinkIsChild(ns, slot, inode);
      SubtreeClosed(ns, ns.root);
    }
  }

  /** A node with link count zero is an unreferenced non-directory. */
  lemma OrphanIsUnreferenced(ns: Namespace, inode: InodeId)
    requires Valid(ns) && inode in ns.nodes && ns.nodes[inode].stats.nlink == 0
    ensures !IsDirectory(ns, inode)
    ensures forall parent :: inode !in Children(ns, parent)
    ensures forall root | IsDirectory(ns, root) :: inode !in Subtree(ns, root)
  {
    if IsDirectory(ns, inode) { DirectoryIsLinked(ns, inode); }
    assert Links(ns, inode) == {};
    forall parent ensures inode !in Children(ns, parent) {
      if inode in Children(ns, parent) {
        var slot := ChildHasLink(ns, parent, inode);
      }
    }
    forall root | IsDirectory(ns, root) ensures inode !in Subtree(ns, root) {
      SubtreeClosed(ns, root);
      SubtreeLeast(ns, root, Subtree(ns, root) - {inode});
    }
  }

  lemma SubtreeHoldsRoot(ns: Namespace, root: InodeId)
    requires Valid(ns) && IsDirectory(ns, root)
    ensures root in Subtree(ns, root)
  {
    SubtreeClosed(ns, root);
  }

  /** Nothing links to the namespace root. */
  lemma RootHasNoParent(ns: Namespace)
    requires Valid(ns)
    ensures forall parent :: ns.root !in Children(ns, parent)
  {
    assert Links(ns, ns.root) == {};
    forall parent ensures ns.root !in Children(ns, parent) {
      if ns.root in Children(ns, parent) {
        var slot := ChildHasLink(ns, parent, ns.root);
      }
    }
  }

  /** The namespace root lies only in its own subtree. */
  lemma RootOnlyUnderItself(ns: Namespace, root: InodeId)
    requires Valid(ns) && root in ns.nodes && ns.root in Subtree(ns, root)
    ensures root == ns.root
  {
    RootHasNoParent(ns);
    if root != ns.root {
      SubtreeClosed(ns, root);
      SubtreeLeast(ns, root, Subtree(ns, root) - {ns.root});
    }
  }

  // ---- Intersection of sealed subtrees --------------------------------------

  /** Sealing read backwards: below the root, membership is inherited from child to parent. */
  lemma SealedParent(ns: Namespace, root: InodeId, parent: InodeId, child: InodeId)
    requires Sealed(ns, root) && child in Children(ns, parent)
    requires child in Subtree(ns, root) && child != root
    ensures parent in Subtree(ns, root)
  {
    assert parent in ns.nodes;
  }

  /** Climbing from a member of an upward-sealed set along a path from `a`, either `a`
      itself is a member or the climb passes through the set's root `b`. */
  lemma {:induction false} ClimbOut(
      ns: Namespace, a: InodeId, b: InodeId, tree: set<InodeId>, inode: InodeId, steps: nat)
    requires forall parent, child | child in Children(ns, parent) && child in tree && child != b ::
      parent in tree
    requires ReachesIn(ns, a, inode, steps) && inode in tree
    ensures a in tree || Reaches(ns, a, b)
    decreases steps
  {
    if steps > 0 && inode != b {
      var mid: InodeId :| ReachesIn(ns, a, mid, steps - 1) && inode in Children(ns, mid);
      ClimbOut(ns, a, b, tree, mid, steps - 1);
    }
  }

  /** Two claimable subtrees share an inode exactly when one root is inside the other's subtree. */
  lemma SubtreesMeetIffNested(ns: Namespace, a: InodeId, b: InodeId)
    requires LinksResolve(ns) && Claimable(ns, a) && Claimable(ns, b)
    ensures Subtree(ns, a) !! Subtree(ns, b) <==> a !in Subtree(ns, b) && b !in Subtree(ns, a)
  {
    SubtreeClosed(ns, a);
    SubtreeClosed(ns, b);
    if inode :| inode in Subtree(ns, a) && inode in Subtree(ns, b) {
      var steps := DepthOf(ns, a, inode);
      forall parent, child | child in Children(ns, parent) && child in Subtree(ns, b) && child != b
        ensures parent in Subtree(ns, b)
      {
        SealedParent(ns, b, parent, child);
      }
      ClimbOut(ns, a, b, Subtree(ns, b), inode, steps);
      SubtreeIsReachable(ns, a, b);
    }
  }

  // ---- The directory part is a tree -----------------------------------------

  /** `path` is the chain of slots that leads from the namespace root down to `inode`. */
  ghost predicate LeadsTo(ns: Namespace, path: seq<Slot>, inode: InodeId)
    decreases |path|
  {
    if path == [] then inode == ns.root
    else
      var last := path[|path| - 1];
      last in Links(ns, inode) && LeadsTo(ns, path[..|path| - 1], last.0)
  }

  /** Every directory is reached from the root by one and only one chain of slots. */
  ghost predicate DirectoriesFormTree(ns: Namespace) {
    forall inode | IsDirectory(ns, inode) ::
      && (exists path :: LeadsTo(ns, path, inode))
      && (forall p, q | LeadsTo(ns, p, inode) && LeadsTo(ns, q, inode) :: p == q)
  }

  lemma {:induction false} PathFromReach(ns: Namespace, inode: InodeId, steps: nat)
    requires ReachesIn(ns, ns.root, inode, steps)
    ensures exists path :: LeadsTo(ns, path, inode)
    decreases steps
  {
    if steps == 0 {
      assert LeadsTo(ns, [], inode);
    } else {
      var mid: InodeId :| ReachesIn(ns, ns.root, mid, steps - 1) && inode in Children(ns, mid);
      PathFromReach(ns, mid, steps - 1);
      var path :| LeadsTo(ns, path, mid);
      var slot := ChildHasLink(ns, mid, inode);
      assert (path + [slot])[..|path|] == path;
      assert LeadsTo(ns, path + [slot], inode);
    }
  }

  lemma {:induction false} ReachFromPath(ns: Namespace, path: seq<Slot>, inode: InodeId)
    requires LeadsTo(ns, path, inode)
    ensures Reaches(ns, ns.root, inode)
    decreases |path|
  {
    if path == [] {
      assert ReachesIn(ns, ns.root, inode, 0);
    } else {
      var last := path[|path| - 1];
      ReachFromPath(ns, path[..|path| - 1], last.0);
      LinkIsChild(ns, last, inode);
      ReachStep(ns, ns.root, last.0, inode);
    }
  }

  lemma {:induction false} PathsUnique(ns: Namespace, p: seq<Slot>, q: seq<Slot>, inode: InodeId)
    requires ParentCountsValid(ns) && IsDirectory(ns, inode)
    requires LeadsTo(ns, p, inode) && LeadsTo(ns, q, inode)
    ensures p == q
    decreases |p|
  {
    if inode == ns.root {
      assert Links(ns, inode) == {};
    } else {
      var s, t := p[|p| - 1], q[|q| - 1];
      SingletonMembers(Links(ns, inode), s, t);
      LinkIsChild(ns, s, inode);
      PathsUnique(ns, p[..|p| - 1], q[..|q| - 1], s.0);
      assert p == p[..|p| - 1] + [s] && q == q[..|q| - 1] + [t];
    }
  }

  lemma SingletonMembers<T>(s: set<T>, x: T, y: T)
    requires |s| == 1 && x in s && y in s
    ensures x == y
  {
    assert |s - {x}| == 0;
  }

  lemma UniquePathsCount(ns: Namespace, inode: InodeId)
    requires DirectoriesFormTree(ns) && IsDirectory(ns, inode)
    ensures |Links(ns, inode)| == (if inode == ns.root then 0 else 1)
  {
    var path :| LeadsTo(ns, path, inode);
    forall s | s in Links(ns, inode) ensures path != [] && s == path[|path| - 1] {
      LinkIsChild(ns, s, inode);
      var up :| LeadsTo(ns, up, s.0);
      assert (up + [s])[..|up|] == up;
      assert LeadsTo(ns, up + [s], inode);
    }
    if inode == ns.root {
      assert LeadsTo(ns, [], inode);
      assert Links(ns, inode) == {};
    } else {
      assert Links(ns, inode) == {path[|path| - 1]};
    }
  }

  /** Parent counts plus reachability are exactly the unique-path definition of a rooted tree. */
  lemma CountsIffTree(ns: Namespace)
    requires IsDirectory(ns, ns.root) && LinksResolve(ns)
    ensures ParentCountsValid(ns) && DirectoriesRooted(ns) <==> DirectoriesFormTree(ns)
  {
    if ParentCountsValid(ns) && DirectoriesRooted(ns) {
      forall inode | IsDirectory(ns, inode)
        ensures exists path :: LeadsTo(ns, path, inode)
      {
        var steps := DepthOf(ns, ns.root, inode);
        PathFromReach(ns, inode, steps);
      }
      forall inode, p, q | IsDirectory(ns, inode) && LeadsTo(ns, p, inode) && LeadsTo(ns, q, inode)
        ensures p == q
      {
        PathsUnique(ns, p, q, inode);
      }
    }
    if DirectoriesFormTree(ns) {
      forall inode | IsDirectory(ns, inode)
        ensures |Links(ns, inode)| == (if inode == ns.root then 0 else 1)
        ensures inode in Subtree(ns, ns.root)
      {
        UniquePathsCount(ns, inode);
        var path :| LeadsTo(ns, path, inode);
        ReachFromPath(ns, path, inode);
        SubtreeIsReachable(ns, ns.root, inode);
      }
    }
  }
}
