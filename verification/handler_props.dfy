/**
 * What the callbacks of `src/fs/mod.rs` promise on a state that keeps the
 * invariant `FsState.Valid`: which inodes each handler serves, what the
 * listings hold, and that no handler panics except when listing a snapshot
 * whose signature has no entries at all.
 */
module HandlerProps {
  import opened Wrappers
  import opened Signatures
  import opened Fuse
  import opened TreeNodes
  import opened Tree
  import opened TreeSearch
  import opened TreeIter
  import opened Listing
  import opened SnapshotInodes
  import opened FsState
  import opened Handlers

  /** The entries of the snapshot behind slot `sid` of a valid state. */
  function SlotEntries(fs: Fs, sid: nat): (es: seq<Entry>)
    requires Valid(fs) && sid < |fs.trees| && fs.trees[sid].Some?
    ensures EntriesOf(fs.backup, sid) == Some(es)
    ensures fs.trees[sid].value.tree == NewTree(es, fs.trees[sid].value.tree.root.ino)
  {
    assert SlotBuilt(fs.backup.snapshots.value, sid, fs.trees[sid].value, SnapshotInodes.LastIno(fs.snapshots), fs.lastIno);
    fs.backup.snapshots.value[sid].entries.value
  }

  /** A snapshot directory's attributes carry the time of the snapshot at position `ino - 2`. */
  lemma GetAttrSnapshotValid(fs: Fs, ino: nat, now: Timespec, cmp: Comparator)
    requires Valid(fs) && 2 <= ino < Len(fs.snapshots) + 2
    ensures ino - 2 < |fs.backup.snapshots.value|
    ensures GetAttr(fs, ino, now, cmp) == Ok(AttrOut(TTL, DirAttr(ino, fs.backup.snapshots.value[ino - 2].time)))
  {
    LenOfNew(fs.backup.snapshots.value);
  }

  /**
   * An inode found through a valid state's trees: it lies above the snapshot
   * inodes, its tree was built from a non-empty entry list, and the node sits
   * on an entry of that list and descends from the tree's root.
   */
  lemma LocatedFacts(fs: Fs, ino: nat, cmp: Comparator)
    requires Valid(fs) && Locate(fs, ino, cmp).Here?
    ensures ino > Len(fs.snapshots) + 2
    ensures var l := Locate(fs, ino, cmp);
            var es := SlotEntries(fs, l.sid);
            var t := fs.trees[l.sid].value.tree;
            && |es| > 0
            && l.node.node.index < |es|
            && Descends(NewTree(es, t.root.ino).root, l.node.node, l.node.depth, NewTree(es, t.root.ino).root.ino, l.node.parent)
  {
    var l := Locate(fs, ino, cmp);
    var es := SlotEntries(fs, l.sid);
    var slot := fs.trees[l.sid].value;
    var t := slot.tree;
    RangeAboveSnapshots(fs, l.sid);
    assert ino >= t.root.ino;
    assert |es| > 0 by {
      assert Range(slot).Some?;
    }
    DescendsInFlatten(t.root, l.node.node, l.node.depth, t.root.ino, l.node.parent);
    var j :| 0 <= j < |Flatten(t.root)| && Flatten(t.root)[j] == l.node.node;
    NewTreeNumbered(es, t.root.ino);
    NewTreeCount(es, t.root.ino);
  }

  /** Node j of a built tree, but the root, has an inode its slot owns, above the snapshot inodes. */
  lemma SlotOwnsNode(fs: Fs, sid: nat, j: nat)
    requires Valid(fs) && sid < |fs.trees| && fs.trees[sid].Some?
    requires 1 <= j < NodeCount(fs.trees[sid].value.tree)
    ensures fs.trees[sid].value.tree.root.ino + j > Len(fs.snapshots) + 2
    ensures FindTreeWithIno(fs, fs.trees[sid].value.tree.root.ino + j) == Some((fs.trees[sid].value.tree, sid))
  {
    var es := SlotEntries(fs, sid);
    var slot := fs.trees[sid].value;
    var root := slot.tree.root.ino;
    RangeAboveSnapshots(fs, sid);
    TreeInodesSpan(es, root);
    assert Owns(slot, root + j);
    FindTreeOwner(fs, root + j, sid);
  }

  /** An inode whose tree search and node search both succeed is located at that node. */
  lemma LocateFound(fs: Fs, ino: nat, sid: nat, n: NodeEntry, cmp: Comparator)
    requires sid < |fs.trees| && fs.trees[sid].Some?
    requires FindTreeWithIno(fs, ino) == Some((fs.trees[sid].value.tree, sid))
    requires FindNode(fs.trees[sid].value.tree, ino, cmp) == Some(n)
    ensures Locate(fs, ino, cmp) == Here(n, sid)
  {
  }

  /** With the corrected comparator, node j of a built tree, but the root, is found at inode `root + j` in its own slot. */
  lemma LocateNode(fs: Fs, sid: nat, j: nat)
    requires Valid(fs) && sid < |fs.trees| && fs.trees[sid].Some?
    requires 1 <= j < NodeCount(fs.trees[sid].value.tree)
    ensures fs.trees[sid].value.tree.root.ino + j > Len(fs.snapshots) + 2
    ensures Locate(fs, fs.trees[sid].value.tree.root.ino + j, Corrected).Here?
    ensures Locate(fs, fs.trees[sid].value.tree.root.ino + j, Corrected).sid == sid
    ensures Locate(fs, fs.trees[sid].value.tree.root.ino + j, Corrected).node.node.index == j
  {
    SlotOwnsNode(fs, sid, j);
    LocateBuilt(fs, sid, j, SlotEntries(fs, sid));
  }

  /** Node j of a tree built from `es`, when its slot owns its inode, is located there. */
  lemma LocateBuilt(fs: Fs, sid: nat, j: nat, es: seq<Entry>)
    requires sid < |fs.trees| && fs.trees[sid].Some?
    requires fs.trees[sid].value.tree == NewTree(es, fs.trees[sid].value.tree.root.ino)
    requires j < NodeCount(fs.trees[sid].value.tree)
    requires FindTreeWithIno(fs, fs.trees[sid].value.tree.root.ino + j) == Some((fs.trees[sid].value.tree, sid))
    ensures Locate(fs, fs.trees[sid].value.tree.root.ino + j, Corrected).Here?
    ensures Locate(fs, fs.trees[sid].value.tree.root.ino + j, Corrected).sid == sid
    ensures Locate(fs, fs.trees[sid].value.tree.root.ino + j, Corrected).node.node.index == j
  {
    var t := fs.trees[sid].value.tree;
    FindNodeComplete(es, t.root.ino, j);
    LocateFound(fs, t.root.ino + j, sid, FindNode(t, t.root.ino + j, Corrected).value, Corrected);
  }

  /**
   * With the corrected comparator every node of a built tree but its root
   * answers `getattr` with the attributes of its own entry: node j in
   * pre-order, inode `root + j`, is entry j.
   */
  lemma GetAttrReachesEntries(fs: Fs, sid: nat, es: seq<Entry>, j: nat, now: Timespec)
    requires Valid(fs) && sid < |fs.trees| && fs.trees[sid].Some?
    requires EntriesOf(fs.backup, sid) == Some(es)
    requires 1 <= j < NodeCount(fs.trees[sid].value.tree)
    ensures j < |es|
    ensures var root := fs.trees[sid].value.tree.root.ino;
            GetAttr(fs, root + j, now, Corrected) == Ok(AttrOut(TTL, AttrEntry(es[j], root + j)))
  {
    assert SlotEntries(fs, sid) == es;
    NewTreeCount(es, fs.trees[sid].value.tree.root.ino);
    LocateNode(fs, sid, j);
  }

  /** `getattr` never panics on a valid state. */
  lemma GetAttrNoPanic(fs: Fs, ino: nat, now: Timespec, cmp: Comparator)
    requires Valid(fs)
    ensures !GetAttr(fs, ino, now, cmp).Panicked?
  {
    if ino != 1 && !IsSnapshot(fs.snapshots, ino) && Locate(fs, ino, cmp).Here? {
      LocatedFacts(fs, ino, cmp);
    }
  }

  /** `readlink` on a valid state: the target of a link, ENOSYS for any other entry, ENOENT for an unknown inode. */
  lemma ReadLinkValid(fs: Fs, ino: nat, cmp: Comparator)
    requires Valid(fs)
    ensures !Locate(fs, ino, cmp).Here? ==> ReadLink(fs, ino, cmp) == Error(ENOENT)
    ensures Locate(fs, ino, cmp).Here? ==>
              var l := Locate(fs, ino, cmp);
              && l.node.node.index < |SlotEntries(fs, l.sid)|
              && var e := SlotEntries(fs, l.sid)[l.node.node.index];
                 ReadLink(fs, ino, cmp) == if e.linkTarget.Some? then Ok(e.linkTarget.value) else Error(ENOSYS)
  {
    if Locate(fs, ino, cmp).Here? {
      LocatedFacts(fs, ino, cmp);
    }
  }

  /**
   * On a valid state no lookup under a snapshot directory succeeds: the tree's
   * root has an inode past `lastIno` at build time, not the snapshot
   * directory's, so `find_node` never finds the snapshot inode.
   */
  lemma LookupUnderSnapshot(fs: Fs, parent: nat, name: OsName, cmp: Comparator)
    requires Valid(fs) && 2 <= parent < Len(fs.snapshots) + 2
    ensures Lookup(fs, parent, name, cmp) == Error(ENOENT)
  {
    match FindTreeWithIno(fs, parent)
    case None =>
    case Some((t, k)) =>
      RangeAboveSnapshots(fs, k);
  }

  /** The walk over the children of a located node, and its listing candidates. */
  function ChildWalk(fs: Fs, ino: nat, cmp: Comparator): (w: (seq<PathEntry>, bool))
    requires Valid(fs) && Locate(fs, ino, cmp).Here?
  {
    var l := Locate(fs, ino, cmp);
    Walk(ChildrenIter(l.node.node.children, SlotEntries(fs, l.sid)[1..], 0, l.node.depth))
  }

  /**
   * The children of a located node, as the walk yields them: the k-th is the
   * k-th child node with its own entry, none crashes, and each has a path
   * component at the node's depth.
   */
  lemma ChildWalkFacts(fs: Fs, ino: nat, cmp: Comparator)
    requires Valid(fs) && Locate(fs, ino, cmp).Here?
    ensures var l := Locate(fs, ino, cmp);
            var kids := l.node.node.children;
            var es := SlotEntries(fs, l.sid);
            var w := ChildWalk(fs, ino, cmp);
            && |es| > 0
            && NodeChildren(l.node, es) == Some(ChildrenIter(kids, es[1..], 0, l.node.depth))
            && !w.1 && |w.0| == |kids|
            && forall k :: 0 <= k < |kids| ==>
                 && kids[k].index < |es|
                 && w.0[k] == PathEntry(kids[k], es[kids[k].index], l.node.depth)
                 && !PathName(w.0[k]).NoComponent?
  {
    var l := Locate(fs, ino, cmp);
    var es := SlotEntries(fs, l.sid);
    var t := fs.trees[l.sid].value.tree;
    LocatedFacts(fs, ino, cmp);
    FoundChildrenWalk(es, t.root.ino, l.node);
  }

  /**
   * Listing a node of a tree: the candidates are calm and numbered, one per
   * child, and child k appears as an item exactly when its component is a
   * normal name, with the child's inode, offset k + 2, its entry's type and
   * that name. The reply is the page of those candidates, so the paging
   * lemmas of `Listing` apply.
   */
  lemma ReadDirEntryListing(fs: Fs, ino: nat, offset: nat, cap: nat, cmp: Comparator)
    requires Valid(fs) && Locate(fs, ino, cmp).Here?
    ensures var l := Locate(fs, ino, cmp);
            var kids := l.node.node.children;
            var es := SlotEntries(fs, l.sid);
            var cs := Cands(ChildWalk(fs, ino, cmp));
            && Calm(cs) && Numbered(cs) && |cs| == |kids|
            && (forall k :: 0 <= k < |kids| ==>
                  && kids[k].index < |es| && |es[kids[k].index].path| > l.node.depth
                  && (cs[k].Item? <==> es[kids[k].index].path[l.node.depth].Normal?)
                  && (cs[k].Item? ==> cs[k].item == DirItem(kids[k].ino, k + 2, FromEntryType(es[kids[k].index].kind),
                                                            es[kids[k].index].path[l.node.depth].name)))
            && Page(cs, offset, cap, ino, l.node.parent).Some?
            && ReadDir(fs, ino, offset, cap, cmp) == (fs, Ok(Page(cs, offset, cap, ino, l.node.parent).value))
  {
    var l := Locate(fs, ino, cmp);
    LocatedFacts(fs, ino, cmp);
    ChildWalkFacts(fs, ino, cmp);
    var cs := Cands(ChildWalk(fs, ino, cmp));
    PageCalm(cs, offset, cap, ino, l.node.parent);
  }

  /**
   * Looking a name up in a node of a tree: ENOENT exactly when no child's
   * component is that name, and otherwise the attributes of the first child
   * named so.
   */
  lemma LookupEntryValid(fs: Fs, parent: nat, name: OsName, cmp: Comparator)
    requires Valid(fs) && Locate(fs, parent, cmp).Here?
    ensures var l := Locate(fs, parent, cmp);
            var kids := l.node.node.children;
            var es := SlotEntries(fs, l.sid);
            && (forall k :: 0 <= k < |kids| ==> kids[k].index < |es| && |es[kids[k].index].path| > l.node.depth)
            && (Lookup(fs, parent, name, cmp) == Error(ENOENT) <==>
                  forall k :: 0 <= k < |kids| ==> es[kids[k].index].path[l.node.depth] != Normal(name))
            && (Lookup(fs, parent, name, cmp).Ok? || Lookup(fs, parent, name, cmp) == Error(ENOENT))
            && (Lookup(fs, parent, name, cmp).Ok? ==>
                  exists k :: && 0 <= k < |kids| && es[kids[k].index].path[l.node.depth] == Normal(name)
                              && (forall j :: 0 <= j < k ==> es[kids[j].index].path[l.node.depth] != Normal(name))
                              && Lookup(fs, parent, name, cmp).value == EntryOut(TTL, AttrEntry(es[kids[k].index], kids[k].ino), 0))
  {
    var l := Locate(fs, parent, cmp);
    var kids := l.node.node.children;
    var es := SlotEntries(fs, l.sid);
    LocatedFacts(fs, parent, cmp);
    ChildWalkFacts(fs, parent, cmp);
    var w := ChildWalk(fs, parent, cmp);
    FindChildAmongKids(kids, es, l.node.depth, w.0, name);
  }

  /**
   * The search for a name over the walk of a node's children, read back on
   * the children and their entries: it never panics, misses exactly when no
   * child's component is the name, and otherwise finds the first child
   * carrying it.
   */
  lemma FindChildAmongKids(kids: seq<TreeNode>, es: seq<Entry>, depth: nat, w: seq<PathEntry>, name: OsName)
    requires |w| == |kids|
    requires forall k :: 0 <= k < |kids| ==>
               && kids[k].index < |es|
               && w[k] == PathEntry(kids[k], es[kids[k].index], depth)
               && !PathName(w[k]).NoComponent?
    ensures !FindChild(w, false, name).SearchPanic?
    ensures FindChild(w, false, name).Missing? <==> forall k :: 0 <= k < |kids| ==> es[kids[k].index].path[depth] != Normal(name)
    ensures FindChild(w, false, name).Child? ==>
              exists k :: && 0 <= k < |kids| && es[kids[k].index].path[depth] == Normal(name)
                          && (forall j :: 0 <= j < k ==> es[kids[j].index].path[depth] != Normal(name))
                          && FindChild(w, false, name).entry == PathEntry(kids[k], es[kids[k].index], depth)
  {
    var r := FindChild(w, false, name);
    if r.Child? {
      var k :| && 0 <= k < |w| && w[k] == r.entry && PathName(w[k]) == Named(name)
               && forall j :: 0 <= j < k ==> PathName(w[j]) != Named(name);
      assert es[kids[k].index].path[depth] == Normal(name);
      forall j | 0 <= j < k
        ensures es[kids[j].index].path[depth] != Normal(name)
      {
        assert PathName(w[j]) != Named(name);
      }
    }
    if r.Missing? {
      forall k | 0 <= k < |kids|
        ensures es[kids[k].index].path[depth] != Normal(name)
      {
        assert PathName(w[k]) != Named(name);
      }
    }
  }

  /**
   * Listing a snapshot directory on a valid state panics exactly when the
   * snapshot's signature holds no entry at all (`children` unwraps the root
   * entry); it is dropped when the signature cannot be read, and otherwise
   * it answers and keeps the invariant.
   */
  lemma ReadDirSnapshotValid(fs: Fs, ino: nat, offset: nat, cap: nat, cmp: Comparator)
    requires Valid(fs) && 2 <= ino < Len(fs.snapshots) + 2
    ensures Valid(ReadDir(fs, ino, offset, cap, cmp).0)
    ensures ReadDir(fs, ino, offset, cap, cmp).1.Panicked? <==> EntriesOf(fs.backup, ino - 2) == Some([])
    ensures ReadDir(fs, ino, offset, cap, cmp).1.Dropped? <==> EntriesOf(fs.backup, ino - 2).None?
    ensures !ReadDir(fs, ino, offset, cap, cmp).1.Error?
  {
    var sid := ino - 2;
    TreeForSnapshotOutcome(fs, sid);
    TreeForSnapshotValid(fs, sid);
    var (fs', fetch) := TreeForSnapshot(fs, sid);
    if fetch.Fetched? {
      var es := SlotEntries(fs', sid);
      if |es| > 0 {
        ReadDirSnapshotListing(fs, ino, offset, cap, es, cmp);
      }
    }
  }

  /**
   * On a valid state, no `getattr`, `readlink`, nor listing of anything but a
   * snapshot directory panics, and `lookup` panics exactly for a name under
   * the root that is not text.
   */
  lemma NoPanics(fs: Fs, ino: nat, offset: nat, cap: nat, name: OsName, now: Timespec, cmp: Comparator)
    requires Valid(fs)
    ensures !GetAttr(fs, ino, now, cmp).Panicked?
    ensures Lookup(fs, ino, name, cmp).Panicked? <==> ino == 1 && !Utf8(name)
    ensures !ReadLink(fs, ino, cmp).Panicked?
    ensures !(2 <= ino < Len(fs.snapshots) + 2) ==> !ReadDir(fs, ino, offset, cap, cmp).1.Panicked?
  {
    GetAttrNoPanic(fs, ino, now, cmp);
    ReadLinkValid(fs, ino, cmp);
    if Locate(fs, ino, cmp).Here? {
      LocatedFacts(fs, ino, cmp);
      if ino != 1 {
        LookupEntryValid(fs, ino, name, cmp);
      }
      ReadDirEntryListing(fs, ino, offset, cap, cmp);
    }
  }

  /**
   * The root listing is the page of the snapshot directories numbered by
   * position: snapshot k is listed with inode and offset k + 2, its
   * `ino_from_sid`, whatever offset the call resumes from.
   */
  lemma ReadDirRootListing(backup: Backup, offset: nat, cap: nat)
    requires backup.snapshots.Some?
    ensures var cs := RootCands(Names(backup.snapshots.value));
            && (forall k :: 0 <= k < |cs| ==> cs[k].item.ino == InoFromSid(k) && cs[k].item.offset == InoFromSid(k))
            && Page(cs, offset, cap, 1, 1).Some?
            && ReadDirRoot(backup, offset, cap) == Ok(Page(cs, offset, cap, 1, 1).value)
  {
    var names := Names(backup.snapshots.value);
    var cs := RootCands(names);
    var s := Resume(offset);
    var start := Start(offset, cap, 1, 1);
    if s <= |names| {
      RootLoopNumbered(start, names, s, cap);
    } else {
      assert names[Min(s, |names|)..] == [];
    }
  }

  /**
   * The children of a built tree's root, listed: no candidate panics, child k
   * is offset k + 2, and it is listed exactly when the first component of its
   * entry's path is a normal name, under that name.
   */
  lemma RootChildrenListing(es: seq<Entry>, firstIno: nat)
    requires |es| > 0
    ensures var kids := NewTree(es, firstIno).root.children;
            var cs := Cands(Walk(ChildrenIter(kids, es[1..], 0, 0)));
            && Calm(cs) && Numbered(cs) && |cs| == |kids|
            && forall k :: 0 <= k < |kids| ==>
                 && kids[k].index < |es| && |es[kids[k].index].path| > 0
                 && (cs[k].Item? <==> es[kids[k].index].path[0].Normal?)
                 && (cs[k].Item? ==> cs[k].item == DirItem(kids[k].ino, k + 2, FromEntryType(es[kids[k].index].kind),
                                                           es[kids[k].index].path[0].name))
  {
    var t := NewTree(es, firstIno);
    NewTreeWellFormed(es, firstIno);
    assert Descends(t.root, t.root, 0, t.root.ino, t.root.ino);
    FoundChildrenWalk(es, firstIno, NodeEntry(t.root, 0, t.root.ino));
  }

  /**
   * Listing a snapshot directory whose signature is not empty: the page over
   * the children of the tree built from that signature, with "." the
   * directory and ".." the root, each child as `RootChildrenListing` says.
   */
  lemma ReadDirSnapshotListing(fs: Fs, ino: nat, offset: nat, cap: nat, es: seq<Entry>, cmp: Comparator)
    requires Valid(fs) && 2 <= ino < Len(fs.snapshots) + 2
    requires EntriesOf(fs.backup, ino - 2) == Some(es) && |es| > 0
    ensures var (fs', fetch) := TreeForSnapshot(fs, ino - 2);
            && fetch.Fetched?
            && fetch.tree == NewTree(es, fetch.tree.root.ino)
            && var cs := Cands(Walk(ChildrenIter(fetch.tree.root.children, es[1..], 0, 0)));
               && Page(cs, offset, cap, ino, 1).Some?
               && ReadDir(fs, ino, offset, cap, cmp) == (fs', Ok(Page(cs, offset, cap, ino, 1).value))
  {
    var sid := ino - 2;
    TreeForSnapshotOutcome(fs, sid);
    TreeForSnapshotValid(fs, sid);
    var (fs', fetch) := TreeForSnapshot(fs, sid);
    assert SlotEntries(fs', sid) == es;
    var t := fetch.tree;
    RootChildrenListing(es, t.root.ino);
    var cs := Cands(Walk(ChildrenIter(t.root.children, es[1..], 0, 0)));
    PageCalm(cs, offset, cap, ino, 1);
  }

  /**
   * What the invariant says about a filled slot's first non-root node: its
   * inode is above the snapshot directories', the slot owns it, and the tree
   * is the one its signature builds.
   */
  lemma SlotFirstNode(fs: Fs, sid: nat, es: seq<Entry>)
    requires Valid(fs) && sid < |fs.trees| && fs.trees[sid].Some?
    requires EntriesOf(fs.backup, sid) == Some(es)
    requires |es| > 1 && |es[1].path| > 0
    ensures var t := fs.trees[sid].value.tree;
            && t == NewTree(es, t.root.ino)
            && t.root.ino + 1 > Len(fs.snapshots) + 2
            && FindTreeWithIno(fs, t.root.ino + 1) == Some((t, sid))
  {
    assert SlotEntries(fs, sid) == es;
    NewTreeCount(es, fs.trees[sid].value.tree.root.ino);
    SlotOwnsNode(fs, sid, 1);
  }

  /**
   * In a filled slot whose signature is a root and three top-level entries,
   * the search as written does not locate the root's first child, node 1 of
   * four.
   */
  lemma AsWrittenLocateMisses(fs: Fs, sid: nat, es: seq<Entry>)
    requires Valid(fs) && sid < |fs.trees| && fs.trees[sid].Some?
    requires EntriesOf(fs.backup, sid) == Some(es)
    requires |es| == 4 && |es[1].path| == 1 && |es[2].path| == 1 && |es[3].path| == 1
    ensures NodeCount(fs.trees[sid].value.tree) == 4
    ensures fs.trees[sid].value.tree.root.ino + 1 > Len(fs.snapshots) + 2
    ensures Locate(fs, fs.trees[sid].value.tree.root.ino + 1, AsWritten) == NoNode
  {
    SlotFirstNode(fs, sid, es);
    AsWrittenMissesBuilt(es, fs.trees[sid].value.tree.root.ino);
  }

  /** An inode above the snapshot directories that is not located answers `getattr` with ENOENT. */
  lemma GetAttrUnlocated(fs: Fs, ino: nat, now: Timespec, cmp: Comparator)
    requires ino > Len(fs.snapshots) + 2 && !Locate(fs, ino, cmp).Here?
    ensures GetAttr(fs, ino, now, cmp) == Error(ENOENT)
  {
  }

  /** A backup of one snapshot, named "1", with the given signature. */
  function OneSnapshot(es: seq<Entry>): (b: Backup)
    ensures b.snapshots.Some? && |b.snapshots.value| == 1 && b.snapshots.value[0].entries == Some(es)
  {
    Backup(Some([Snapshot(Timespec(0, 0), [0x31], Some(es))]))
  }

  /** The state after opening that backup and listing its snapshot directory, inode 2, from offset 0. */
  function OneSnapshotState(es: seq<Entry>, cap: nat): (fs: Fs)
  {
    ReadDir(FsState.New(OneSnapshot(es)).value, 2, 0, cap, AsWritten).0
  }

  /** Opening that backup: one snapshot directory, inode 2, no tree built, the last inode 3. */
  lemma OneSnapshotOpened(es: seq<Entry>)
    ensures FsState.New(OneSnapshot(es)).Some?
    ensures var fs := FsState.New(OneSnapshot(es)).value;
            && Valid(fs) && Len(fs.snapshots) == 1 && fs.lastIno == 3
            && |fs.trees| == 1 && fs.trees[0].None?
  {
    var b := OneSnapshot(es);
    NewValid(b);
    LenOfNew(b.snapshots.value);
  }

  /** Listing snapshot directory 2 then builds the tree of its signature with root inode 4. */
  lemma OneSnapshotListed(es: seq<Entry>, cap: nat)
    ensures var fs := OneSnapshotState(es, cap);
            && Valid(fs) && |fs.trees| == 1 && fs.trees[0].Some? && fs.trees[0].value.tree.root.ino == 4
            && EntriesOf(fs.backup, 0) == Some(es)
  {
    OneSnapshotOpened(es);
    var fs0 := FsState.New(OneSnapshot(es)).value;
    TreeForSnapshotOutcome(fs0, 0);
    TreeForSnapshotValid(fs0, 0);
    TreeForSnapshotAllocates(fs0, 0);
  }

  /**
   * The miss from a freshly opened filesystem: a backup of one snapshot whose
   * signature is its root and three top-level entries has last inode 3;
   * listing snapshot directory 2 builds its tree with root 4 and entries 5, 6
   * and 7; then `getattr` of the first entry, inode 5, is ENOENT as written
   * and that entry's attributes once corrected.
   */
  lemma OneSnapshotMisses(es: seq<Entry>, cap: nat, now: Timespec)
    requires |es| == 4 && |es[1].path| == 1 && |es[2].path| == 1 && |es[3].path| == 1
    ensures GetAttr(OneSnapshotState(es, cap), 5, now, AsWritten) == Error(ENOENT)
    ensures GetAttr(OneSnapshotState(es, cap), 5, now, Corrected) == Ok(AttrOut(TTL, AttrEntry(es[1], 5)))
  {
    OneSnapshotListed(es, cap);
    var fs := OneSnapshotState(es, cap);
    AsWrittenLocateMisses(fs, 0, es);
    GetAttrUnlocated(fs, 5, now, AsWritten);
    GetAttrReachesEntries(fs, 0, es, 1, now);
  }
}
