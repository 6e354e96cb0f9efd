/**
 * The state of `RuplicityFs` in `src/fs/mod.rs`: the backup, the snapshot
 * directories' names and inodes, one tree slot per snapshot directory, and the
 * last inode handed out. Trees are built lazily, on the first listing of their
 * snapshot directory, and take the inodes after `lastIno`.
 *
 * `tree.rs` builds a tree from an entry list and a first inode only, and has no
 * `snapshot_ino`; the state keeps the snapshot directory's inode beside each
 * tree in its slot. The tree's root takes inode `lastIno + 1`, which is never
 * handed out: the children start at `lastIno + 2`.
 */
module FsState {
  import opened Wrappers
  import opened Signatures
  import opened TreeNodes
  import opened Tree
  import opened SnapshotInodes

  /** A built tree and the inode of the snapshot directory it belongs to. */
  datatype Slot = Slot(snapshotIno: nat, tree: SnapshotTree)

  datatype Fs = Fs(backup: Backup, snapshots: SnapshotsInos, trees: seq<Option<Slot>>, lastIno: nat)

  /** The result of `tree_for_snapshot`: the tree and its snapshot, an I/O error, or an out-of-bounds panic. */
  datatype Fetch = Fetched(tree: SnapshotTree, snapshot: Snapshot) | Failed | OutOfBounds

  /**
   * `RuplicityFs::new`: fails when the snapshots cannot be listed; otherwise
   * one empty slot per snapshot directory, and no inode handed out past the
   * snapshot directories'.
   */
  function New(backup: Backup): (r: Option<Fs>)
    ensures r.None? <==> backup.snapshots.None?
    ensures r.Some? ==> |r.value.trees| == Len(r.value.snapshots)
    ensures r.Some? ==> forall sid :: 0 <= sid < |r.value.trees| ==> r.value.trees[sid].None?
    ensures r.Some? ==> r.value.lastIno == Len(r.value.snapshots) + 2
  {
    match backup.snapshots
    case None => None
    case Some(snaps) =>
      var spaths := SnapshotInodes.New(snaps);
      Some(Fs(backup, spaths, seq(Len(spaths), _ => None), SnapshotInodes.LastIno(spaths)))
  }

  /** `snapshot_from_sid`: the snapshot at position `sid`, failing when the list cannot be read or is shorter. */
  function SnapshotFromSid(backup: Backup, sid: nat): (r: Option<Snapshot>)
    ensures r.Some? <==> backup.snapshots.Some? && sid < |backup.snapshots.value|
    ensures r.Some? ==> r.value == backup.snapshots.value[sid]
  {
    match backup.snapshots
    case None => None
    case Some(snaps) => if sid < |snaps| then Some(snaps[sid]) else None
  }

  /** The entries of snapshot `sid`, when both the snapshot and its signature can be read. */
  function EntriesOf(backup: Backup, sid: nat): (r: Option<seq<Entry>>)
    ensures r.Some? <==> SnapshotFromSid(backup, sid).Some? && SnapshotFromSid(backup, sid).value.entries.Some?
    ensures r.Some? ==> r.value == backup.snapshots.value[sid].entries.value
  {
    match SnapshotFromSid(backup, sid)
    case None => None
    case Some(s) => s.entries
  }

  /** The early return of `tree_for_snapshot` when slot `sid` already holds a tree. */
  function Memo(fs: Fs, sid: nat): (r: Fetch)
    requires sid < |fs.trees| && fs.trees[sid].Some?
    ensures r.Fetched? <==> SnapshotFromSid(fs.backup, sid).Some?
    ensures r.Fetched? ==> r.tree == fs.trees[sid].value.tree
  {
    match SnapshotFromSid(fs.backup, sid)
    case Some(s) => Fetched(fs.trees[sid].value.tree, s)
    case None => Failed
  }

  /** The inode range `SnapshotTree::inodes` reports for the tree of a slot. */
  function Range(slot: Slot): Option<(nat, nat)>
  {
    TreeInodes(slot.tree)
  }

  /**
   * `tree_for_snapshot`: the tree of snapshot `sid`, built on first use from
   * the snapshot's entries with its first inode after `lastIno`, which then
   * moves to the new tree's last inode (when it has children). Indexing the
   * slots past their end panics; a failed read leaves the state as it was.
   */
  function TreeForSnapshot(fs: Fs, sid: nat): (r: (Fs, Fetch))
    ensures r.1.OutOfBounds? <==> sid >= |fs.trees|
    ensures r.0.backup == fs.backup && r.0.snapshots == fs.snapshots && |r.0.trees| == |fs.trees|
    ensures forall k :: 0 <= k < |fs.trees| && k != sid ==> r.0.trees[k] == fs.trees[k]
    ensures fs.lastIno <= r.0.lastIno
    ensures !r.1.Fetched? ==> r.0 == fs
    ensures sid < |fs.trees| && fs.trees[sid].Some? ==> r.0 == fs
    ensures r.1.Fetched? ==> && r.0.trees[sid].Some? && r.0.trees[sid].value.tree == r.1.tree
                             && SnapshotFromSid(fs.backup, sid) == Some(r.1.snapshot)
  {
    if sid >= |fs.trees| then (fs, OutOfBounds)
    else if fs.trees[sid].Some? then (fs, Memo(fs, sid))
    else
      match SnapshotFromSid(fs.backup, sid)
      case None => (fs, Failed)
      case Some(s) =>
        match s.entries
        case None => (fs, Failed)
        case Some(es) =>
          var t := NewTree(es, fs.lastIno + 1);
          var last := match TreeInodes(t) case Some(span) => span.1 case None => fs.lastIno;
          assert TreeInodes(t).Some? ==> fs.lastIno < TreeInodes(t).value.1 by {
            TreeInodesSpan(es, fs.lastIno + 1);
          }
          var built := fs.(trees := fs.trees[sid := Some(Slot(InoFromSid(sid), t))], lastIno := last);
          (built, Memo(built, sid))
  }

  /** A slot holds the tree built from its snapshot's entries, above the snapshot inodes and up to `lastIno`. */
  ghost predicate SlotBuilt(snaps: seq<Snapshot>, sid: nat, slot: Slot, floor: nat, lastIno: nat)
  {
    && sid < |snaps|
    && snaps[sid].entries.Some?
    && slot.snapshotIno == InoFromSid(sid)
    && slot.tree == NewTree(snaps[sid].entries.value, slot.tree.root.ino)
    && floor < slot.tree.root.ino
    && (Range(slot).Some? ==> Range(slot).value.1 <= lastIno)
  }

  /** The inode ranges of two slots do not meet. */
  predicate Apart(x: Slot, y: Slot)
  {
    Range(x).None? || Range(y).None? || Range(x).value.1 < Range(y).value.0 || Range(y).value.1 < Range(x).value.0
  }

  /**
   * The state invariant: the backup can be listed and the snapshot inodes come
   * from it, there is one slot per snapshot directory, `lastIno` is past the
   * snapshot inodes, each filled slot holds its snapshot's tree, and the trees'
   * inode ranges are pairwise apart.
   */
  ghost predicate Valid(fs: Fs)
  {
    && fs.backup.snapshots.Some?
    && fs.snapshots == SnapshotInodes.New(fs.backup.snapshots.value)
    && |fs.trees| == Len(fs.snapshots)
    && SnapshotInodes.LastIno(fs.snapshots) <= fs.lastIno
    && (forall sid :: 0 <= sid < |fs.trees| && fs.trees[sid].Some? ==>
          SlotBuilt(fs.backup.snapshots.value, sid, fs.trees[sid].value, SnapshotInodes.LastIno(fs.snapshots), fs.lastIno))
    && (forall a, b :: 0 <= a < b < |fs.trees| && fs.trees[a].Some? && fs.trees[b].Some? ==>
          Apart(fs.trees[a].value, fs.trees[b].value))
  }

  /** A freshly opened filesystem satisfies the invariant. */
  lemma NewValid(backup: Backup)
    requires backup.snapshots.Some?
    ensures New(backup).Some? && Valid(New(backup).value)
  {
  }

  /**
   * Building a tree allocates new inodes: the new tree's root takes
   * `lastIno + 1`, its other nodes the inodes after it, and `lastIno` moves to
   * the tree's last node. It stays put for a tree with the root alone, so the
   * next tree's root takes the same inode; the roots' inodes are never owned.
   */
  lemma TreeForSnapshotAllocates(fs: Fs, sid: nat)
    requires sid < |fs.trees| && fs.trees[sid].None?
    requires TreeForSnapshot(fs, sid).1.Fetched?
    ensures var t := TreeForSnapshot(fs, sid).1.tree;
            && t.root.ino == fs.lastIno + 1
            && TreeForSnapshot(fs, sid).0.lastIno == (if NodeCount(t) == 1 then fs.lastIno else fs.lastIno + NodeCount(t))
            && (Range(Slot(InoFromSid(sid), t)).Some? ==>
                  Range(Slot(InoFromSid(sid), t)).value == (fs.lastIno + 2, fs.lastIno + NodeCount(t)))
  {
    var es := fs.backup.snapshots.value[sid].entries.value;
    assert TreeForSnapshot(fs, sid).1.tree == NewTree(es, fs.lastIno + 1);
    TreeInodesSpan(es, fs.lastIno + 1);
  }

  /**
   * Memoisation: once a call has fetched the tree of `sid`, calling again
   * returns the same tree and snapshot and changes nothing.
   */
  lemma TreeForSnapshotMemo(fs: Fs, sid: nat)
    requires TreeForSnapshot(fs, sid).1.Fetched?
    ensures TreeForSnapshot(TreeForSnapshot(fs, sid).0, sid) == TreeForSnapshot(fs, sid)
  {
  }

  /** Under the invariant, fetching a snapshot directory's tree fails only when its signature cannot be read. */
  lemma TreeForSnapshotOutcome(fs: Fs, sid: nat)
    requires Valid(fs) && sid < |fs.trees|
    ensures !TreeForSnapshot(fs, sid).1.OutOfBounds?
    ensures TreeForSnapshot(fs, sid).1.Failed? <==> EntriesOf(fs.backup, sid).None?
  {
    LenOfNew(fs.backup.snapshots.value);
  }

  /**
   * Filling an empty slot with a tree whose range lies above every range so
   * far keeps the ranges pairwise apart.
   */
  lemma ApartAfterFill(trees: seq<Option<Slot>>, sid: nat, made: Slot, bound: nat)
    requires sid < |trees| && trees[sid].None?
    requires forall a, b :: 0 <= a < b < |trees| && trees[a].Some? && trees[b].Some? ==> Apart(trees[a].value, trees[b].value)
    requires forall k :: 0 <= k < |trees| && trees[k].Some? && Range(trees[k].value).Some? ==> Range(trees[k].value).value.1 <= bound
    requires Range(made).Some? ==> bound < Range(made).value.0
    ensures var filled := trees[sid := Some(made)];
            forall a, b :: 0 <= a < b < |filled| && filled[a].Some? && filled[b].Some? ==> Apart(filled[a].value, filled[b].value)
  {
    var filled := trees[sid := Some(made)];
    forall a, b | 0 <= a < b < |filled| && filled[a].Some? && filled[b].Some?
      ensures Apart(filled[a].value, filled[b].value)
    {
      if a != sid && b != sid {
        assert filled[a] == trees[a] && filled[b] == trees[b];
      }
    }
  }

  /**
   * The slot a first call fills: it holds the snapshot's tree, its range lies
   * above the previous `lastIno`, and nothing else but `lastIno` changes.
   */
  lemma FilledSlot(fs: Fs, sid: nat)
    requires Valid(fs) && sid < |fs.trees| && fs.trees[sid].None? && TreeForSnapshot(fs, sid).1.Fetched?
    ensures var r := TreeForSnapshot(fs, sid).0;
            && r.trees[sid].Some?
            && r.trees == fs.trees[sid := r.trees[sid]]
            && SlotBuilt(fs.backup.snapshots.value, sid, r.trees[sid].value, SnapshotInodes.LastIno(fs.snapshots), r.lastIno)
            && (Range(r.trees[sid].value).Some? ==> fs.lastIno < Range(r.trees[sid].value).value.0)
  {
    LenOfNew(fs.backup.snapshots.value);
    TreeInodesSpan(fs.backup.snapshots.value[sid].entries.value, fs.lastIno + 1);
  }

  /** `tree_for_snapshot` keeps the invariant. */
  lemma TreeForSnapshotValid(fs: Fs, sid: nat)
    requires Valid(fs)
    ensures Valid(TreeForSnapshot(fs, sid).0)
  {
    var r := TreeForSnapshot(fs, sid);
    if sid < |fs.trees| && fs.trees[sid].None? && r.1.Fetched? {
      var snaps := fs.backup.snapshots.value;
      var floor := SnapshotInodes.LastIno(fs.snapshots);
      FilledSlot(fs, sid);
      forall k | 0 <= k < |r.0.trees| && r.0.trees[k].Some?
        ensures SlotBuilt(snaps, k, r.0.trees[k].value, floor, r.0.lastIno)
      {
        if k != sid {
          assert SlotBuilt(snaps, k, fs.trees[k].value, floor, fs.lastIno);
        }
      }
      forall k | 0 <= k < |fs.trees| && fs.trees[k].Some? && Range(fs.trees[k].value).Some?
        ensures Range(fs.trees[k].value).value.1 <= fs.lastIno
      {
        assert SlotBuilt(snaps, k, fs.trees[k].value, floor, fs.lastIno);
      }
      ApartAfterFill(fs.trees, sid, r.0.trees[sid].value, fs.lastIno);
    }
  }

  /** The slot owns the inode: it is the slot's snapshot directory, or lies in its tree's range. */
  predicate Owns(slot: Slot, ino: nat)
  {
    slot.snapshotIno == ino || (Range(slot).Some? && Range(slot).value.0 <= ino <= Range(slot).value.1)
  }

  /** The first filled slot from position `from` on that owns the inode. */
  function FindSlot(trees: seq<Option<Slot>>, ino: nat, from: nat): (r: Option<nat>)
    requires from <= |trees|
    ensures r.Some? ==> from <= r.value < |trees| && trees[r.value].Some? && Owns(trees[r.value].value, ino)
    ensures r.Some? ==> forall j :: from <= j < r.value && trees[j].Some? ==> !Owns(trees[j].value, ino)
    ensures r.None? ==> forall j :: from <= j < |trees| && trees[j].Some? ==> !Owns(trees[j].value, ino)
    decreases |trees| - from
  {
    if from == |trees| then None
    else if trees[from].Some? && Owns(trees[from].value, ino) then Some(from)
    else FindSlot(trees, ino, from + 1)
  }

  /** `find_tree_with_ino`: the tree of the first slot owning the inode, and the slot's position. */
  function FindTreeWithIno(fs: Fs, ino: nat): (r: Option<(SnapshotTree, nat)>)
    ensures r.Some? ==> r.value.1 < |fs.trees| && fs.trees[r.value.1].Some?
    ensures r.Some? ==> r.value.0 == fs.trees[r.value.1].value.tree && Owns(fs.trees[r.value.1].value, ino)
    ensures r.None? <==> forall j :: 0 <= j < |fs.trees| && fs.trees[j].Some? ==> !Owns(fs.trees[j].value, ino)
  {
    match FindSlot(fs.trees, ino, 0)
    case Some(k) => Some((fs.trees[k].value.tree, k))
    case None => None
  }

  /**
   * Under the invariant at most one slot owns an inode, so the first owner
   * `find_tree_with_ino` returns is the only one.
   */
  lemma FindTreeOwner(fs: Fs, ino: nat, k: nat)
    requires Valid(fs) && k < |fs.trees| && fs.trees[k].Some? && Owns(fs.trees[k].value, ino)
    ensures FindTreeWithIno(fs, ino) == Some((fs.trees[k].value.tree, k))
  {
    var snaps := fs.backup.snapshots.value;
    var floor := SnapshotInodes.LastIno(fs.snapshots);
    var j := FindSlot(fs.trees, ino, 0).value;
    if j != k {
      assert SlotBuilt(snaps, j, fs.trees[j].value, floor, fs.lastIno);
      assert SlotBuilt(snaps, k, fs.trees[k].value, floor, fs.lastIno);
      TreeInodesSpan(snaps[j].entries.value, fs.trees[j].value.tree.root.ino);
      TreeInodesSpan(snaps[k].entries.value, fs.trees[k].value.tree.root.ino);
      assert false;
    }
  }

  /** Under the invariant every inode a tree range owns lies above the snapshot directories' inodes. */
  lemma RangeAboveSnapshots(fs: Fs, k: nat)
    requires Valid(fs) && k < |fs.trees| && fs.trees[k].Some?
    ensures fs.trees[k].value.tree.root.ino > Len(fs.snapshots) + 2
    ensures Range(fs.trees[k].value).Some? ==>
              Len(fs.snapshots) + 2 < Range(fs.trees[k].value).value.0 <= Range(fs.trees[k].value).value.1 <= fs.lastIno
  {
    var slot := fs.trees[k].value;
    assert SlotBuilt(fs.backup.snapshots.value, k, slot, SnapshotInodes.LastIno(fs.snapshots), fs.lastIno);
    TreeInodesSpan(fs.backup.snapshots.value[k].entries.value, slot.tree.root.ino);
  }
}
