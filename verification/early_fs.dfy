/**
 * The earlier `RuplicityFs` of `src/fs.rs`: only the mount root and the
 * snapshot directories, without trees. Its state is the backup and the map
 * from directory names to snapshot positions; its replies carry the
 * snapshot's time (or the current time for the root) as time-to-live.
 */
module EarlyFs {
  import opened Wrappers
  import opened Signatures
  import opened Fuse
  import opened Listing
  import SnapshotInodes
  import opened Handlers
  import opened TreeSearch

  datatype EarlyFs = EarlyFs(backup: Backup, paths: map<OsName, nat>)

  /** `RuplicityFs::new`: the name map is filled as `SnapshotsInos::new` fills it. */
  function New(backup: Backup): (r: Option<EarlyFs>)
    ensures r.None? <==> backup.snapshots.None?
    ensures r.Some? ==> r.value.backup == backup
    ensures r.Some? ==> r.value.paths == SnapshotInodes.New(backup.snapshots.value).paths
  {
    match backup.snapshots
    case None => None
    case Some(snaps) => Some(EarlyFs(backup, SnapshotInodes.NamePaths(snaps)))
  }

  /** `is_snapshot`: inodes 2 up to the number of names plus 2, exclusive. */
  function IsSnapshot(fs: EarlyFs, ino: nat): (b: bool)
  {
    ino >= 2 && ino < |fs.paths| + 2
  }

  /** The range test of the earlier dispatcher agrees with `SnapshotsInos::is_snapshot` over the same backup. */
  lemma IsSnapshotAgrees(backup: Backup, ino: nat)
    requires backup.snapshots.Some?
    ensures IsSnapshot(New(backup).value, ino) == SnapshotInodes.IsSnapshot(SnapshotInodes.New(backup.snapshots.value), ino)
    ensures IsSnapshot(New(backup).value, ino) <==> 2 <= ino < SnapshotInodes.Len(SnapshotInodes.New(backup.snapshots.value)) + 2
  {
  }

  /**
   * `getattr_snapshot`: the snapshot at position `ino - 2`, with its time as
   * time-to-live; ENOSYS past the end of the list, no reply when the list
   * cannot be read.
   */
  function GetAttrSnapshot(fs: EarlyFs, ino: nat): (r: Reply<AttrOut>)
    requires ino >= 2
    ensures r.Dropped? <==> fs.backup.snapshots.None?
    ensures r.Error? <==> fs.backup.snapshots.Some? && ino - 2 >= |fs.backup.snapshots.value|
    ensures r.Error? ==> r.errno == ENOSYS
    ensures r.Ok? ==> var s := fs.backup.snapshots.value[ino - 2];
                      r.value == AttrOut(s.time, DirAttr(ino, s.time))
  {
    match fs.backup.snapshots
    case None => Dropped
    case Some(snaps) =>
      if ino - 2 < |snaps| then Ok(AttrOut(snaps[ino - 2].time, AttrSnapshot(snaps[ino - 2], ino)))
      else Error(ENOSYS)
  }

  /** `Filesystem::getattr`: the root at the current time, the snapshot directories, and ENOSYS for anything else. */
  function GetAttr(fs: EarlyFs, ino: nat, now: Timespec): (r: Reply<AttrOut>)
    ensures ino == 1 ==> r == Ok(AttrOut(now, DirAttr(1, now)))
    ensures ino != 1 && !IsSnapshot(fs, ino) ==> r == Error(ENOSYS)
  {
    if ino == 1 then Ok(AttrOut(now, AttrRoot(now)))
    else if IsSnapshot(fs, ino) then GetAttrSnapshot(fs, ino)
    else Error(ENOSYS)
  }

  /**
   * On a filesystem opened from its backup, `getattr` answers exactly the
   * root and the snapshot directories, each snapshot directory with its
   * snapshot's time; every other inode gets ENOSYS.
   */
  lemma GetAttrOpened(backup: Backup, ino: nat, now: Timespec)
    requires backup.snapshots.Some?
    ensures GetAttr(New(backup).value, ino, now).Ok? <==> ino == 1 || IsSnapshot(New(backup).value, ino)
    ensures !GetAttr(New(backup).value, ino, now).Ok? ==> GetAttr(New(backup).value, ino, now) == Error(ENOSYS)
    ensures ino != 1 && IsSnapshot(New(backup).value, ino) ==>
              && ino - 2 < |backup.snapshots.value|
              && GetAttr(New(backup).value, ino, now)
                   == Ok(AttrOut(backup.snapshots.value[ino - 2].time, DirAttr(ino, backup.snapshots.value[ino - 2].time)))
  {
    SnapshotInodes.LenOfNew(backup.snapshots.value);
  }

  /** `Filesystem::readdir`: only the root can be listed, the same way the later version lists it. */
  function ReadDir(fs: EarlyFs, ino: nat, offset: nat, cap: nat): (r: Reply<seq<DirItem>>)
    ensures ino != 1 ==> r == Error(ENOENT)
    ensures ino == 1 ==> r.Ok? || r.Dropped?
  {
    if ino == 1 then ReadDirRoot(fs.backup, offset, cap) else Error(ENOENT)
  }

  /**
   * `lookup_snapshot`: a panic for a name that is not text (`to_str().unwrap()`),
   * ENOENT for an unknown name (or a position past the end of the list);
   * otherwise the directory of that snapshot, inode `sid + 2`, with the
   * snapshot's time as time-to-live.
   */
  function LookupSnapshot(fs: EarlyFs, name: OsName): (r: Reply<EntryOut>)
    ensures r.Panicked? <==> !Utf8(name)
    ensures Utf8(name) && name !in fs.paths ==> r == Error(ENOENT)
    ensures r.Ok? ==> && name in fs.paths && fs.backup.snapshots.Some?
                      && fs.paths[name] < |fs.backup.snapshots.value|
                      && var s := fs.backup.snapshots.value[fs.paths[name]];
                         r.value == EntryOut(s.time, DirAttr(fs.paths[name] + 2, s.time), 0)
  {
    if !Utf8(name) then Panicked
    else if name !in fs.paths then Error(ENOENT)
    else
      var sid := fs.paths[name];
      match fs.backup.snapshots
      case None => Dropped
      case Some(snaps) =>
        if sid < |snaps| then Ok(EntryOut(snaps[sid].time, AttrSnapshot(snaps[sid], sid + 2), 0))
        else Error(ENOENT)
  }

  /** `Filesystem::lookup`: only names under the root are looked up. */
  function Lookup(fs: EarlyFs, parent: nat, name: OsName): (r: Reply<EntryOut>)
    ensures parent != 1 ==> r == Error(ENOENT)
  {
    if parent == 1 then LookupSnapshot(fs, name) else Error(ENOENT)
  }

  /**
   * On a filesystem opened from its backup, looking a name up under the root
   * finds the last snapshot with that name, as the later version does: the
   * same reply but for the time-to-live. An unknown name gets ENOENT, and a
   * name that is not text panics in both.
   */
  lemma LookupAgrees(backup: Backup, name: OsName)
    requires backup.snapshots.Some?
    ensures var early := Lookup(New(backup).value, 1, name);
            var later := Handlers.Lookup(FsState.New(backup).value, 1, name, AsWritten);
            && (early.Panicked? <==> later.Panicked?)
            && (early == Error(ENOENT) <==> later == Error(ENOENT))
            && (early.Ok? <==> later.Ok?)
            && (early.Ok? ==> early.value.attr == later.value.attr && early.value.generation == later.value.generation)
            && (early.Ok? ==> early.value.ttl == early.value.attr.mtime && later.value.ttl == TTL)
    ensures Utf8(name) ==>
              (Lookup(New(backup).value, 1, name).Ok? <==>
                 exists k :: 0 <= k < |backup.snapshots.value| && backup.snapshots.value[k].name == name)
  {
    if Utf8(name) {
      SnapshotInodes.SidFromPathOfNew(backup.snapshots.value, name);
    }
  }

  /**
   * The root listing of the earlier version is the later version's, item for
   * item: the two `readdir_root`s are the same code, so both dispatchers reach
   * the one definition `Handlers.ReadDirRoot`.
   */
  lemma ReadDirAgrees(backup: Backup, offset: nat, cap: nat)
    requires backup.snapshots.Some?
    ensures ReadDir(New(backup).value, 1, offset, cap) == Handlers.ReadDir(FsState.New(backup).value, 1, offset, cap, AsWritten).1
  {
  }
}
