/**
 * The FUSE callbacks of `RuplicityFs` in `src/fs/mod.rs`: `getattr`,
 * `readdir`, `lookup` and `readlink`, dispatched on the inode (1 is the mount
 * root, then the snapshot directories, then the entries of built trees).
 *
 * Each handler returns what it did with its reply (see `Fuse.Reply`); `readdir`
 * also returns the state, since listing a snapshot directory builds its tree.
 * The wall clock of `getattr` on the root is a parameter.
 *
 * The entry handlers find a node with `SnapshotTree::find_node`, whose
 * comparator is a parameter `cmp`: the source's program is `cmp == AsWritten`;
 * `Corrected` is the same program with the comparator oriented as
 * `binary_search_by` expects (see `TreeSearch`).
 */
module Handlers {
  import opened Wrappers
  import opened Signatures
  import opened Fuse
  import opened TreeNodes
  import opened Tree
  import opened TreeSearch
  import opened TreeIter
  import opened Listing
  import opened SnapshotInodes
  import opened FsState

  /** One hour: the time-to-live of every attribute and entry reply. */
  const TTL: Timespec := Timespec(60 * 60, 0)

  /** `from_entry_type`: every entry type has a file type. */
  function FromEntryType(et: EntryType): (t: FileType)
    ensures t == Directory <==> et == Dir
    ensures t == Symlink <==> et == SymLink
    ensures t == NamedPipe <==> et == Fifo
    ensures t == RegularFile <==> et.File? || et.HardLink? || et.Unknown?
  {
    match et
    case File => RegularFile
    case HardLink => RegularFile
    case Unknown(_) => RegularFile
    case Dir => Directory
    case SymLink => Symlink
    case Fifo => NamedPipe
  }

  /** The attributes of a directory only the filesystem provides: read-only, owned by root, all times `ts`. */
  function DirAttr(ino: nat, ts: Timespec): (a: FileAttr)
    ensures a.ino == ino && a.kind == Directory && a.perm == 0x16d && a.size == 0
    ensures a.uid == 0 && a.gid == 0 && a.blocks == 0 && a.nlink == 0 && a.rdev == 0 && a.flags == 0
    ensures a.atime == ts && a.mtime == ts && a.ctime == ts && a.crtime == ts
  {
    FileAttr(ino, 0, 0, ts, ts, ts, ts, Directory, 0x16d, 0, 0, 0, 0, 0)
  }

  /** `getattr_root`: the mount root, inode 1, a read-only directory owned by root, at the current time. */
  function AttrRoot(now: Timespec): (a: FileAttr)
    ensures a.ino == 1 && a.kind == Directory && a.perm == 0x16d && a.size == 0
    ensures a.uid == 0 && a.gid == 0 && a.blocks == 0 && a.nlink == 0 && a.rdev == 0 && a.flags == 0
    ensures a.atime == now && a.mtime == now && a.ctime == now && a.crtime == now
  {
    DirAttr(1, now)
  }

  /** `attr_snapshot`: a snapshot directory is a read-only directory owned by root, with all times the snapshot's time. */
  function AttrSnapshot(s: Snapshot, ino: nat): (a: FileAttr)
    ensures a.ino == ino && a.kind == Directory && a.perm == 0x16d && a.size == 0
    ensures a.uid == 0 && a.gid == 0 && a.blocks == 0 && a.nlink == 0 && a.rdev == 0 && a.flags == 0
    ensures a.atime == s.time && a.mtime == s.time && a.ctime == s.time && a.crtime == s.time
  {
    DirAttr(ino, s.time)
  }

  /**
   * `attr_entry`: an entry's attributes, with defaults for what the signature
   * lacks: size 0 without a size hint, permissions 0o777 without a mode (a mode
   * is cut to 16 bits), owner and group 100 without ids; all times are the
   * entry's modification time.
   */
  function AttrEntry(e: Entry, ino: nat): (a: FileAttr)
    ensures a.ino == ino && a.kind == FromEntryType(e.kind)
    ensures a.size == (if e.sizeHint.Some? then e.sizeHint.value.1 else 0)
    ensures a.perm < 0x1_0000 && a.perm == (if e.mode.Some? then e.mode.value % 0x1_0000 else 0x1ff)
    ensures a.uid == e.uid.GetOr(100) && a.gid == e.gid.GetOr(100)
    ensures a.atime == e.mtime && a.mtime == e.mtime && a.ctime == e.mtime && a.crtime == e.mtime
  {
    FileAttr(
      ino,
      match e.sizeHint case Some(sh) => sh.1 case None => 0,
      0,
      e.mtime, e.mtime, e.mtime, e.mtime,
      FromEntryType(e.kind),
      match e.mode case Some(p) => p % 0x1_0000 case None => 0x1ff,
      0,
      e.uid.GetOr(100),
      e.gid.GetOr(100),
      0,
      0)
  }

  /** Where an entry inode leads: no tree owns it, its tree has no such node, or the node found and its slot. */
  datatype Located = NoTree | NoNode | Here(node: NodeEntry, sid: nat)

  /** The common start of the entry handlers: `find_tree_with_ino`, then `find_node` in that tree. */
  function Locate(fs: Fs, ino: nat, cmp: Comparator): (r: Located)
    ensures r.NoTree? <==> FindTreeWithIno(fs, ino).None?
    ensures r.Here? ==> && r.sid < |fs.trees| && fs.trees[r.sid].Some?
                        && FindTreeWithIno(fs, ino) == Some((fs.trees[r.sid].value.tree, r.sid))
                        && FindNode(fs.trees[r.sid].value.tree, ino, cmp) == Some(r.node)
    ensures r.NoNode? ==> FindNode(FindTreeWithIno(fs, ino).value.0, ino, cmp).None?
  {
    match FindTreeWithIno(fs, ino)
    case None => NoTree
    case Some((t, sid)) =>
      match FindNode(t, ino, cmp)
      case None => NoNode
      case Some(n) => Here(n, sid)
  }

  /** The entry a found node stands for (`as_path_entry`): the one at the node's position; `None` past the end. */
  function EntryAt(es: seq<Entry>, n: NodeEntry): (r: Option<Entry>)
    ensures r.Some? <==> n.node.index < |es|
    ensures r.Some? ==> r.value == es[n.node.index]
  {
    if n.node.index < |es| then Some(es[n.node.index]) else None
  }

  /** `getattr_snapshot`; `sid_from_ino` asserts `ino >= 2`. */
  function GetAttrSnapshot(fs: Fs, ino: nat): (r: Reply<AttrOut>)
    requires ino >= 2
    ensures r.Ok? || r.Dropped?
    ensures r.Ok? <==> SnapshotFromSid(fs.backup, SidFromIno(ino)).Some?
    ensures r.Ok? ==> r.value == AttrOut(TTL, AttrSnapshot(fs.backup.snapshots.value[ino - 2], ino))
  {
    match SnapshotFromSid(fs.backup, SidFromIno(ino))
    case None => Dropped
    case Some(s) => Ok(AttrOut(TTL, AttrSnapshot(s, ino)))
  }

  /** `getattr_entry`: ENOENT for an inode no tree holds; the entry's attributes otherwise. */
  function GetAttrEntry(fs: Fs, ino: nat, cmp: Comparator): (r: Reply<AttrOut>)
    ensures r.Error? <==> !Locate(fs, ino, cmp).Here?
    ensures r.Error? ==> r.errno == ENOENT
  {
    match Locate(fs, ino, cmp)
    case NoTree => Error(ENOENT)
    case NoNode => Error(ENOENT)
    case Here(n, sid) =>
      match EntriesOf(fs.backup, sid)
      case None => Dropped
      case Some(es) =>
        match EntryAt(es, n)
        case None => Panicked
        case Some(e) => Ok(AttrOut(TTL, AttrEntry(e, ino)))
  }

  /** `Filesystem::getattr`: inode 1 is the root, then the snapshot directories, then entries. */
  function GetAttr(fs: Fs, ino: nat, now: Timespec, cmp: Comparator): (r: Reply<AttrOut>)
    ensures ino == 1 ==> r == Ok(AttrOut(TTL, DirAttr(1, now)))
    ensures ino != 1 && 2 <= ino < Len(fs.snapshots) + 2 ==> r == GetAttrSnapshot(fs, ino)
    ensures ino != 1 && !(2 <= ino < Len(fs.snapshots) + 2) ==> r == GetAttrEntry(fs, ino, cmp)
  {
    if ino == 1 then Ok(AttrOut(TTL, AttrRoot(now)))
    else if IsSnapshot(fs.snapshots, ino) then GetAttrSnapshot(fs, ino)
    else GetAttrEntry(fs, ino, cmp)
  }

  /** The names of the snapshot directories, one per snapshot in the backup's order. */
  function Names(snaps: seq<Snapshot>): (names: seq<OsName>)
    ensures |names| == |snaps| && forall k :: 0 <= k < |snaps| ==> names[k] == snaps[k].name
  {
    seq(|snaps|, k requires 0 <= k < |snaps| => snaps[k].name)
  }

  /** The dots a first listing call adds, each answer of the buffer ignored. */
  function Start(offset: nat, cap: nat, self: nat, up: nat): (items: seq<DirItem>)
    ensures offset > 0 ==> items == []
    ensures offset == 0 && cap >= 2 ==> items == Dots(self, up)
  {
    if offset == 0 then Add(Add([], cap, Dots(self, up)[0]).0, cap, Dots(self, up)[1]).0 else []
  }

  /**
   * `readdir_root`: the dots, both inode 1, then the snapshots after the
   * skipped ones, with a running counter as inode and offset.
   */
  function ReadDirRoot(backup: Backup, offset: nat, cap: nat): (r: Reply<seq<DirItem>>)
    ensures r.Ok? || r.Dropped?
    ensures r.Dropped? <==> backup.snapshots.None?
  {
    match backup.snapshots
    case None => Dropped
    case Some(snaps) =>
      var skip := Resume(offset);
      var names := Names(snaps);
      Ok(RootLoop(Start(offset, cap, 1, 1), names[Min(skip, |names|)..], skip + 1, cap))
  }

  /** What the listing loop sees for the k-th yielded child: its name, a skip, or a panic on a missing component. */
  function CandOf(p: PathEntry, k: nat): (c: Cand)
    ensures c.Item? <==> PathName(p).Named?
    ensures c.PathPanic? <==> PathName(p).NoComponent?
    ensures c.Item? ==> c.item == DirItem(p.node.ino, k + 2, FromEntryType(p.entry.kind), PathName(p).name)
  {
    match PathName(p)
    case Named(name) => Item(DirItem(p.node.ino, k + 2, FromEntryType(p.entry.kind), name))
    case Unnamed => Skip
    case NoComponent => PathPanic
  }

  /** The candidates of a walk: one per yielded child, then a panic when the iterator crashed. */
  function Cands(w: (seq<PathEntry>, bool)): (cs: seq<Cand>)
    ensures |cs| == |w.0| + (if w.1 then 1 else 0)
    ensures forall k :: 0 <= k < |w.0| ==> cs[k] == CandOf(w.0[k], k)
    ensures w.1 ==> cs[|w.0|] == IterPanic
  {
    seq(|w.0|, k requires 0 <= k < |w.0| => CandOf(w.0[k], k)) + (if w.1 then [IterPanic] else [])
  }

  /** The listing loop of `readdir_snapshot` and `readdir_entry` over a children iterator. */
  function ListChildren(it: Option<ChildrenIter>, offset: nat, cap: nat, self: nat, up: nat): (r: Reply<seq<DirItem>>)
    ensures r.Ok? || r.Panicked?
    ensures it.None? ==> r.Panicked?
    ensures it.Some? ==> (r.Ok? <==> Page(Cands(Walk(it.value)), offset, cap, self, up).Some?)
    ensures r.Ok? ==> r.value == Page(Cands(Walk(it.value)), offset, cap, self, up).value
  {
    match it
    case None => Panicked
    case Some(i) =>
      match Page(Cands(Walk(i)), offset, cap, self, up)
      case None => Panicked
      case Some(items) => Ok(items)
  }

  /**
   * `readdir_snapshot`: "." is the snapshot directory and ".." the root; the
   * snapshot's tree is fetched (built on first use) and its top-level entries
   * listed.
   */
  function ReadDirSnapshot(fs: Fs, ino: nat, offset: nat, cap: nat): (r: (Fs, Reply<seq<DirItem>>))
    requires ino >= 2
    ensures r.0 == TreeForSnapshot(fs, SidFromIno(ino)).0
    ensures !r.1.Error?
  {
    var (fs', fetch) := TreeForSnapshot(fs, SidFromIno(ino));
    match fetch
    case OutOfBounds => (fs', Panicked)
    case Failed => (fs', Dropped)
    case Fetched(t, s) =>
      match s.entries
      case None => (fs', Dropped)
      case Some(es) => (fs', ListChildren(TreeChildren(t, es), offset, cap, ino, 1))
  }

  /** `readdir_entry`: ENOENT for an inode no tree holds; otherwise "." is the node, ".." the node above it, then its children. */
  function ReadDirEntry(fs: Fs, ino: nat, offset: nat, cap: nat, cmp: Comparator): (r: Reply<seq<DirItem>>)
    ensures r.Error? <==> !Locate(fs, ino, cmp).Here?
    ensures r.Error? ==> r.errno == ENOENT
  {
    match Locate(fs, ino, cmp)
    case NoTree => Error(ENOENT)
    case NoNode => Error(ENOENT)
    case Here(n, sid) =>
      match EntriesOf(fs.backup, sid)
      case None => Dropped
      case Some(es) => ListChildren(NodeChildren(n, es), offset, cap, ino, n.parent)
  }

  /** `Filesystem::readdir`: only listing a snapshot directory changes the state. */
  function ReadDir(fs: Fs, ino: nat, offset: nat, cap: nat, cmp: Comparator): (r: (Fs, Reply<seq<DirItem>>))
    ensures ino == 1 ==> r == (fs, ReadDirRoot(fs.backup, offset, cap))
    ensures ino != 1 && 2 <= ino < Len(fs.snapshots) + 2 ==> r == ReadDirSnapshot(fs, ino, offset, cap)
    ensures ino != 1 && !(2 <= ino < Len(fs.snapshots) + 2) ==> r == (fs, ReadDirEntry(fs, ino, offset, cap, cmp))
  {
    if ino == 1 then (fs, ReadDirRoot(fs.backup, offset, cap))
    else if IsSnapshot(fs.snapshots, ino) then ReadDirSnapshot(fs, ino, offset, cap)
    else (fs, ReadDirEntry(fs, ino, offset, cap, cmp))
  }

  /**
   * `lookup_snapshot`: a panic for a name that is not text (`sid_from_path`
   * unwraps `to_str`), ENOENT for a name that is no snapshot directory's, its
   * attributes otherwise.
   */
  function LookupSnapshot(fs: Fs, name: OsName): (r: Reply<EntryOut>)
    ensures r.Panicked? <==> !Utf8(name)
    ensures r.Error? <==> SidFromPath(fs.snapshots, name).NoSid?
    ensures r.Error? ==> r.errno == ENOENT
    ensures r.Ok? ==> && SidFromPath(fs.snapshots, name).Sid?
                      && var sid := SidFromPath(fs.snapshots, name).sid;
                         && SnapshotFromSid(fs.backup, sid).Some?
                         && r.value == EntryOut(TTL, AttrSnapshot(SnapshotFromSid(fs.backup, sid).value, InoFromSid(sid)), 0)
  {
    match SidFromPath(fs.snapshots, name)
    case NotText => Panicked
    case NoSid => Error(ENOENT)
    case Sid(sid) =>
      match SnapshotFromSid(fs.backup, sid)
      case None => Dropped
      case Some(s) => Ok(EntryOut(TTL, AttrSnapshot(s, InoFromSid(sid)), 0))
  }

  /** The result of `Iterator::find` over the children for a name. */
  datatype Search = Child(entry: PathEntry) | Missing | SearchPanic

  /**
   * Finds the first yielded child whose name is `name`, asking each child for
   * its name in turn; a missing component or a crash of the iterator panics.
   */
  function FindChild(w: seq<PathEntry>, crashed: bool, name: OsName): (r: Search)
    ensures r.Child? ==> exists k :: && 0 <= k < |w| && w[k] == r.entry && PathName(w[k]) == Named(name)
                                     && forall j :: 0 <= j < k ==> PathName(w[j]) != Named(name)
    ensures r.Missing? ==> !crashed && forall k :: 0 <= k < |w| ==> PathName(w[k]) != Named(name) && !PathName(w[k]).NoComponent?
    ensures (forall k :: 0 <= k < |w| ==> !PathName(w[k]).NoComponent?) && !crashed ==> !r.SearchPanic?
    decreases |w|
  {
    if |w| == 0 then (if crashed then SearchPanic else Missing)
    else match PathName(w[0])
      case NoComponent => SearchPanic
      case Named(n) =>
        if n == name then Child(w[0])
        else
          var r := FindChild(w[1..], crashed, name);
          FirstChildLater(w, name, r);
          r
      case Unnamed =>
        var r := FindChild(w[1..], crashed, name);
        FirstChildLater(w, name, r);
        r
  }

  /** A child found past the head of `w`, whose head is not named `name`, is also the first named so in `w`. */
  lemma FirstChildLater(w: seq<PathEntry>, name: OsName, r: Search)
    requires |w| > 0 && PathName(w[0]) != Named(name)
    requires r.Child? ==> exists k :: && 0 <= k < |w[1..]| && w[1..][k] == r.entry && PathName(w[1..][k]) == Named(name)
                                      && forall j :: 0 <= j < k ==> PathName(w[1..][j]) != Named(name)
    ensures r.Child? ==> exists k :: && 0 <= k < |w| && w[k] == r.entry && PathName(w[k]) == Named(name)
                                     && forall j :: 0 <= j < k ==> PathName(w[j]) != Named(name)
  {
    if r.Child? {
      var k :| && 0 <= k < |w[1..]| && w[1..][k] == r.entry && PathName(w[1..][k]) == Named(name)
               && forall j :: 0 <= j < k ==> PathName(w[1..][j]) != Named(name);
      forall j | 0 <= j < k + 1
        ensures PathName(w[j]) != Named(name)
      {
        if j > 0 { assert w[j] == w[1..][j - 1]; }
      }
      assert w[k + 1] == w[1..][k];
    }
  }

  /** `lookup_entry`: ENOENT for a parent no tree holds or a name none of its children has. */
  function LookupEntry(fs: Fs, parent: nat, name: OsName, cmp: Comparator): (r: Reply<EntryOut>)
    ensures !Locate(fs, parent, cmp).Here? ==> r == Error(ENOENT)
    ensures r.Error? ==> r.errno == ENOENT
  {
    match Locate(fs, parent, cmp)
    case NoTree => Error(ENOENT)
    case NoNode => Error(ENOENT)
    case Here(n, sid) =>
      match EntriesOf(fs.backup, sid)
      case None => Dropped
      case Some(es) =>
        match NodeChildren(n, es)
        case None => Panicked
        case Some(it) =>
          var w := Walk(it);
          match FindChild(w.0, w.1, name)
          case SearchPanic => Panicked
          case Missing => Error(ENOENT)
          case Child(p) => Ok(EntryOut(TTL, AttrEntry(p.entry, p.node.ino), 0))
  }

  /** `Filesystem::lookup`: names under the root are snapshot directories, all others entries. */
  function Lookup(fs: Fs, parent: nat, name: OsName, cmp: Comparator): (r: Reply<EntryOut>)
    ensures parent == 1 ==> r == LookupSnapshot(fs, name)
    ensures parent != 1 ==> r == LookupEntry(fs, parent, name, cmp)
  {
    if parent == 1 then LookupSnapshot(fs, name) else LookupEntry(fs, parent, name, cmp)
  }

  /** `readlink_entry`: a link's target bytes, ENOSYS for an entry that is no link, ENOENT for an unknown inode. */
  function ReadLink(fs: Fs, ino: nat, cmp: Comparator): (r: Reply<seq<byte>>)
    ensures r.Error? ==> r.errno == ENOENT || r.errno == ENOSYS
    ensures !Locate(fs, ino, cmp).Here? ==> r == Error(ENOENT)
    ensures r.Ok? ==> && Locate(fs, ino, cmp).Here?
                      && var es := EntriesOf(fs.backup, Locate(fs, ino, cmp).sid);
                         && es.Some?
                         && EntryAt(es.value, Locate(fs, ino, cmp).node).Some?
                         && EntryAt(es.value, Locate(fs, ino, cmp).node).value.linkTarget == Some(r.value)
  {
    match Locate(fs, ino, cmp)
    case NoTree => Error(ENOENT)
    case NoNode => Error(ENOENT)
    case Here(n, sid) =>
      match EntriesOf(fs.backup, sid)
      case None => Dropped
      case Some(es) =>
        match EntryAt(es, n)
        case None => Panicked
        case Some(e) =>
          match e.linkTarget
          case Some(bytes) => Ok(bytes)
          case None => Error(ENOSYS)
  }
}
