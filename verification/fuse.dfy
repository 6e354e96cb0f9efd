/**
 * The FUSE vocabulary the filesystem answers in: file types, attributes,
 * replies, and the bounded directory-listing buffer.
 */
module Fuse {
  import opened Signatures

  /** Linux errno values. */
  const ENOENT: int := 2
  const ENOSYS: int := 38

  datatype FileType =
    | NamedPipe
    | CharDevice
    | BlockDevice
    | Directory
    | RegularFile
    | Symlink
    | Socket

  datatype FileAttr = FileAttr(
    ino: nat,
    size: nat,
    blocks: nat,
    atime: Timespec,
    mtime: Timespec,
    ctime: Timespec,
    crtime: Timespec,
    kind: FileType,
    perm: nat,
    nlink: nat,
    uid: nat,
    gid: nat,
    rdev: nat,
    flags: nat)

  /**
   * What a callback did with its reply object: answered it, answered with an
   * errno, returned without answering (`try_or_log!` on an error), or panicked
   * (an `unwrap` on `None`).
   */
  datatype Reply<+T> = Ok(value: T) | Error(errno: int) | Dropped | Panicked

  /** The payload of `ReplyAttr::attr`. */
  datatype AttrOut = AttrOut(ttl: Timespec, attr: FileAttr)

  /** The payload of `ReplyEntry::entry`. */
  datatype EntryOut = EntryOut(ttl: Timespec, attr: FileAttr, generation: nat)

  /** One `ReplyDirectory::add(ino, offset, kind, name)`. */
  datatype DirItem = DirItem(ino: nat, offset: nat, kind: FileType, name: OsName)

  /**
   * `ReplyDirectory::add`: appends when there is room and otherwise reports
   * the buffer full (`true`) without appending. The buffer's byte budget is
   * abstracted to a number of items, `cap`.
   */
  function Add(items: seq<DirItem>, cap: nat, item: DirItem): (r: (seq<DirItem>, bool))
    ensures r.1 <==> |items| >= cap
    ensures r.1 ==> r.0 == items
    ensures !r.1 ==> r.0 == items + [item] && |r.0| <= cap
  {
    if |items| >= cap then (items, true) else (items + [item], false)
  }
}
