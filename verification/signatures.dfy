/**
 * The part of the backup library (ruplicity) that the filesystem consumes:
 * the entries of a snapshot's signature, and the snapshots themselves.
 * The library is external; only the fields the filesystem reads are kept.
 */
module Signatures {
  import opened Wrappers

  newtype byte = b: int | 0 <= b < 256

  /** The bytes of an OS path or path component (an `OsStr` on Unix). */
  type OsName = seq<byte>

  /** A byte that continues a multi-byte UTF-8 sequence. */
  predicate Cont(b: byte) {
    0x80 <= b <= 0xBF
  }

  /**
   * The length of the well-formed UTF-8 sequence at the start of `s`, or 0
   * when `s` does not start with one (the byte ranges of table 3-7 of the
   * Unicode Standard, as in section 4 of RFC 3629: no overlong forms, no
   * surrogates, nothing above U+10FFFF).
   */
  function Utf8Lead(s: OsName): (n: nat)
    ensures n <= |s| && n <= 4
    ensures n > 0 ==> (n == 1 <==> s[0] < 0x80)
  {
    if |s| == 0 then 0
    else
      var b := s[0];
      if b < 0x80 then 1
      else if 0xC2 <= b <= 0xDF then
        if |s| >= 2 && Cont(s[1]) then 2 else 0
      else if b == 0xE0 then
        if |s| >= 3 && 0xA0 <= s[1] <= 0xBF && Cont(s[2]) then 3 else 0
      else if 0xE1 <= b <= 0xEC || 0xEE <= b <= 0xEF then
        if |s| >= 3 && Cont(s[1]) && Cont(s[2]) then 3 else 0
      else if b == 0xED then
        if |s| >= 3 && 0x80 <= s[1] <= 0x9F && Cont(s[2]) then 3 else 0
      else if b == 0xF0 then
        if |s| >= 4 && 0x90 <= s[1] <= 0xBF && Cont(s[2]) && Cont(s[3]) then 4 else 0
      else if 0xF1 <= b <= 0xF3 then
        if |s| >= 4 && Cont(s[1]) && Cont(s[2]) && Cont(s[3]) then 4 else 0
      else if b == 0xF4 then
        if |s| >= 4 && 0x80 <= s[1] <= 0x8F && Cont(s[2]) && Cont(s[3]) then 4 else 0
      else 0
  }

  /** Whether `OsStr::to_str` succeeds: the bytes are well-formed UTF-8. */
  predicate Utf8(s: OsName)
    decreases |s|
  {
    |s| == 0 || (Utf8Lead(s) > 0 && Utf8(s[Utf8Lead(s)..]))
  }

  /** Every ASCII name is text. */
  lemma {:induction false} AsciiUtf8(s: OsName)
    requires forall i :: 0 <= i < |s| ==> s[i] < 0x80
    ensures Utf8(s)
    decreases |s|
  {
    if |s| > 0 {
      AsciiUtf8(s[1..]);
    }
  }

  /** A name whose first byte continues a sequence, or can never start one, is no text. */
  lemma NotUtf8Lead(s: OsName)
    requires |s| > 0 && (Cont(s[0]) || s[0] == 0xC0 || s[0] == 0xC1 || s[0] >= 0xF5)
    ensures !Utf8(s)
  {
  }

  /** A `time::Timespec`: seconds and nanoseconds. */
  datatype Timespec = Timespec(sec: int, nsec: int)

  /** A component of a `std::path::Path`, as yielded by `components()`. */
  datatype Component =
    | Prefix
    | RootDir
    | CurDir
    | ParentDir
    | Normal(name: OsName)

  /** The kind of a signature entry. `Unknown` carries the raw type byte. */
  datatype EntryType =
    | File
    | Dir
    | SymLink
    | HardLink
    | Fifo
    | Unknown(code: byte)

  /**
   * One entry of a snapshot's signature: its path split into components,
   * its type, and the optional metadata the filesystem turns into attributes.
   * `sizeHint` is the (lower, upper) bound pair; `linkTarget` is the target
   * of a symbolic link, already as the bytes of an OS path.
   */
  datatype Entry = Entry(
    path: seq<Component>,
    kind: EntryType,
    mtime: Timespec,
    mode: Option<nat>,
    uid: Option<nat>,
    gid: Option<nat>,
    sizeHint: Option<(nat, nat)>,
    linkTarget: Option<seq<byte>>)

  /**
   * A snapshot of the backup. `name` is its time formatted as a directory name
   * (`%Y-%m-%d_%H-%M-%S` in local time), as the bytes of that string; `entries` is `None` when reading the
   * signature fails.
   */
  datatype Snapshot = Snapshot(time: Timespec, name: OsName, entries: Option<seq<Entry>>)

  /**
   * A backup, seen through `Backup::snapshots`: its snapshots in order, or
   * `None` when listing them fails. Every call sees the same answer.
   */
  datatype Backup = Backup(snapshots: Option<seq<Snapshot>>)
}
