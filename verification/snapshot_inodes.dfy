/**
 * `SnapshotsInos` of `src/fs/mod.rs`: the snapshot directories' names and
 * inodes. Inode 1 is the mount root; snapshot number `sid` (its position in
 * the backup's snapshot list) is the directory with inode `sid + 2`, named
 * after its time.
 */
module SnapshotInodes {
  import opened Wrappers
  import opened Signatures

  /** The map from a snapshot directory's name to the snapshot's position. */
  datatype SnapshotsInos = SnapshotsInos(paths: map<OsName, nat>)

  /**
   * The names inserted one snapshot after the other, so that a later snapshot
   * with the same name overwrites an earlier one.
   */
  function NamePaths(snaps: seq<Snapshot>): (r: map<OsName, nat>)
    ensures forall name :: name in r ==> r[name] < |snaps|
    decreases |snaps|
  {
    if |snaps| == 0 then map[]
    else NamePaths(snaps[..|snaps| - 1])[snaps[|snaps| - 1].name := |snaps| - 1]
  }

  /**
   * Only snapshots' names are keys, and every name maps to the last snapshot
   * carrying it.
   */
  lemma {:induction false} NamePathsLast(snaps: seq<Snapshot>)
    ensures forall name :: name in NamePaths(snaps) <==> exists k :: 0 <= k < |snaps| && snaps[k].name == name
    ensures forall name :: name in NamePaths(snaps) ==>
              var sid := NamePaths(snaps)[name];
              && snaps[sid].name == name
              && forall j :: sid < j < |snaps| ==> snaps[j].name != name
    decreases |snaps|
  {
    if |snaps| > 0 {
      var init := snaps[..|snaps| - 1];
      NamePathsLast(init);
      assert forall k :: 0 <= k < |init| ==> init[k] == snaps[k];
    }
  }

  /** `SnapshotsInos::new` over the snapshot list the backup returned. */
  function New(snaps: seq<Snapshot>): (s: SnapshotsInos)
    ensures forall name :: name in s.paths ==> s.paths[name] < |snaps|
  {
    SnapshotsInos(NamePaths(snaps))
  }

  /** `SnapshotsInos::len`: the number of distinct names. */
  function Len(s: SnapshotsInos): nat
  {
    |s.paths|
  }

  /** There are never more names than snapshots, and exactly as many when the names are distinct. */
  lemma {:induction false} LenOfNew(snaps: seq<Snapshot>)
    ensures Len(New(snaps)) <= |snaps|
    ensures (forall a, b :: 0 <= a < b < |snaps| ==> snaps[a].name != snaps[b].name) ==> Len(New(snaps)) == |snaps|
    decreases |snaps|
  {
    if |snaps| > 0 {
      var init := snaps[..|snaps| - 1];
      var last := snaps[|snaps| - 1].name;
      LenOfNew(init);
      NamePathsLast(init);
      assert forall k :: 0 <= k < |init| ==> init[k] == snaps[k];
      var m := NamePaths(init);
      if last in m {
        assert m[last := |snaps| - 1].Keys == m.Keys;
      } else {
        assert m[last := |snaps| - 1].Keys == m.Keys + {last};
      }
    }
  }

  /** What `sid_from_path` gives: a snapshot position, none, or a panic on a name that is not text. */
  datatype SidLookup = Sid(sid: nat) | NoSid | NotText

  /**
   * `SnapshotsInos::sid_from_path`: the snapshot a directory name stands for,
   * if any. The name goes through `to_str().unwrap()`, which panics on bytes
   * that are not well-formed UTF-8.
   */
  function SidFromPath(s: SnapshotsInos, name: OsName): (r: SidLookup)
    ensures r.NotText? <==> !Utf8(name)
    ensures r.Sid? <==> Utf8(name) && name in s.paths
    ensures r.Sid? ==> r.sid == s.paths[name]
  {
    if !Utf8(name) then NotText
    else if name in s.paths then Sid(s.paths[name])
    else NoSid
  }

  /**
   * Looking a text name up after `new`: an unknown name is no snapshot's name,
   * and a known one gives the last snapshot with that name.
   */
  lemma SidFromPathOfNew(snaps: seq<Snapshot>, name: OsName)
    requires Utf8(name)
    ensures SidFromPath(New(snaps), name).NoSid? <==> forall k :: 0 <= k < |snaps| ==> snaps[k].name != name
    ensures SidFromPath(New(snaps), name).Sid? ==>
              var sid := SidFromPath(New(snaps), name).sid;
              && sid < |snaps| && snaps[sid].name == name
              && forall j :: sid < j < |snaps| ==> snaps[j].name != name
  {
    NamePathsLast(snaps);
  }

  /** `SnapshotsInos::ino_from_sid`. */
  function InoFromSid(sid: nat): (ino: nat)
    ensures ino >= 2
  {
    sid + 2
  }

  /** `SnapshotsInos::sid_from_ino`: the source asserts `ino >= 2`. */
  function SidFromIno(ino: nat): (sid: nat)
    requires ino >= 2
    ensures InoFromSid(sid) == ino
  {
    ino - 2
  }

  /** The two conversions are inverse to each other. */
  lemma SidInoRoundTrip(sid: nat, ino: nat)
    requires ino >= 2
    ensures SidFromIno(InoFromSid(sid)) == sid
    ensures InoFromSid(SidFromIno(ino)) == ino
  {
  }

  /** `SnapshotsInos::last_ino`: the inode after the last snapshot directory's. */
  function LastIno(s: SnapshotsInos): (ino: nat)
    ensures ino == Len(s) + 2
    ensures forall sid: nat :: sid < Len(s) ==> InoFromSid(sid) < ino
  {
    InoFromSid(Len(s))
  }

  /** `SnapshotsInos::is_snapshot`: whether an inode is one of the snapshot directories'. */
  function IsSnapshot(s: SnapshotsInos, ino: nat): (b: bool)
    ensures b <==> 2 <= ino < Len(s) + 2
    ensures b <==> ino >= 2 && SidFromIno(ino) < Len(s)
    ensures b <==> exists sid: nat :: sid < Len(s) && InoFromSid(sid) == ino
  {
    assert ino >= 2 ==> InoFromSid(ino - 2) == ino;
    ino >= 2 && ino < InoFromSid(Len(s))
  }
}
