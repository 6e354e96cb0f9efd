# ruplicity-fuse: the inode and directory layer, in Dafny

ruplicity-fuse mounts a duplicity backup as a read-only FUSE filesystem. Inode 1
is the mount root. Its children are the backup's snapshots, one directory per
snapshot, and snapshot number `sid` gets inode `sid + 2`. Under a snapshot
directory lie the files and directories of that snapshot's signature.

The entries of a signature come as a flat list in pre-order. The filesystem
folds that list into a tree of `TreeNode { index, ino, children }`. This happens
lazily, the first time the snapshot directory is listed. The inodes of a tree
are handed out in pre-order after the last inode used so far. As a result every
subtree owns one contiguous inode range, and a node is found from its inode by
binary search over its siblings' ranges. The FUSE callbacks `getattr`,
`readdir`, `lookup` and `readlink` dispatch on the inode:

- the root;
- the snapshot directories;
- the entries of built trees.

The project models three source files:

- `src/fs/tree.rs`: the tree builder, the node search and the children iterator.
- `src/fs/mod.rs`: the snapshot inode map, the memoised tree allocation, the
  handlers and the dispatch.
- `src/fs.rs`: the earlier dispatcher, which knew only the root and the
  snapshot directories.

Modules, in dependency order:

| file | module | models |
|---|---|---|
| `wrappers.dfy` | `Wrappers` | `Option` |
| `signatures.dfy` | `Signatures` | what the filesystem reads of the backup library: snapshots, signature entries, path components |
| `fuse.dfy` | `Fuse` | file attributes, replies, the bounded directory buffer |
| `tree_nodes.dfy` | `TreeNodes` | `TreeNode`, `TreeNode::inodes`, the pre-order numbering invariants |
| `tree.dfy` | `Tree` | `SnapshotTree::new`, `TreeNode::new`, `TreeNode::new_children`, `SnapshotTree::inodes` |
| `tree_search.dfy` | `TreeSearch` | `SnapshotTree::find_node` with its comparator and `binary_search_by` |
| `tree_iter.dfy` | `TreeIter` | `ChildrenIter`, `PathEntry::path`, `SnapshotTree::children`, `NodeEntry::children` |
| `listing.dfy` | `Listing` | the paging scheme shared by the `readdir_*` handlers |
| `snapshot_inodes.dfy` | `SnapshotInodes` | `SnapshotsInos` |
| `fs_state.dfy` | `FsState` | the `RuplicityFs` state, `tree_for_snapshot`, `find_tree_with_ino`, the state invariant |
| `handlers.dfy` | `Handlers` | the handlers and the `Filesystem` dispatch of `src/fs/mod.rs` |
| `handler_props.dfy` | `HandlerProps` | what the handlers do on a state that keeps the invariant |
| `early_fs.dfy` | `EarlyFs` | the earlier `RuplicityFs` of `src/fs.rs`, and how it agrees with the later one |

How the source's behaviour is represented:

- A handler returns what it did with its reply object (`Fuse.Reply`):
  - `Ok` for a reply;
  - `Error(errno)` for `reply.error`;
  - `Dropped` when `try_or_log!` returned without replying;
  - `Panicked` where the Rust code would panic.
- Rust panics become outcomes the properties can rule out:
  - an `unwrap` on `None`;
  - a `usize` underflow in the iterator's skip;
  - indexing the tree slots out of bounds.
- `readdir` also returns the new state, because listing a snapshot directory
  may build its tree.
- Names are `OsName`, the bytes of an `OsStr`. `to_str()` succeeds exactly on
  well-formed UTF-8 (`Signatures.Utf8`), so the `to_str().unwrap()` of
  `sid_from_path` is a panic on any other name.
- The node search takes a `Comparator`: `AsWritten` is the `binary_search_by`
  closure of `tree.rs`, `Corrected` the one with the order reversed. The
  handlers that search a tree carry it as a parameter. The program as written
  is the handlers at `AsWritten`; properties stated "with the corrected
  comparator" hold only for `Corrected` (see "## Findings").
- The source uses `unwrap_opt_or_error!` and `unwrap_opt_or_continue!`, but
  `src/macros.rs` does not define them. They are modelled as "reply with the
  errno and return" and "skip this item".

The source is caught in the middle of a refactoring, and the model follows
`tree.rs` as written:

- **Tree construction.** `tree_for_snapshot` calls a three-argument
  `SnapshotTree::new`, while `tree.rs` takes an entry list and a first inode.
  The model builds the tree from the snapshot's entries with first inode
  `last_ino + 1`.
- **`snapshot_ino()`.** `tree.rs` has no such method. Each tree slot stores the
  snapshot directory's inode beside the tree.
- **`NodeEntry::parent()`.** Missing from `tree.rs`. It is the inode of the node
  the search descended from; for the root, the root's own inode.
- **`NodeEntry::as_path_entry`.** Missing from `tree.rs`. It is the entry at the
  node's position.

Consequences of this reading, all proved:

- A tree's root takes inode `last_ino + 1` and its children the inodes after
  it. The tree's range, `inodes()`, starts after the root, so the root's own
  inode is not in it (`TreeForSnapshotAllocates`).
- No node carries a snapshot directory's inode, so `lookup` under a snapshot
  directory always answers ENOENT (`HandlerProps.LookupUnderSnapshot`).
- The state invariant `FsState.Valid` says the following:
  - every filled slot holds the tree built from its snapshot's entries;
  - the trees' inode ranges are pairwise disjoint;
  - the ranges lie above the snapshot inodes.

  It holds after `new` and is kept by `tree_for_snapshot`. Under it,
  `find_tree_with_ino` returns the only owner of an inode.
- With the corrected comparator every node of a built tree is reached by
  `getattr` at inode `root + j` with the attributes of entry `j`. With the
  comparator as written this fails: after listing the one snapshot directory of
  a backup whose signature is a root and three top-level entries, `getattr` of
  the first entry answers ENOENT (`HandlerProps.OneSnapshotMisses`).
- Under the invariant no `getattr` or `readlink` panics, whichever comparator.
  There are two exceptions. Listing a snapshot directory panics exactly when
  its signature has no entry at all. A `lookup` under the root panics exactly
  when the name is not UTF-8.

Snapshot names: two snapshots whose times format to the same name share one key
of the name map. `len()` then counts fewer names than snapshots, and the last
snapshots' inodes fall outside `is_snapshot` (`SnapshotInodes.LenOfNew` gives
equality only for distinct names).

## Model

| member | source | states |
|---|---|---|
| `SnapshotInodes.NamePathsLast` | src/fs/mod.rs:401-407 | the name map's keys are exactly the snapshots' names, and each name maps to the last snapshot carrying it (later inserts overwrite earlier ones) |
| `SnapshotInodes.LenOfNew` | src/fs/mod.rs:410-412 | `len()` never exceeds the number of snapshots and equals it when the names are distinct |
| `Signatures.Utf8Lead` | src/fs/mod.rs:420 | the length of the well-formed UTF-8 sequence a name starts with (0 when it starts with none), at most 4 and within the name, and 1 exactly for an ASCII byte |
| `Signatures.AsciiUtf8` | src/fs/mod.rs:420 | every name of ASCII bytes passes `to_str` |
| `Signatures.NotUtf8Lead` | src/fs/mod.rs:420 | a name whose first byte is a continuation byte, 0xC0, 0xC1 or above 0xF4 fails `to_str` |
| `SnapshotInodes.SidFromPath` | src/fs/mod.rs:419-421 | a panic exactly for a name that is not UTF-8; otherwise the position the name map holds for it, and `None` exactly when the map lacks it |
| `SnapshotInodes.SidFromPathOfNew` | src/fs/mod.rs:419-421 | for a UTF-8 name, `sid_from_path` is `None` exactly when no snapshot has the name, and otherwise gives the last snapshot with that name |
| `SnapshotInodes.SidFromIno` | src/fs/mod.rs:423-426 | callable only for inode 2 and above (the `assert!`); `ino_from_sid` of the result is the inode |
| `SnapshotInodes.SidInoRoundTrip` | src/fs/mod.rs:423-430 | `sid_from_ino` and `ino_from_sid` are inverse to each other |
| `SnapshotInodes.LastIno` | src/fs/mod.rs:432-434 | `last_ino()` is `len() + 2`, above every snapshot directory's inode |
| `SnapshotInodes.IsSnapshot` | src/fs/mod.rs:437-439 | holds iff `2 <= ino < len() + 2`, iff the inode is `ino_from_sid` of some position below `len()` |
| `TreeNodes.FlattenNumbered` | src/fs/tree.rs:182-188 | in a consecutively numbered subtree the j-th node in pre-order has inode `ino + j` and entry position `index + j`, and `inodes()` spans as many inodes as the subtree has nodes |
| `TreeNodes.InodesSpan` | src/fs/tree.rs:182-188 | `TreeNode::inodes` of such a subtree is `(ino, ino + size - 1)` |
| `TreeNodes.SiblingsAt` | src/fs/tree.rs:171-177 | among numbered siblings the first starts at the given inode and each next one starts right after the previous one's last inode |
| `Tree.BuildNode` | src/fs/tree.rs:126-134 | a node built at position `pos` takes the given index and inode, consumes at least its own entry, and ends on inode `ino + consumed - 1`; the entries it took for its children have a component at the node's path depth, and it stops at the end or at a shallower entry |
| `Tree.NewNode` | src/fs/tree.rs:120-135 | `None` exactly when the iterator is exhausted; otherwise the node carries the given index and inode and its last inode counts the entries consumed |
| `Tree.NewChildren` | src/fs/tree.rs:137-180 | no children exactly when nothing is consumed; the last child's last inode counts the entries consumed; every consumed entry has a component at index `path_depth`, and the loop stops at the end or at the first entry without one |
| `Tree.BuildNodeConsecutive` | src/fs/tree.rs:126-134 | a built subtree is numbered in pre-order: its first child follows it in inode and entry position, and its children are gap-free siblings |
| `Tree.NewChildrenSiblings` | src/fs/tree.rs:163-177 | the children built by the loop are gap-free siblings: child k+1 starts at child k's last inode plus one, with the entry position advancing in step |
| `Tree.NewChildrenShaped` | src/fs/tree.rs:146-163 | every child's entry has a path component at index `path_depth`, at every level of the built subtree |
| `Tree.NewTree` | src/fs/tree.rs:52-67 | the root has entry position 0 and inode `first_ino`; an empty entry list gives a childless root |
| `Tree.TreeInodes` | src/fs/tree.rs:69-74 | `SnapshotTree::inodes` is `None` exactly when the root has no children |
| `Tree.NewTreeWellFormed` | src/fs/tree.rs:52-67 | a built tree is numbered in pre-order, and it sits on its entry list (each child's entry has the component that names it) exactly when the list is not empty |
| `Tree.NewTreeNumbered` | src/fs/tree.rs:55-65 | the j-th node in pre-order has entry position `j` and inode `first_ino + j` |
| `Tree.NewTreeCount` | src/fs/tree.rs:126-134 | each node consumes one entry: an empty list gives the lone placeholder root, and a list whose later entries all have a path gives exactly one node per entry; the build stops only at an entry without path components |
| `Tree.TreeInodesSpan` | src/fs/tree.rs:69-74 | `inodes()` of a built tree is `None` exactly when the root is its only node, and otherwise runs from `first_ino + 1` to the last node's inode, covering every node but the root |
| `TreeSearch.Probe` | src/fs/tree.rs:99-108 | the comparator answers `Equal` exactly when the inode lies in the child's range; as written `Less` means the inode lies before the range, and in the corrected orientation `Less` means the range lies before the inode |
| `TreeSearch.SearchBetween` | src/fs/tree.rs:99 | a binary search that reports `Found` points at an `Equal` answer inside the searched bounds; `NotFound` carries an insertion point inside them |
| `TreeSearch.SearchFinds` | src/fs/tree.rs:99-112 | when the answers are `Less` before position e, `Equal` at e and `Greater` after it, the search finds e |
| `TreeSearch.FindNodeRec` | src/fs/tree.rs:88-113 | a found node carries the query inode; its depth exceeds the starting depth by the number of edges it lies below the start, and the recorded parent is the node it was reached from; an inode that is neither the node's own nor in its range is not found |
| `TreeSearch.FindNode` | src/fs/tree.rs:87-115 | with either comparator, `find_node` is sound: any node it returns has the query inode and lies as deep below the root as its depth says, below the recorded parent; an inode that is neither the root's nor in its range gives `None` |
| `TreeSearch.SiblingsOrdered` | src/fs/tree.rs:171-177 | the ranges of numbered siblings are strictly increasing: each ends before any later one starts |
| `TreeSearch.ChildContaining` | src/fs/tree.rs:98-108 | an inode inside the range of a run of siblings lies in the range of one of them |
| `TreeSearch.FindNodeRecComplete` | src/fs/tree.rs:88-112 | with the corrected comparator every inode of a numbered subtree's range is found |
| `TreeSearch.FindInFlatten` | src/fs/tree.rs:88-114 | the corrected search for `ino + j` in a numbered subtree returns the j-th node in pre-order |
| `TreeSearch.FindNodeComplete` | src/fs/tree.rs:87-115 | in a built tree the corrected `find_node(first_ino + j)` finds the node on entry `j`, for every node |
| `TreeSearch.DescendsInFlatten` | src/fs/tree.rs:110 | a node reached by descending is one of the subtree's nodes |
| `TreeSearch.ThreeLeavesBuilt` | src/fs/tree.rs:52-67 | any first entry (its path is never read) followed by three one-component entries builds, from inode f, the root f with leaves f + 1, f + 2 and f + 3 |
| `TreeSearch.AsWrittenMissesFirstChild` | src/fs/tree.rs:99-108 | on that tree the comparator as written misses the first leaf: `find_node(f + 1)` returns `None` |
| `TreeSearch.CorrectedFindsFirstChild` | src/fs/tree.rs:99-110 | on that tree the corrected comparator finds leaf f + 1 at depth 1 below the root |
| `TreeSearch.AsWrittenMissesBuilt` | src/fs/tree.rs:87-115 | for every signature of that shape the built tree has four nodes and the search as written does not find inode `f + 1` |
| `TreeIter.TreeChildren` | src/fs/tree.rs:76-85 | `SnapshotTree::children` panics (the `unwrap`) exactly on an empty entry list; otherwise it walks the root's children over the entries after the root's, from position 0 at depth 0 |
| `TreeIter.NodeChildren` | src/fs/tree.rs:232-241 | `NodeEntry::children` does the same for a found node, at the node's depth |
| `TreeIter.Next` | src/fs/tree.rs:195-205 | panics exactly when the child's position is not past the current one (the `usize` underflow) or the entry iterator runs out; otherwise it yields the child with the entry `skip` places on, at the iterator's depth, and moves to the child's position |
| `TreeIter.Walk` | src/fs/tree.rs:192-205 | the walk yields at most one item per child, and one for every child when it does not crash |
| `TreeIter.NextInStep` | src/fs/tree.rs:196-203 | an iterator in step with the entry list never underflows, yields the entry at the child's own position, and stays in step |
| `TreeIter.WalkPairs` | src/fs/tree.rs:196-203 | an in-step walk never crashes and pairs the k-th child with the entry at that child's position |
| `TreeIter.PathName` | src/fs/tree.rs:214-219 | the component at the entry's depth when it is a normal name, `None` for another component, a panic when the path has no component there |
| `TreeIter.ChildrenInStep` | src/fs/tree.rs:76-85 | the children iterator of a node of a built tree is in step with the entries, and each child's entry has a component at the iterator's depth |
| `TreeIter.DescendsShaped` | src/fs/tree.rs:146-163 | a node k edges below a root built at depth 0 is shaped at path depth k, so its children are named by component k |
| `TreeIter.FoundChildrenWalk` | src/fs/tree.rs:232-241 | listing the children of a found node never crashes, pairs the k-th child with its own entry, and every name lookup on the way has its component |
| `Fuse.Add` | src/fs/mod.rs:145-148 | `reply.add` appends exactly when there is room and reports the buffer full otherwise, leaving it unchanged |
| `Listing.Drop` | src/fs/mod.rs:135-137 | `enumerate().skip(s)` over candidates that do not panic drops exactly the first `s` |
| `Listing.Fill` | src/fs/mod.rs:135-150 | the listing loop keeps what was already added, stays within the buffer, and does not panic over candidates that do not panic |
| `Listing.FillTakes` | src/fs/mod.rs:135-150 | over candidates that do not panic, the loop adds the named items in order, as many as fit |
| `Listing.Resume` | src/fs/mod.rs:125-137 | a call with offset `o > 0` skips `o - 1` items |
| `Listing.Page` | src/fs/mod.rs:123-151 | a later page never holds more items than the buffer has room for |
| `Listing.FirstPage` | src/fs/mod.rs:125-130 | the first page is "." at offset 0, ".." at offset 1, then the first items, as many as fit |
| `Listing.PageCalm` | src/fs/mod.rs:135-150 | a page over candidates that do not panic never panics, whatever the offset |
| `Listing.LaterPage` | src/fs/mod.rs:132-149 | a page from offset `o > 0` holds the items after the first `o - 1`, as many as fit |
| `Listing.ResumeAfter` | src/fs/mod.rs:138 | in a listing numbered k + 2, resuming from an item's offset yields exactly the items after it |
| `Listing.PagesContinue` | src/fs/mod.rs:123-151 | successive pages emit every item once and in order: the page requested with the last offset of a page starts right after that page's last item |
| `Listing.RootLoop` | src/fs/mod.rs:109-118 | the root loop keeps what was already added |
| `Listing.RootCands` | src/fs/mod.rs:110-114 | snapshot k is listed as a directory with inode and offset k + 2 |
| `Listing.RootLoopNumbered` | src/fs/mod.rs:109-118 | the root loop's running counter numbers the snapshots as the enumerated listings do |
| `FsState.New` | src/fs/mod.rs:37-48 | fails exactly when the snapshots cannot be listed; otherwise one empty slot per snapshot directory and `last_ino` at `len() + 2` |
| `FsState.SnapshotFromSid` | src/fs/mod.rs:304-309 | the snapshot at position `sid`, and a failure exactly when the list cannot be read or is shorter |
| `FsState.Memo` | src/fs/mod.rs:318-321 | the early return hands back the stored tree, or fails when the snapshot cannot be read |
| `FsState.TreeForSnapshot` | src/fs/mod.rs:316-338 | panics exactly for a position past the slots; only slot `sid` and `last_ino` can change, and `last_ino` never decreases; a failed read or a filled slot leaves the state unchanged; a fetched tree is the one stored in slot `sid` |
| `FsState.NewValid` | src/fs/mod.rs:37-48 | a freshly opened filesystem satisfies the state invariant |
| `FsState.TreeForSnapshotAllocates` | src/fs/mod.rs:326-334 | a new tree's root takes `last_ino + 1` and its children the inodes up to `last_ino + node count`; `last_ino` moves there, and stays put for a tree with a root alone |
| `FsState.TreeForSnapshotMemo` | src/fs/mod.rs:318-321 | once fetched, fetching again returns the same tree and snapshot and changes nothing |
| `FsState.TreeForSnapshotOutcome` | src/fs/mod.rs:316-338 | under the invariant the slot index is in bounds, and the fetch fails exactly when the snapshot's signature cannot be read |
| `FsState.ApartAfterFill` | src/fs/mod.rs:330-335 | filling an empty slot with a tree whose range lies above all earlier ranges keeps the ranges pairwise disjoint |
| `FsState.FilledSlot` | src/fs/mod.rs:324-335 | the slot a first call fills holds the tree of its snapshot's entries, its range lies above the previous `last_ino`, and no other slot changes |
| `FsState.TreeForSnapshotValid` | src/fs/mod.rs:316-338 | `tree_for_snapshot` keeps the state invariant |
| `FsState.FindSlot` | src/fs/mod.rs:341-355 | the first filled slot from a position on whose snapshot inode or range holds the inode; `None` exactly when there is none |
| `FsState.FindTreeWithIno` | src/fs/mod.rs:341-361 | returns the tree of a slot owning the inode and that slot's position, and `None` exactly when no slot owns it |
| `FsState.FindTreeOwner` | src/fs/mod.rs:341-361 | under the invariant the owner is unique, so `find_tree_with_ino` returns any slot owning the inode |
| `FsState.RangeAboveSnapshots` | src/fs/mod.rs:326-334 | under the invariant a tree's root and its range lie above the snapshot inodes, and the range ends by `last_ino` |
| `Handlers.FromEntryType` | src/fs/mod.rs:448-457 | total, and each file type comes from exactly its entry types: Dir to Directory, SymLink to Symlink, Fifo to NamedPipe, the rest to RegularFile |
| `Handlers.DirAttr` | src/fs/mod.rs:263-281 | a filesystem directory: size 0, permissions 0o555, owner and group 0, all four times the given time |
| `Handlers.AttrRoot` | src/fs/mod.rs:51-70 | the mount root is inode 1, a directory with permissions 0o555, size, blocks, links, owner, group, device and flags all 0, and all four times the current time |
| `Handlers.AttrSnapshot` | src/fs/mod.rs:263-281 | a snapshot directory is a directory at the given inode with permissions 0o555, all counts and ids 0, and all four times the snapshot's time |
| `Handlers.AttrEntry` | src/fs/mod.rs:284-302 | size is the size hint's upper bound or 0; permissions the mode cut to 16 bits or 0o777; owner and group the ids or 100; all times the entry's modification time; the type from `from_entry_type` |
| `Handlers.Locate` | src/fs/mod.rs:81-90 | no tree exactly when `find_tree_with_ino` finds none; a located node is what `find_node`, with the given comparator, returns in the tree of that slot |
| `Handlers.EntryAt` | src/fs/mod.rs:93 | the entry at the node's position, and `None` exactly past the end of the list |
| `Handlers.GetAttrSnapshot` | src/fs/mod.rs:73-77 | answers or drops the reply, answering exactly when snapshot `ino - 2` can be read, with its directory attributes and the one-hour TTL |
| `Handlers.GetAttrEntry` | src/fs/mod.rs:80-96 | ENOENT exactly when the inode leads to no node |
| `Handlers.GetAttr` | src/fs/mod.rs:365-373 | inode 1 gets the root at the current time, snapshot inodes go to `getattr_snapshot`, all others to `getattr_entry` |
| `Handlers.Start` | src/fs/mod.rs:101-106 | a first call adds "." and ".." (when they fit), later calls add nothing |
| `Handlers.ReadDirRoot` | src/fs/mod.rs:99-120 | answers unless the snapshots cannot be listed, in which case the reply is dropped |
| `Handlers.CandOf` | src/fs/mod.rs:138-145 | a yielded child is listed exactly when its component is a normal name, with its inode, offset k + 2 and type; it is skipped for another component, and panics when there is none |
| `Handlers.Cands` | src/fs/mod.rs:135-140 | one candidate per yielded child, followed by a panic when the iterator crashed |
| `Handlers.ListChildren` | src/fs/mod.rs:135-150 | panics when the entry list is empty or a candidate panics; otherwise the reply is the page of the candidates |
| `Handlers.ReadDirSnapshot` | src/fs/mod.rs:123-151 | the state after is the one `tree_for_snapshot` leaves, and the reply is never an errno |
| `Handlers.ReadDirEntry` | src/fs/mod.rs:154-193 | ENOENT exactly when the inode leads to no node |
| `Handlers.ReadDir` | src/fs/mod.rs:375-383 | inode 1 lists the root, snapshot inodes list their tree (and may build it), all others list entries; only the snapshot case changes the state |
| `Handlers.LookupSnapshot` | src/fs/mod.rs:196-205 | a panic exactly for a name that is not UTF-8; ENOENT exactly for a UTF-8 name no snapshot directory has; an answer carries the snapshot's attributes at inode `sid + 2` |
| `Handlers.FindChild` | src/fs/mod.rs:221-226 | a found child is the first of the yielded children named so, no earlier child carrying that name; `Missing` means no child is named so; no panic when every child has its component and the iterator did not crash |
| `Handlers.LookupEntry` | src/fs/mod.rs:208-235 | ENOENT for a parent that leads to no node; every errno it gives is ENOENT |
| `Handlers.Lookup` | src/fs/mod.rs:385-391 | names under inode 1 are snapshot directories, names under any other parent are entries |
| `Handlers.ReadLink` | src/fs/mod.rs:238-260 | ENOENT for an inode that leads to no node, ENOSYS for an entry without a link target, and otherwise the located entry's target |
| `HandlerProps.GetAttrSnapshotValid` | src/fs/mod.rs:73-77 | on a valid state a snapshot directory answers with the time of snapshot `ino - 2` |
| `HandlerProps.LocatedFacts` | src/fs/mod.rs:80-93 | a located inode lies above the snapshot inodes; its tree was built from a non-empty entry list, and the node sits on an entry of that list below the root |
| `HandlerProps.SlotOwnsNode` | src/fs/mod.rs:341-361 | every node but the root of a stored tree is owned by that tree's slot alone |
| `HandlerProps.LocateNode` | src/fs/mod.rs:81-90 | with the corrected comparator, node j of a stored tree, for every j but the root, is located at inode `root + j` in its own slot |
| `HandlerProps.GetAttrReachesEntries` | src/fs/mod.rs:80-96 | with the corrected comparator, every node j of a stored tree, but the root, answers `getattr` with the attributes of entry j |
| `HandlerProps.GetAttrNoPanic` | src/fs/mod.rs:365-373 | `getattr` never panics on a valid state |
| `HandlerProps.ReadLinkValid` | src/fs/mod.rs:238-260 | on a valid state `readlink` gives the located entry's link target, ENOSYS for an entry that is no link, and ENOENT for an unknown inode |
| `HandlerProps.LookupUnderSnapshot` | src/fs/mod.rs:385-391 | on a valid state a lookup under a snapshot directory answers ENOENT |
| `HandlerProps.ChildWalkFacts` | src/fs/mod.rs:177-179 | the children of a located node are yielded one per child node, each with its own entry and a component at the node's depth |
| `HandlerProps.ReadDirEntryListing` | src/fs/mod.rs:154-193 | listing a located node answers with the page of its children: child k appears exactly when its component is a normal name, with its inode, offset k + 2, type and name |
| `HandlerProps.FindChildAmongKids` | src/fs/mod.rs:221-226 | over a node's children whose entries all have a component at the node's depth, the name search never panics, misses exactly when no child's component is the name, and otherwise returns the first child carrying it |
| `HandlerProps.LookupEntryValid` | src/fs/mod.rs:208-235 | ENOENT exactly when no child of the node is named so; otherwise the attributes of the first child named so, as `Iterator::find` returns it |
| `HandlerProps.ReadDirSnapshotValid` | src/fs/mod.rs:123-151 | listing a snapshot directory keeps the invariant; it panics exactly when the signature has no entry and is dropped exactly when the signature cannot be read; it never gives an errno |
| `HandlerProps.NoPanics` | src/fs/mod.rs:364-395 | on a valid state, with either comparator, no `getattr` or `readlink` panics, nor `readdir` of anything but a snapshot directory; `lookup` panics exactly for a non-UTF-8 name under the root |
| `HandlerProps.RootChildrenListing` | src/fs/tree.rs:76-85 | over the children of a built tree's root no candidate panics; child k has offset k + 2 and is listed exactly when the first component of its entry's path is a normal name, under that name, with its inode and type |
| `HandlerProps.ReadDirSnapshotListing` | src/fs/mod.rs:123-151 | listing a snapshot directory with a non-empty signature builds (or reuses) the tree of that signature and answers with the page of the root's children, "." the directory and ".." the root |
| `HandlerProps.SlotFirstNode` | src/fs/mod.rs:341-361 | a filled slot holds the tree of its signature, and its first node after the root lies above the snapshot inodes and is owned by that slot |
| `HandlerProps.AsWrittenLocateMisses` | src/fs/mod.rs:80-90 | with the comparator as written, in a slot whose signature is a root and three top-level entries, the first entry's inode `root + 1` is not located, though the tree has four nodes |
| `HandlerProps.GetAttrUnlocated` | src/fs/mod.rs:80-90 | an inode above the snapshot directories that does not lead to a node answers `getattr` with ENOENT |
| `HandlerProps.OneSnapshotOpened` | src/fs/mod.rs:37-48 | opening a backup of one snapshot gives one snapshot directory, one empty slot and `last_ino` 3 |
| `HandlerProps.OneSnapshotListed` | src/fs/mod.rs:316-338 | listing its snapshot directory, inode 2, stores the tree of its signature with root inode 4 and keeps the invariant |
| `HandlerProps.OneSnapshotMisses` | src/fs/mod.rs:80-96 | when that signature is a root and three top-level entries, `getattr(5)` of the first entry answers ENOENT as written and that entry's attributes with the corrected comparator |
| `HandlerProps.ReadDirRootListing` | src/fs/mod.rs:99-120 | the root listing is the page of the snapshots with snapshot k at inode and offset `ino_from_sid(k)`, whatever the resume offset |
| `EarlyFs.New` | src/fs.rs:17-28 | fails exactly when the snapshots cannot be listed; the name map is filled as `SnapshotsInos::new` fills it |
| `EarlyFs.IsSnapshotAgrees` | src/fs.rs:109-111 | the earlier range test agrees with `SnapshotsInos::is_snapshot` on the same backup |
| `EarlyFs.GetAttrSnapshot` | src/fs.rs:51-63 | snapshot `ino - 2` with its own time as TTL; ENOSYS exactly past the end of the list; dropped exactly when the list cannot be read |
| `EarlyFs.GetAttr` | src/fs.rs:135-143 | inode 1 is the root with the current time as TTL, and every inode that is neither the root nor a snapshot directory gets ENOSYS |
| `EarlyFs.GetAttrOpened` | src/fs.rs:30-63 | on an opened filesystem `getattr` answers exactly the root and the snapshot directories, each with its snapshot's time, and ENOSYS otherwise |
| `EarlyFs.ReadDir` | src/fs.rs:145-151 | only the root can be listed; every other inode gets ENOENT |
| `EarlyFs.ReadDirAgrees` | src/fs.rs:65-86 | the earlier root listing is the later one, item for item; `src/fs.rs:65-86` and `src/fs/mod.rs:99-120` are the same code, so both are modelled by the one `Handlers.ReadDirRoot`, and the lemma checks that both dispatchers reach it |
| `EarlyFs.LookupSnapshot` | src/fs.rs:88-107 | a panic exactly for a name that is not UTF-8; ENOENT for an unknown UTF-8 name; an answer is the directory of the named snapshot at inode `sid + 2`, with that snapshot's time as TTL |
| `EarlyFs.Lookup` | src/fs.rs:153-159 | every parent but the root gets ENOENT |
| `EarlyFs.LookupAgrees` | src/fs.rs:88-107 | under the root the earlier lookup panics, answers ENOENT or answers exactly when the later one does, with the same attributes, and only the TTL differs; for a UTF-8 name it answers exactly when some snapshot has the name |

## Left out

- `src/main.rs`, `src/logger.rs`: argument parsing, mounting and logging are process plumbing.
- `src/path_utils.rs`: a link target is carried as bytes already, so `path2bytes(..).unwrap_or(&[])` is the identity here.
- The `try_or_log!` macro of `src/macros.rs` is not a member. Its early return without a reply is the `Dropped` reply of every handler.
- `time_to_path`: local-time formatting is not modelled. Each snapshot carries its formatted name. Names are not assumed distinct.
- `time::get_time`: the wall clock is a parameter of `getattr`.
- The ruplicity library is external. `Backup::snapshots` is modelled as the same list, or the same failure, on every call. `Snapshot::entries` is a list or a failure. The signature entries are their path components and metadata.
- `ReplyDirectory::add`: the buffer's byte budget is modelled as a number of items.
- Integer widths: inodes, offsets and positions are unbounded. A `u64` inode overflow and the `as u16` of a mode beyond 16 bits are not modelled, except that `AttrEntry` takes the mode modulo 2^16. `offset as usize - 1` cannot underflow after the bump to 1.
- `binary_search_by` is std code. It is modelled as the halving search that probes the middle of the remaining bounds. Which index std returns among several `Equal` answers is not a property of this source, and built trees never produce more than one.
- `SnapshotsInos::is_empty` and `snapshot_from_ino`: unused (`dead_code`). Accessors that return a field (`ino()`, `as_signature()`) are read as fields.
- Tree construction, `snapshot_ino()`, `NodeEntry::parent()` and `NodeEntry::as_path_entry` are pinned to `tree.rs` as described above. The three-argument tree constructor that `src/fs/mod.rs:328` calls is not part of this model.
- Concurrency: `Filesystem` callbacks run one at a time on `&mut self`, so each is a function of the state.
- `HandlerProps.LocateNode`, `HandlerProps.GetAttrReachesEntries`: proved only with the corrected comparator. With the comparator as written they are false (`HandlerProps.OneSnapshotMisses`), and the model promises no completeness for the handlers as written.
- `OsStr::to_str` is modelled on Unix byte names as the well-formed UTF-8 test of section 4 of RFC 3629. Other platforms' `OsStr` encodings are not modelled.

## Findings

| source | as written | input that shows it | evidently intended | confidence | as-written member | corrected member |
|---|---|---|---|---|---|---|
| src/fs/tree.rs:99-108 | the `binary_search_by` closure answers `Less` when the inode lies before the child's range and `Greater` when it lies after | a backup with one snapshot whose signature is a root and three files: `new` sets `last_ino` to 3, listing inode 2 builds root 4 with leaves 5, 6, 7, and `getattr(5)` answers ENOENT, because `find_node(5)` probes the middle leaf, reads `Less`, goes right past leaf 5 and returns `None` | the closure reports the probed child's order relative to the target (`Greater` when the inode lies before the range, `Less` when after), so that every node of the tree is found | not executed | `HandlerProps.OneSnapshotMisses` | `TreeSearch.FindNodeComplete` |
