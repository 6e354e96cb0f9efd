/**
 * Pairing child nodes with their entries (`ChildrenIter`, `PathEntry`,
 * `SnapshotTree::children` and `NodeEntry::children` in `src/fs/tree.rs`).
 * The iterator walks the children of one node and, for each, advances a fresh
 * entry iterator to the child's entry position by skip arithmetic. The entry
 * iterator is modelled by the entries it still holds (`rest`) and the position
 * of the last entry it yielded (`curr`).
 *
 * A `usize` underflow in the skip and an `unwrap` of a missing entry are Rust
 * panics; the model reports them as `Crash` so that callers can show they never
 * happen on a tree built from the same entries.
 */
module TreeIter {
  import opened Wrappers
  import opened Signatures
  import opened TreeNodes
  import opened Tree
  import opened TreeSearch

  datatype ChildrenIter = ChildrenIter(kids: seq<TreeNode>, rest: seq<Entry>, curr: nat, depth: nat)

  /** A child node, its entry, and the index of the path component that names it. */
  datatype PathEntry = PathEntry(node: TreeNode, entry: Entry, depth: nat)

  /** One call of `ChildrenIter::next`. */
  datatype Step = Yield(item: PathEntry, after: ChildrenIter) | End | Crash

  /** What `PathEntry::path` gives: a normal name, another component, or a panic (no such component). */
  datatype Named = Named(name: OsName) | Unnamed | NoComponent

  /**
   * `SnapshotTree::children`: drops the root's entry from a fresh entry iterator
   * (panicking on an empty one) and walks the root's children at depth 0.
   */
  function TreeChildren(t: SnapshotTree, es: seq<Entry>): (r: Option<ChildrenIter>)
    ensures r.None? <==> |es| == 0
    ensures r.Some? ==> r.value.kids == t.root.children && r.value.rest == es[1..]
    ensures r.Some? ==> r.value.curr == 0 && r.value.depth == 0
  {
    if |es| == 0 then None else Some(ChildrenIter(t.root.children, es[1..], 0, 0))
  }

  /**
   * `NodeEntry::children`: the same for a found node, whose children are named
   * by the path component at the node's depth.
   */
  function NodeChildren(n: NodeEntry, es: seq<Entry>): (r: Option<ChildrenIter>)
    ensures r.None? <==> |es| == 0
    ensures r.Some? ==> r.value.kids == n.node.children && r.value.rest == es[1..]
    ensures r.Some? ==> r.value.curr == 0 && r.value.depth == n.depth
  {
    if |es| == 0 then None else Some(ChildrenIter(n.node.children, es[1..], 0, n.depth))
  }

  /**
   * `ChildrenIter::next`: takes the next child, skips `child.index - curr - 1`
   * entries and yields the one after them. The subtraction underflows when the
   * child's position is not past `curr`, and the `unwrap` fails when the entry
   * iterator runs out; both are crashes.
   */
  function Next(it: ChildrenIter): (r: Step)
    ensures |it.kids| == 0 ==> r.End?
    ensures r.Crash? <==> |it.kids| > 0 && !(it.curr < it.kids[0].index <= it.curr + |it.rest|)
    ensures r.Yield? ==> && r.item.node == it.kids[0]
                         && r.item.entry == it.rest[it.kids[0].index - it.curr - 1]
                         && r.item.depth == it.depth
                         && r.after.kids == it.kids[1..]
                         && r.after.curr == it.kids[0].index
                         && r.after.rest == it.rest[it.kids[0].index - it.curr..]
  {
    if |it.kids| == 0 then End
    else
      var child := it.kids[0];
      if child.index < it.curr + 1 then Crash
      else
        var skip := child.index - it.curr - 1;
        if skip >= |it.rest| then Crash
        else
          Yield(PathEntry(child, it.rest[skip], it.depth),
                ChildrenIter(it.kids[1..], it.rest[skip + 1..], it.curr + skip + 1, it.depth))
  }

  /**
   * Runs the iterator to its end: the items it yields and whether it stopped on
   * a crash instead of running out of children.
   */
  function Walk(it: ChildrenIter): (r: (seq<PathEntry>, bool))
    ensures |r.0| <= |it.kids|
    ensures !r.1 ==> |r.0| == |it.kids|
    decreases |it.kids|
  {
    match Next(it)
    case End => ([], false)
    case Crash => ([], true)
    case Yield(item, after) =>
      var w := Walk(after);
      ([item] + w.0, w.1)
  }

  /**
   * The iterator is in step with the entry list `es`: `rest` holds the entries
   * after position `curr`, and the children to come sit on increasing positions
   * past `curr` inside the list.
   */
  ghost predicate InStep(it: ChildrenIter, es: seq<Entry>)
  {
    && it.curr < |es|
    && it.rest == es[it.curr + 1..]
    && (forall k :: 0 <= k < |it.kids| ==> it.curr < it.kids[k].index < |es|)
    && (forall a, b :: 0 <= a < b < |it.kids| ==> it.kids[a].index < it.kids[b].index)
  }

  /**
   * The iterator keeps in step: an in-step iterator never crashes, yields the
   * next child with the entry at the child's position, and stays in step.
   */
  lemma NextInStep(it: ChildrenIter, es: seq<Entry>)
    requires InStep(it, es)
    ensures !Next(it).Crash?
    ensures Next(it).Yield? ==> && Next(it).item.entry == es[it.kids[0].index]
                                && InStep(Next(it).after, es)
  {
    if |it.kids| > 0 {
      var after := Next(it).after;
      forall k | 0 <= k < |after.kids|
        ensures after.curr < after.kids[k].index
      {
        assert after.kids[k] == it.kids[k + 1];
      }
      forall a, b | 0 <= a < b < |after.kids|
        ensures after.kids[a].index < after.kids[b].index
      {
        assert after.kids[a] == it.kids[a + 1] && after.kids[b] == it.kids[b + 1];
      }
    }
  }

  /**
   * The k-th item of an in-step walk is the k-th child paired with the entry at
   * that child's position, and the walk reaches every child.
   */
  lemma {:induction false} WalkPairs(it: ChildrenIter, es: seq<Entry>)
    requires InStep(it, es)
    ensures !Walk(it).1 && |Walk(it).0| == |it.kids|
    ensures forall k :: 0 <= k < |it.kids| ==>
              Walk(it).0[k] == PathEntry(it.kids[k], es[it.kids[k].index], it.depth)
    decreases |it.kids|
  {
    NextInStep(it, es);
    if |it.kids| > 0 {
      var after := Next(it).after;
      WalkPairs(after, es);
      var w := Walk(it).0;
      forall k | 0 < k < |it.kids|
        ensures w[k] == PathEntry(it.kids[k], es[it.kids[k].index], it.depth)
      {
        assert w[k] == Walk(after).0[k - 1];
        assert it.kids[k] == after.kids[k - 1];
      }
    }
  }

  /**
   * `PathEntry::path`: the path component at the entry's depth when it is a
   * normal name; `unwrap` panics when the path has no component there.
   */
  function PathName(p: PathEntry): (r: Named)
    ensures r.NoComponent? <==> |p.entry.path| <= p.depth
    ensures r.Named? <==> |p.entry.path| > p.depth && p.entry.path[p.depth].Normal?
    ensures r.Named? ==> r.name == p.entry.path[p.depth].name
  {
    if |p.entry.path| <= p.depth then NoComponent
    else match p.entry.path[p.depth]
      case Normal(name) => Named(name)
      case _ => Unnamed
  }

  /** The facts of `ShapedKids` by position. */
  lemma {:induction false} ShapedKidsAt(es: seq<Entry>, s: seq<TreeNode>, depth: nat)
    requires ShapedKids(es, s, depth)
    ensures forall k :: 0 <= k < |s| ==>
              s[k].index < |es| && |es[s[k].index].path| > depth && Shaped(es, s[k], depth + 1)
    decreases s
  {
    if |s| > 0 {
      ShapedKidsAt(es, s[1..], depth);
      forall k | 0 < k < |s|
        ensures s[k].index < |es| && |es[s[k].index].path| > depth && Shaped(es, s[k], depth + 1)
      {
        assert s[k] == s[1..][k - 1];
      }
    }
  }

  /**
   * The children iterator of a node of a built tree is in step with the
   * entries: its children sit on increasing positions past the node's own,
   * and each child's entry has a path component at the iterator's depth.
   */
  lemma ChildrenInStep(es: seq<Entry>, n: TreeNode, depth: nat)
    requires Consecutive(n) && Shaped(es, n, depth)
    ensures InStep(ChildrenIter(n.children, es[1..], 0, depth), es)
    ensures forall k :: 0 <= k < |n.children| ==> |es[n.children[k].index].path| > depth
  {
    var kids := n.children;
    SiblingsAt(kids, n.ino + 1, n.index + 1);
    SiblingsOrdered(kids, n.ino + 1, n.index + 1);
    ShapedKidsAt(es, kids, depth);
    forall a, b | 0 <= a < b < |kids|
      ensures kids[a].index < kids[b].index
    {
      InodesSpan(kids[a]);
    }
    forall k | 0 <= k < |kids|
      ensures 0 < kids[k].index
    {
      if k > 0 {
        InodesSpan(kids[0]);
      }
    }
  }

  /**
   * `Shaped` is inherited along the way down: a node `k` edges below a root
   * built at path depth 0 is shaped at path depth `k`, so its children are
   * named by component `k` (the depth `find_node` reports).
   */
  lemma {:induction false} DescendsShaped(es: seq<Entry>, n: TreeNode, m: TreeNode, depth: nat, k: nat, up: nat, parent: nat)
    requires Shaped(es, n, depth) && Consecutive(n) && Descends(n, m, k, up, parent)
    ensures Shaped(es, m, depth + k) && Consecutive(m)
    decreases k
  {
    if k > 0 {
      var i :| 0 <= i < |n.children| && Descends(n.children[i], m, k - 1, n.ino, parent);
      ShapedKidsAt(es, n.children, depth);
      SiblingsAt(n.children, n.ino + 1, n.index + 1);
      DescendsShaped(es, n.children[i], m, depth + 1, k - 1, n.ino, parent);
    }
  }

  /**
   * Listing a found node of a built tree: the walk neither crashes nor leaves
   * out a child, pairs the k-th child with the entry at its position, and every
   * name lookup on the way has its path component.
   */
  lemma FoundChildrenWalk(es: seq<Entry>, firstIno: nat, n: NodeEntry)
    requires |es| > 0
    requires Descends(NewTree(es, firstIno).root, n.node, n.depth, NewTree(es, firstIno).root.ino, n.parent)
    ensures !Walk(ChildrenIter(n.node.children, es[1..], 0, n.depth)).1
    ensures forall k :: 0 <= k < |n.node.children| ==> n.node.children[k].index < |es|
    ensures var w := Walk(ChildrenIter(n.node.children, es[1..], 0, n.depth)).0;
            && |w| == |n.node.children|
            && forall k :: 0 <= k < |w| ==>
                 w[k] == PathEntry(n.node.children[k], es[n.node.children[k].index], n.depth)
                 && !PathName(w[k]).NoComponent?
  {
    var t := NewTree(es, firstIno);
    NewTreeWellFormed(es, firstIno);
    DescendsShaped(es, t.root, n.node, 0, n.depth, t.root.ino, n.parent);
    ChildrenInStep(es, n.node, n.depth);
    WalkPairs(ChildrenIter(n.node.children, es[1..], 0, n.depth), es);
  }
}
