/**
 * Building the snapshot tree (`SnapshotTree::new`, `TreeNode::new`,
 * `TreeNode::new_children` in `src/fs/tree.rs`). The snapshot's entry list is
 * assumed to be in pre-order: every directory is immediately followed by its
 * descendants. The peekable entry iterator is modelled by the entry list `es`
 * and the position `pos` of the entry it would yield next; each builder
 * returns the position it leaves the iterator at.
 */
module Tree {
  import opened Wrappers
  import opened Signatures
  import opened TreeNodes

  /** A node built from the entry iterator, and the iterator position after its subtree. */
  datatype Built = Built(node: TreeNode, next: nat)

  /** The children built from the entry iterator, and the iterator position after them. */
  datatype BuiltKids = BuiltKids(kids: seq<TreeNode>, next: nat)

  /** The root node stands for the snapshot's own entry; only its children are listed. */
  datatype SnapshotTree = SnapshotTree(root: TreeNode)

  /** The number of nodes of a tree, the root included. */
  function NodeCount(t: SnapshotTree): nat
  {
    |Flatten(t.root)|
  }

  /**
   * `TreeNode::new` once the iterator is known to hold an entry: the node takes
   * the entry at `pos`, then collects the following entries that have a path
   * component at index `pathDepth` as its children.
   */
  function BuildNode(es: seq<Entry>, pathDepth: nat, index: nat, ino: nat, pos: nat): (r: Built)
    requires pos < |es|
    ensures pos < r.next <= |es|
    ensures r.node.index == index && r.node.ino == ino
    ensures LastIno(r.node) == ino + (r.next - pos) - 1
    ensures Deeper(es, pos + 1, r.next, pathDepth)
    ensures r.next == |es| || |es[r.next].path| <= pathDepth
    decreases |es| - pos, 0
  {
    var b := NewChildren(es, pathDepth, index + 1, ino + 1, pos + 1);
    var node := TreeNode(index, ino, b.kids);
    assert |b.kids| > 0 ==> LastIno(node) == LastIno(b.kids[|b.kids| - 1]);
    Built(node, b.next)
  }

  /**
   * `TreeNode::new`: `None` when the iterator is exhausted, otherwise the node
   * for the next entry together with the iterator position after its subtree.
   */
  function NewNode(es: seq<Entry>, pathDepth: nat, index: nat, ino: nat, pos: nat): (r: (Option<TreeNode>, nat))
    requires pos <= |es|
    ensures r.0.None? <==> pos == |es|
    ensures r.0.None? ==> r.1 == pos
    ensures r.0.Some? ==> pos < r.1 <= |es| && r.0.value.index == index && r.0.value.ino == ino
    ensures r.0.Some? ==> LastIno(r.0.value) == ino + (r.1 - pos) - 1
  {
    if pos == |es| then (None, pos)
    else
      var b := BuildNode(es, pathDepth, index, ino, pos);
      (Some(b.node), b.next)
  }

  /**
   * `TreeNode::new_children`: builds children while the next entry has a path
   * component at index `pathDepth`; after each child, `index` and `ino` advance
   * by the number of inodes the child used. The child is built by `BuildNode`
   * directly: the peek has just shown an entry, so the source's `None => break`
   * arm cannot be taken.
   */
  function NewChildren(es: seq<Entry>, pathDepth: nat, index: nat, ino: nat, pos: nat): (r: BuiltKids)
    requires pos <= |es|
    ensures pos <= r.next <= |es|
    ensures |r.kids| == 0 <==> r.next == pos
    ensures |r.kids| > 0 ==> LastIno(r.kids[|r.kids| - 1]) == ino + (r.next - pos) - 1
    ensures Deeper(es, pos, r.next, pathDepth)
    ensures r.next == |es| || |es[r.next].path| <= pathDepth
    decreases |es| - pos, 1
  {
    if pos == |es| || |es[pos].path| <= pathDepth then BuiltKids([], pos)
    else
      var child := BuildNode(es, pathDepth + 1, index, ino, pos);
      var childEntries := LastIno(child.node) - ino + 1;
      var rest := NewChildren(es, pathDepth, index + childEntries, ino + childEntries, child.next);
      var kids := [child.node] + rest.kids;
      DeeperJoin(es, pos, child.next, rest.next, pathDepth);
      assert LastIno(kids[|kids| - 1]) == ino + (rest.next - pos) - 1 by {
        if |rest.kids| > 0 {
          assert kids[|kids| - 1] == rest.kids[|rest.kids| - 1];
        }
      }
      BuiltKids(kids, rest.next)
  }

  /** One round of the loop of `NewChildren`: the child built at `pos`, then the rest. */
  lemma NewChildrenStep(es: seq<Entry>, pathDepth: nat, index: nat, ino: nat, pos: nat)
    returns (child: TreeNode, next: nat, childEntries: nat)
    requires pos < |es| && |es[pos].path| > pathDepth
    ensures child == BuildNode(es, pathDepth + 1, index, ino, pos).node
    ensures next == BuildNode(es, pathDepth + 1, index, ino, pos).next
    ensures childEntries == next - pos && LastIno(child) == ino + childEntries - 1
    ensures NewChildren(es, pathDepth, index, ino, pos).kids
              == [child] + NewChildren(es, pathDepth, index + childEntries, ino + childEntries, pos + childEntries).kids
  {
    child := BuildNode(es, pathDepth + 1, index, ino, pos).node;
    next := BuildNode(es, pathDepth + 1, index, ino, pos).next;
    childEntries := next - pos;
  }

  /** A built subtree is numbered in pre-order (see `TreeNodes.Consecutive`). */
  lemma {:induction false} BuildNodeConsecutive(es: seq<Entry>, pathDepth: nat, index: nat, ino: nat, pos: nat)
    requires pos < |es|
    ensures Consecutive(BuildNode(es, pathDepth, index, ino, pos).node)
    decreases |es| - pos, 0
  {
    NewChildrenSiblings(es, pathDepth, index + 1, ino + 1, pos + 1);
  }

  /** Built children are numbered as gap-free siblings from `ino` and `index` on. */
  lemma {:induction false} NewChildrenSiblings(es: seq<Entry>, pathDepth: nat, index: nat, ino: nat, pos: nat)
    requires pos <= |es|
    ensures Siblings(NewChildren(es, pathDepth, index, ino, pos).kids, ino, index)
    decreases |es| - pos, 1
  {
    if pos < |es| && |es[pos].path| > pathDepth {
      var child, next, childEntries := NewChildrenStep(es, pathDepth, index, ino, pos);
      BuildNodeConsecutive(es, pathDepth + 1, index, ino, pos);
      NewChildrenSiblings(es, pathDepth, index + childEntries, ino + childEntries, pos + childEntries);
      var rest := NewChildren(es, pathDepth, index + childEntries, ino + childEntries, pos + childEntries).kids;
      SiblingsCons(child, rest, ino, index, childEntries);
    }
  }

  /**
   * A subtree built from entry `index` (with the iterator in step, `pos == index`)
   * is `Shaped`: each child's entry has the path component the loop peeked at.
   */
  lemma {:induction false} BuildNodeShaped(es: seq<Entry>, pathDepth: nat, index: nat, ino: nat)
    requires index < |es|
    ensures Shaped(es, BuildNode(es, pathDepth, index, ino, index).node, pathDepth)
    decreases |es| - index, 0
  {
    NewChildrenShaped(es, pathDepth, index + 1, ino + 1);
  }

  lemma {:induction false} NewChildrenShaped(es: seq<Entry>, pathDepth: nat, index: nat, ino: nat)
    requires index <= |es|
    ensures ShapedKids(es, NewChildren(es, pathDepth, index, ino, index).kids, pathDepth)
    decreases |es| - index, 1
  {
    if index < |es| && |es[index].path| > pathDepth {
      var child, next, childEntries := NewChildrenStep(es, pathDepth, index, ino, index);
      BuildNodeShaped(es, pathDepth + 1, index, ino);
      NewChildrenShaped(es, pathDepth, index + childEntries, ino + childEntries);
      var rest := NewChildren(es, pathDepth, index + childEntries, ino + childEntries, index + childEntries).kids;
      ShapedKidsCons(es, child, rest, pathDepth);
    }
  }

  /**
   * `SnapshotTree::new` over an entry list that was read successfully: the root
   * takes the first entry, at path depth 0, with inode `firstIno`; an empty list
   * gives a childless placeholder root with that inode.
   */
  function NewTree(es: seq<Entry>, firstIno: nat): (t: SnapshotTree)
    ensures t.root.index == 0 && t.root.ino == firstIno
    ensures |es| == 0 ==> t.root.children == []
  {
    match NewNode(es, 0, 0, firstIno, 0).0
    case Some(root) => SnapshotTree(root)
    case None => SnapshotTree(TreeNode(0, firstIno, []))
  }

  /** `SnapshotTree::inodes`: the inode range of the root's children, if it has any. */
  function TreeInodes(t: SnapshotTree): (r: Option<(nat, nat)>)
    ensures r.None? <==> |t.root.children| == 0
  {
    if |t.root.children| == 0 then None
    else Some((Inodes(t.root.children[0]).0, Inodes(t.root.children[|t.root.children| - 1]).1))
  }

  /** The root of a built tree is numbered in pre-order and its children sit on their entries. */
  lemma NewTreeWellFormed(es: seq<Entry>, firstIno: nat)
    ensures Consecutive(NewTree(es, firstIno).root)
    ensures Shaped(es, NewTree(es, firstIno).root, 0) <==> |es| > 0
  {
    if |es| > 0 {
      BuildNodeConsecutive(es, 0, 0, firstIno, 0);
      BuildNodeShaped(es, 0, 0, firstIno);
    }
  }

  /**
   * Every node of a built tree sits on its own entry: the j-th node in
   * pre-order has entry position `j` and inode `firstIno + j`.
   */
  lemma NewTreeNumbered(es: seq<Entry>, firstIno: nat)
    ensures forall j :: 0 <= j < NodeCount(NewTree(es, firstIno)) ==>
              && Flatten(NewTree(es, firstIno).root)[j].index == j
              && Flatten(NewTree(es, firstIno).root)[j].ino == firstIno + j
  {
    NewTreeWellFormed(es, firstIno);
    FlattenNumbered(NewTree(es, firstIno).root);
  }

  /**
   * Each node consumes exactly one entry, so a tree has as many nodes as the
   * entries it took: the root's entry and then every entry up to the first
   * later one without path components (or the end of the list). In particular
   * a list whose later entries all have a path yields one node per entry, and
   * an empty list yields the lone placeholder root.
   */
  lemma NewTreeCount(es: seq<Entry>, firstIno: nat)
    ensures |es| == 0 ==> NodeCount(NewTree(es, firstIno)) == 1
    ensures |es| > 0 ==> NodeCount(NewTree(es, firstIno)) <= |es|
    ensures forall j :: 1 <= j < NodeCount(NewTree(es, firstIno)) && j < |es| ==> |es[j].path| > 0
    ensures NodeCount(NewTree(es, firstIno)) < |es| ==> |es[NodeCount(NewTree(es, firstIno))].path| == 0
    ensures |es| > 0 && (forall j :: 1 <= j < |es| ==> |es[j].path| > 0) ==> NodeCount(NewTree(es, firstIno)) == |es|
  {
    var t := NewTree(es, firstIno);
    NewTreeWellFormed(es, firstIno);
    FlattenNumbered(t.root);
    if |es| > 0 {
      var b := BuildNode(es, 0, 0, firstIno, 0);
      assert t.root == b.node;
      assert NodeCount(t) == b.next;
      if b.next < |es| {
        assert |es[b.next].path| == 0;
      }
    }
  }

  /**
   * `SnapshotTree::inodes` of a built tree is `None` exactly when the root is the
   * only node; otherwise it runs from the inode after the root's to the last
   * inode of the tree, so it covers every node but the root.
   */
  lemma TreeInodesSpan(es: seq<Entry>, firstIno: nat)
    ensures TreeInodes(NewTree(es, firstIno)).None? <==> NodeCount(NewTree(es, firstIno)) == 1
    ensures TreeInodes(NewTree(es, firstIno)).Some? ==>
              TreeInodes(NewTree(es, firstIno)).value == (firstIno + 1, firstIno + NodeCount(NewTree(es, firstIno)) - 1)
  {
    var t := NewTree(es, firstIno);
    NewTreeWellFormed(es, firstIno);
    FlattenNumbered(t.root);
    var kids := t.root.children;
    if |kids| > 0 {
      SiblingsAt(kids, firstIno + 1, 1);
      assert LastIno(t.root) == LastIno(kids[|kids| - 1]);
    }
  }
}
