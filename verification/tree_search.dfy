/**
 * Finding a node by inode (`SnapshotTree::find_node` in `src/fs/tree.rs`):
 * starting at the root, the search stops at a node carrying the inode, gives
 * up when the inode lies outside the node's range, and otherwise picks the
 * child whose range holds the inode by `binary_search_by`.
 *
 * The comparator handed to `binary_search_by` is modelled in two
 * orientations: `AsWritten` answers `Less` when the inode lies before the
 * child's range, while the search expects the order of the probed child
 * relative to the target, which `Corrected` answers. Both are sound; only the
 * corrected one finds every node.
 */
module TreeSearch {
  import opened Wrappers
  import opened Signatures
  import opened TreeNodes
  import opened Tree

  datatype Ordering = Less | Equal | Greater

  /** `Result<usize, usize>` of a binary search: the match, or where the target would go. */
  datatype SearchResult = Found(index: nat) | NotFound(insertAt: nat)

  datatype Comparator = AsWritten | Corrected

  /**
   * A node found by `find_node`, its depth below the root, and the inode of the
   * node the search descended from into it (the root's own inode for the root).
   */
  datatype NodeEntry = NodeEntry(node: TreeNode, depth: nat, parent: nat)

  /** The comparator closure, applied to the child `c` for the target inode `ino`. */
  function Probe(c: TreeNode, ino: nat, cmp: Comparator): (o: Ordering)
    ensures o == Equal <==> Inodes(c).0 <= ino <= Inodes(c).1
    ensures cmp == Corrected ==> (o == Less ==> Inodes(c).1 < ino) && (o == Greater ==> ino < Inodes(c).0)
    ensures cmp == AsWritten ==> (o == Less ==> ino < Inodes(c).0) && (o == Greater ==> Inodes(c).1 < ino)
  {
    var (first, last) := Inodes(c);
    if ino < first then (if cmp == AsWritten then Less else Greater)
    else if ino > last then (if cmp == AsWritten then Greater else Less)
    else Equal
  }

  /** The comparator's answer for every child; the search looks at some of them. */
  function Probes(kids: seq<TreeNode>, ino: nat, cmp: Comparator): (ords: seq<Ordering>)
    ensures |ords| == |kids|
  {
    seq(|kids|, k requires 0 <= k < |kids| => Probe(kids[k], ino, cmp))
  }

  /**
   * `<[T]>::binary_search_by` over the comparator's answers `ords`, between
   * positions `lo` and `hi`: probe the element half-way in, and go right past
   * it on `Less`, left on `Greater`, stop on `Equal`.
   */
  function SearchBetween(ords: seq<Ordering>, lo: nat, hi: nat): (r: SearchResult)
    requires lo <= hi <= |ords|
    ensures r.Found? ==> lo <= r.index < hi && ords[r.index] == Equal
    ensures r.NotFound? ==> lo <= r.insertAt <= hi
    decreases hi - lo
  {
    if lo == hi then NotFound(lo)
    else
      var mid := lo + (hi - lo) / 2;
      match ords[mid]
      case Equal => Found(mid)
      case Less => SearchBetween(ords, mid + 1, hi)
      case Greater => SearchBetween(ords, lo, mid)
  }

  /** The search over the whole slice. */
  function BinarySearchBy(ords: seq<Ordering>): (r: SearchResult)
    ensures r.Found? ==> r.index < |ords| && ords[r.index] == Equal
    ensures r.NotFound? ==> r.insertAt <= |ords|
  {
    SearchBetween(ords, 0, |ords|)
  }

  /**
   * The search's contract: when the answers are `Less` before position `e`,
   * `Equal` at `e` and `Greater` after it, the search finds `e`.
   */
  lemma {:induction false} SearchFinds(ords: seq<Ordering>, lo: nat, hi: nat, e: nat)
    requires lo <= e < hi <= |ords| && ords[e] == Equal
    requires forall k :: lo <= k < e ==> ords[k] == Less
    requires forall k :: e < k < hi ==> ords[k] == Greater
    ensures SearchBetween(ords, lo, hi) == Found(e)
    decreases hi - lo
  {
    var mid := lo + (hi - lo) / 2;
    if mid < e {
      SearchFinds(ords, mid + 1, hi, e);
    } else if mid > e {
      SearchFinds(ords, lo, mid, e);
    }
  }

  /** The inode `ino` lies in the subtree of `n`, by the range `TreeNode::inodes` reports. */
  predicate InRange(n: TreeNode, ino: nat)
  {
    Inodes(n).0 <= ino <= Inodes(n).1
  }

  /**
   * `m` lies `k` edges below `n`, and `parent` is the inode of the node just
   * above `m` on the way down (`up` when `m` is `n` itself).
   */
  ghost predicate Descends(n: TreeNode, m: TreeNode, k: nat, up: nat, parent: nat)
    decreases k
  {
    if k == 0 then m == n && parent == up
    else exists i :: 0 <= i < |n.children| && Descends(n.children[i], m, k - 1, n.ino, parent)
  }

  /** A node below a child of `n` lies one edge deeper below `n`. */
  lemma DescendsStep(n: TreeNode, i: nat, m: TreeNode, k: nat, up: nat, parent: nat)
    requires i < |n.children| && Descends(n.children[i], m, k, n.ino, parent)
    ensures Descends(n, m, k + 1, up, parent)
  {
  }

  /**
   * `find_node_rec`: the node carrying `ino` in the subtree of `n`, searched
   * from depth `depth`, where `up` is the inode of the node above `n`. The
   * result carries the query inode, lies as deep below `n` as its depth says,
   * and knows the node it was reached from; a query outside the range of `n`
   * is not found.
   */
  function FindNodeRec(n: TreeNode, ino: nat, depth: nat, up: nat, cmp: Comparator): (r: Option<NodeEntry>)
    ensures r.Some? ==> r.value.node.ino == ino && depth <= r.value.depth
    ensures r.Some? ==> Descends(n, r.value.node, r.value.depth - depth, up, r.value.parent)
    ensures n.ino != ino && !InRange(n, ino) ==> r.None?
    decreases n
  {
    if n.ino == ino then Some(NodeEntry(n, depth, up))
    else if !InRange(n, ino) then None
    else
      match BinarySearchBy(Probes(n.children, ino, cmp))
      case Found(i) =>
        var r := FindNodeRec(n.children[i], ino, depth + 1, n.ino, cmp);
        if r.Some? then
          DescendsStep(n, i, r.value.node, r.value.depth - depth - 1, up, r.value.parent);
          r
        else r
      case NotFound(_) => None
  }

  /**
   * `SnapshotTree::find_node`, searching from the root at depth 0. `AsWritten`
   * is the source's comparator, `Corrected` the one `binary_search_by` expects;
   * either way a node found carries the inode asked for.
   */
  function FindNode(t: SnapshotTree, ino: nat, cmp: Comparator): (r: Option<NodeEntry>)
    ensures r.Some? ==> r.value.node.ino == ino && Descends(t.root, r.value.node, r.value.depth, t.root.ino, r.value.parent)
    ensures t.root.ino != ino && !InRange(t.root, ino) ==> r.None?
  {
    FindNodeRec(t.root, ino, 0, t.root.ino, cmp)
  }

  /** The ranges of gap-free siblings are ordered: each ends before any later one starts. */
  lemma {:induction false} SiblingsOrdered(s: seq<TreeNode>, ino: int, index: int)
    requires Siblings(s, ino, index)
    ensures forall a, b :: 0 <= a < b < |s| ==> LastIno(s[a]) < s[b].ino
    decreases s
  {
    if |s| > 1 {
      var size := LastIno(s[0]) + 1 - ino;
      var rest := s[1..];
      SiblingsOrdered(rest, ino + size, index + size);
      SiblingsAt(s, ino, index);
      InodesSpan(s[1]);
      forall a, b | 0 <= a < b < |s|
        ensures LastIno(s[a]) < s[b].ino
      {
        if a == 0 {
          if b > 1 {
            assert LastIno(rest[0]) < rest[b - 1].ino;
          }
        } else {
          assert LastIno(rest[a - 1]) < rest[b - 1].ino;
        }
      }
    }
  }

  /** The child of a run of siblings whose range holds an inode inside the run's range. */
  lemma {:induction false} ChildContaining(s: seq<TreeNode>, ino: int, index: int, target: nat) returns (e: nat)
    requires Siblings(s, ino, index) && |s| > 0
    requires ino <= target <= LastIno(s[|s| - 1])
    ensures e < |s| && s[e].ino <= target <= LastIno(s[e])
    decreases s
  {
    if target <= LastIno(s[0]) {
      e := 0;
    } else {
      var size := LastIno(s[0]) + 1 - ino;
      assert s[1..][|s| - 2] == s[|s| - 1];
      var e' := ChildContaining(s[1..], ino + size, index + size, target);
      e := e' + 1;
      assert s[e] == s[1..][e'];
    }
  }

  /**
   * Completeness of the corrected search: in a consecutively numbered subtree
   * every inode of its range is found.
   */
  lemma {:induction false} FindNodeRecComplete(n: TreeNode, ino: nat, depth: nat, up: nat)
    requires Consecutive(n) && InRange(n, ino)
    ensures FindNodeRec(n, ino, depth, up, Corrected).Some?
    decreases n
  {
    if n.ino != ino {
      var kids := n.children;
      assert |kids| > 0;
      assert LastIno(n) == LastIno(kids[|kids| - 1]);
      var e := ChildContaining(kids, n.ino + 1, n.index + 1, ino);
      SiblingsAt(kids, n.ino + 1, n.index + 1);
      SiblingsOrdered(kids, n.ino + 1, n.index + 1);
      InodesSpan(kids[e]);
      var ords := Probes(kids, ino, Corrected);
      forall k | 0 <= k < e
        ensures ords[k] == Less
      {
        InodesSpan(kids[k]);
        assert LastIno(kids[k]) < kids[e].ino;
      }
      forall k | e < k < |ords|
        ensures ords[k] == Greater
      {
        InodesSpan(kids[k]);
        assert LastIno(kids[e]) < kids[k].ino;
      }
      SearchFinds(ords, 0, |ords|, e);
      FindNodeRecComplete(kids[e], ino, depth + 1, n.ino);
    }
  }

  /**
   * In a consecutively numbered subtree the corrected search for inode
   * `n.ino + j` returns exactly the j-th node in pre-order.
   */
  lemma FindInFlatten(n: TreeNode, j: nat)
    requires Consecutive(n) && j < |Flatten(n)|
    ensures FindNodeRec(n, n.ino + j, 0, n.ino, Corrected).Some?
    ensures FindNodeRec(n, n.ino + j, 0, n.ino, Corrected).value.node == Flatten(n)[j]
  {
    FlattenNumbered(n);
    FindNodeRecComplete(n, n.ino + j, 0, n.ino);
    var e := FindNodeRec(n, n.ino + j, 0, n.ino, Corrected).value;
    DescendsInFlatten(n, e.node, e.depth, n.ino, e.parent);
    var f := Flatten(n);
    var p :| 0 <= p < |f| && f[p] == e.node;
    assert e.node.ino == n.ino + p;
  }

  /**
   * With the corrected comparator every node of a built tree is found by its
   * inode: the search for `firstIno + j` returns the node sitting on entry `j`.
   */
  lemma FindNodeComplete(es: seq<Entry>, firstIno: nat, j: nat)
    requires j < NodeCount(NewTree(es, firstIno))
    ensures FindNode(NewTree(es, firstIno), firstIno + j, Corrected).Some?
    ensures FindNode(NewTree(es, firstIno), firstIno + j, Corrected).value.node.index == j
  {
    NewTreeWellFormed(es, firstIno);
    NewTreeNumbered(es, firstIno);
    FindInFlatten(NewTree(es, firstIno).root, j);
  }

  /** A node reached by descending from `n` is one of the nodes of its subtree. */
  lemma {:induction false} DescendsInFlatten(n: TreeNode, m: TreeNode, k: nat, up: nat, parent: nat)
    requires Descends(n, m, k, up, parent)
    ensures m in Flatten(n)
    decreases k
  {
    if k > 0 {
      var i :| 0 <= i < |n.children| && Descends(n.children[i], m, k - 1, n.ino, parent);
      DescendsInFlatten(n.children[i], m, k - 1, n.ino, parent);
      InForest(n.children, i, m);
    }
  }

  lemma {:induction false} InForest(s: seq<TreeNode>, i: nat, m: TreeNode)
    requires i < |s| && m in Flatten(s[i])
    ensures m in Forest(s)
    decreases s
  {
    if i > 0 {
      InForest(s[1..], i - 1, m);
    }
  }

  /** Three leaves with inodes `f + 1`, `f + 2` and `f + 3` under a root with inode `f`. */
  function ThreeLeaves(f: nat): (t: SnapshotTree)
    ensures |t.root.children| == 3 && t.root.ino == f
    ensures forall k :: 0 <= k < 3 ==> t.root.children[k] == TreeNode(k + 1, f + k + 1, [])
  {
    SnapshotTree(TreeNode(0, f, [TreeNode(1, f + 1, []), TreeNode(2, f + 2, []), TreeNode(3, f + 3, [])]))
  }

  /**
   * A snapshot holding its root directory and three entries directly below it
   * builds, with inodes from `f`, the tree `ThreeLeaves(f)`; the root entry's
   * own path is never read, so it may be anything.
   */
  lemma ThreeLeavesBuilt(es: seq<Entry>, f: nat)
    requires |es| == 4
    requires |es[1].path| == 1 && |es[2].path| == 1 && |es[3].path| == 1
    ensures NewTree(es, f) == ThreeLeaves(f)
  {
    var a, b, c := TreeNode(1, f + 1, []), TreeNode(2, f + 2, []), TreeNode(3, f + 3, []);
    assert BuildNode(es, 1, 1, f + 1, 1) == Built(a, 2) by {
      assert NewChildren(es, 1, 2, f + 2, 2) == BuiltKids([], 2);
    }
    assert BuildNode(es, 1, 2, f + 2, 2) == Built(b, 3) by {
      assert NewChildren(es, 1, 3, f + 3, 3) == BuiltKids([], 3);
    }
    assert BuildNode(es, 1, 3, f + 3, 3) == Built(c, 4) by {
      assert NewChildren(es, 1, 4, f + 4, 4) == BuiltKids([], 4);
    }
    assert NewChildren(es, 0, 4, f + 4, 4) == BuiltKids([], 4);
    assert NewChildren(es, 0, 3, f + 3, 3) == BuiltKids([c], 4);
    assert NewChildren(es, 0, 2, f + 2, 2) == BuiltKids([b, c], 4);
    assert NewChildren(es, 0, 1, f + 1, 1) == BuiltKids([a, b, c], 4);
    assert BuildNode(es, 0, 0, f, 0) == Built(TreeNode(0, f, [a, b, c]), 4);
  }

  /**
   * The comparator as written misses nodes: in `ThreeLeaves(f)` the first leaf
   * has inode `f + 1`. The as-written search answers `[Equal, Less, Less]` for
   * the three children, probes the middle one, reads `Less` and goes right,
   * past the child it wanted, and finds nothing.
   */
  lemma AsWrittenMissesFirstChild(f: nat)
    ensures FindNode(ThreeLeaves(f), f + 1, AsWritten).None?
  {
    var root := ThreeLeaves(f).root;
    assert root == TreeNode(0, f, [TreeNode(1, f + 1, []), TreeNode(2, f + 2, []), TreeNode(3, f + 3, [])]);
    assert Inodes(root.children[2]) == (f + 3, f + 3);
    assert Inodes(root) == (f, f + 3);
    assert Probes(root.children, f + 1, AsWritten) == [Equal, Less, Less];
    assert SearchBetween([Equal, Less, Less], 2, 3) == NotFound(3);
  }

  /** On the same tree the corrected comparator answers `[Equal, Greater, Greater]` and finds the leaf. */
  lemma CorrectedFindsFirstChild(f: nat)
    ensures FindNode(ThreeLeaves(f), f + 1, Corrected) == Some(NodeEntry(TreeNode(1, f + 1, []), 1, f))
  {
    var root := ThreeLeaves(f).root;
    assert root == TreeNode(0, f, [TreeNode(1, f + 1, []), TreeNode(2, f + 2, []), TreeNode(3, f + 3, [])]);
    assert Inodes(root.children[2]) == (f + 3, f + 3);
    assert Inodes(root) == (f, f + 3);
    assert Probes(root.children, f + 1, Corrected) == [Equal, Greater, Greater];
    assert SearchBetween([Equal, Greater, Greater], 0, 1) == Found(0);
    assert BinarySearchBy(Probes(root.children, f + 1, Corrected)) == Found(0);
    assert FindNodeRec(root.children[0], f + 1, 1, f, Corrected) == Some(NodeEntry(TreeNode(1, f + 1, []), 1, f));
  }

  /**
   * The same miss on any signature of that shape: the tree built from it has
   * four nodes, and the as-written search does not find inode `f + 1`.
   */
  lemma AsWrittenMissesBuilt(es: seq<Entry>, f: nat)
    requires |es| == 4
    requires |es[1].path| == 1 && |es[2].path| == 1 && |es[3].path| == 1
    ensures NodeCount(NewTree(es, f)) == 4
    ensures FindNode(NewTree(es, f), f + 1, AsWritten).None?
  {
    ThreeLeavesBuilt(es, f);
    NewTreeCount(es, f);
    AsWrittenMissesFirstChild(f);
  }
}
