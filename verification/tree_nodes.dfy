/**
 * The nodes of the snapshot tree (`TreeNode` in `src/fs/tree.rs`) and the
 * numbering they carry. Each node remembers the position of its entry in the
 * snapshot's entry list (`index`) and its inode number (`ino`). A built tree
 * hands out inodes in pre-order, so every subtree owns one contiguous inode
 * range and the ranges of siblings follow each other without gaps; the
 * predicates here state that shape and the lemmas read it back as ranges.
 */
module TreeNodes {
  import opened Signatures

  datatype TreeNode = TreeNode(index: nat, ino: nat, children: seq<TreeNode>)

  /** The nodes of a subtree in pre-order. */
  function Flatten(n: TreeNode): (r: seq<TreeNode>)
    ensures |r| >= 1 && r[0] == n
    decreases n
  {
    [n] + Forest(n.children)
  }

  /** The nodes of a sequence of sibling subtrees in pre-order. */
  function Forest(s: seq<TreeNode>): seq<TreeNode>
    decreases s
  {
    if s == [] then [] else Flatten(s[0]) + Forest(s[1..])
  }

  /** The second half of `TreeNode::inodes`: the inode reached by following last children. */
  function LastIno(n: TreeNode): nat
    decreases n
  {
    if |n.children| == 0 then n.ino else LastIno(n.children[|n.children| - 1])
  }

  /** `TreeNode::inodes`: the first and the last inode of the subtree. */
  function Inodes(n: TreeNode): (r: (nat, nat))
    ensures r.0 == n.ino
  {
    (n.ino, LastIno(n))
  }

  /**
   * The numbering of a built subtree: the first child directly follows its
   * parent (in inode and in entry position), and the children form `Siblings`.
   */
  ghost predicate Consecutive(n: TreeNode)
    decreases n
  {
    Siblings(n.children, n.ino + 1, n.index + 1)
  }

  /**
   * A run of sibling subtrees numbered from inode `ino` and entry position
   * `index` onwards without gaps: each subtree is `Consecutive`, and the next
   * one starts right after the last inode of the previous one.
   */
  ghost predicate Siblings(s: seq<TreeNode>, ino: int, index: int)
    decreases s
  {
    |s| > 0 ==>
      && s[0].ino == ino && s[0].index == index
      && Consecutive(s[0])
      && Siblings(s[1..], LastIno(s[0]) + 1, index + (LastIno(s[0]) + 1 - ino))
  }

  /**
   * How a subtree built at path depth `depth` sits on the entry list: its
   * entry exists, and the entry of every child has a path component at index
   * `depth` (so the grandchildren have one at `depth + 1`).
   */
  ghost predicate Shaped(es: seq<Entry>, n: TreeNode, depth: nat)
    decreases n
  {
    && n.index < |es|
    && ShapedKids(es, n.children, depth)
  }

  /** Every subtree of `s` is `Shaped` one level below `depth`, and its entry reaches `depth`. */
  ghost predicate ShapedKids(es: seq<Entry>, s: seq<TreeNode>, depth: nat)
    decreases s
  {
    |s| > 0 ==>
      && s[0].index < |es|
      && |es[s[0].index].path| > depth
      && Shaped(es, s[0], depth + 1)
      && ShapedKids(es, s[1..], depth)
  }

  /** Every entry in `es[from..to]` has a path component at index `depth`. */
  ghost predicate Deeper(es: seq<Entry>, from: nat, to: nat, depth: nat)
    requires from <= to <= |es|
  {
    forall j :: from <= j < to ==> |es[j].path| > depth
  }

  lemma DeeperJoin(es: seq<Entry>, a: nat, b: nat, c: nat, depth: nat)
    requires a < b <= c <= |es|
    requires |es[a].path| > depth
    requires Deeper(es, a + 1, b, depth + 1) && Deeper(es, b, c, depth)
    ensures Deeper(es, a, c, depth)
  {
  }

  lemma SiblingsCons(c: TreeNode, rest: seq<TreeNode>, ino: int, index: int, size: int)
    requires Consecutive(c) && c.ino == ino && c.index == index && LastIno(c) == ino + size - 1
    requires Siblings(rest, ino + size, index + size)
    ensures Siblings([c] + rest, ino, index)
  {
    assert ([c] + rest)[1..] == rest;
  }

  lemma ShapedKidsCons(es: seq<Entry>, c: TreeNode, rest: seq<TreeNode>, depth: nat)
    requires c.index < |es| && |es[c.index].path| > depth
    requires Shaped(es, c, depth + 1)
    requires ShapedKids(es, rest, depth)
    ensures ShapedKids(es, [c] + rest, depth)
  {
    assert ([c] + rest)[1..] == rest;
  }

  /**
   * Pre-order numbering: the j-th node of a consecutive subtree has inode
   * `n.ino + j` and entry position `n.index + j`, and the subtree has exactly
   * as many nodes as its inode range `Inodes(n)` has inodes.
   */
  lemma {:induction false} FlattenNumbered(n: TreeNode)
    requires Consecutive(n)
    ensures |Flatten(n)| == LastIno(n) - n.ino + 1
    ensures forall j :: 0 <= j < |Flatten(n)| ==>
              Flatten(n)[j].ino == n.ino + j && Flatten(n)[j].index == n.index + j
    decreases n, 1
  {
    var kids := n.children;
    ForestNumbered(kids, n.ino + 1, n.index + 1);
    var f := Flatten(n);
    assert f == [n] + Forest(kids);
    forall j | 0 < j < |f|
      ensures f[j].ino == n.ino + j && f[j].index == n.index + j
    {
      assert f[j] == Forest(kids)[j - 1];
    }
  }

  /** `FlattenNumbered` for a run of siblings starting at inode `ino` and entry position `index`. */
  lemma {:induction false} ForestNumbered(s: seq<TreeNode>, ino: int, index: int)
    requires Siblings(s, ino, index)
    ensures |Forest(s)| == if |s| == 0 then 0 else LastIno(s[|s| - 1]) - ino + 1
    ensures forall j :: 0 <= j < |Forest(s)| ==>
              Forest(s)[j].ino == ino + j && Forest(s)[j].index == index + j
    decreases s, 0
  {
    if |s| > 0 {
      var head := s[0];
      var rest := s[1..];
      var size := LastIno(head) + 1 - ino;
      FlattenNumbered(head);
      ForestNumbered(rest, ino + size, index + size);
      assert |rest| > 0 ==> rest[|rest| - 1] == s[|s| - 1];
      var f := Forest(s);
      assert f == Flatten(head) + Forest(rest);
      forall j | 0 <= j < |f|
        ensures f[j].ino == ino + j && f[j].index == index + j
      {
        if j >= size {
          assert f[j] == Forest(rest)[j - size];
        }
      }
    }
  }

  /** The subtree range read back from the numbering: it starts at `n.ino` and counts the subtree's nodes. */
  lemma InodesSpan(n: TreeNode)
    requires Consecutive(n)
    ensures Inodes(n) == (n.ino, n.ino + |Flatten(n)| - 1)
    ensures Inodes(n).0 <= Inodes(n).1
  {
    FlattenNumbered(n);
  }

  /**
   * The facts of `Siblings` by position: every sibling is `Consecutive` and
   * keeps the offset between inode and entry position, the first one starts
   * at `ino`, and each next one starts right after the previous one's range.
   */
  lemma {:induction false} SiblingsAt(s: seq<TreeNode>, ino: int, index: int)
    requires Siblings(s, ino, index)
    ensures |s| > 0 ==> s[0].ino == ino && s[0].index == index
    ensures forall k :: 0 <= k < |s| ==> Consecutive(s[k]) && s[k].ino - s[k].index == ino - index
    ensures forall k :: 0 <= k < |s| - 1 ==> s[k + 1].ino == LastIno(s[k]) + 1
    decreases s
  {
    if |s| > 0 {
      var size := LastIno(s[0]) + 1 - ino;
      SiblingsAt(s[1..], ino + size, index + size);
      forall k | 0 < k < |s|
        ensures Consecutive(s[k]) && s[k].ino - s[k].index == ino - index
      {
        assert s[k] == s[1..][k - 1];
      }
      forall k | 0 < k < |s| - 1
        ensures s[k + 1].ino == LastIno(s[k]) + 1
      {
        assert s[k] == s[1..][k - 1] && s[k + 1] == s[1..][k];
      }
    }
  }
}
