/**
 * An ordered multi-way tree of project items (the role ProjectTreeModel and
 * ProjectTreeNode play). Nodes are addressed by their path of child indices
 * from the root, since the model has no node references.
 */
module ProjectTree {
  import opened Wrappers
  import opened ProjectItem

  /** A node: its item and its ordered children. */
  datatype TreeNode = TreeNode(item: Item, children: seq<TreeNode>)

  /** The items of a tree in pre-order: a node before its children, children left to right. */
  function PreOrder(t: TreeNode): (r: seq<Item>)
    ensures |r| >= 1 && r[0] == t.item
  {
    [t.item] + PreOrderList(t.children)
  }

  /** The pre-orders of a sequence of sibling subtrees, one after the other. */
  function PreOrderList(ts: seq<TreeNode>): seq<Item>
  {
    if ts == [] then [] else PreOrderList(ts[..|ts| - 1]) + PreOrder(ts[|ts| - 1])
  }

  /** The tree with every item's id cleared: what two trees share when they differ only in ids. */
  function Unid(t: TreeNode): TreeNode
  {
    TreeNode(t.item.(id := None), UnidAll(t.children))
  }

  function UnidAll(ts: seq<TreeNode>): (r: seq<TreeNode>)
    ensures |r| == |ts|
  {
    if ts == [] then [] else UnidAll(ts[..|ts| - 1]) + [Unid(ts[|ts| - 1])]
  }

  lemma UnidAllSnoc(ts: seq<TreeNode>, t: TreeNode)
    ensures UnidAll(ts + [t]) == UnidAll(ts) + [Unid(t)]
  {
    assert (ts + [t])[..|ts|] == ts;
  }

  /** Number of nodes, the root included. */
  function NodeCount(t: TreeNode): nat
  {
    |PreOrder(t)|
  }

  lemma {:induction false} PreOrderListAppend(a: seq<TreeNode>, b: seq<TreeNode>)
    ensures PreOrderList(a + b) == PreOrderList(a) + PreOrderList(b)
    decreases |b|
  {
    if b == [] {
      assert a + b == a;
    } else {
      var n := |b| - 1;
      assert (a + b)[..|a + b| - 1] == a + b[..n];
      assert (a + b)[|a + b| - 1] == b[n];
      PreOrderListAppend(a, b[..n]);
    }
  }

  /** Every id in the tree is set (no item still carries Java's null id). */
  predicate AllIdsSet(t: TreeNode)
  {
    forall it | it in PreOrder(t) :: it.id.Some?
  }

  /** A node position: the child indices taken from the root. */
  type TreePath = seq<nat>

  predicate ValidPath(t: TreeNode, p: TreePath)
    decreases p
  {
    p == [] || (p[0] < |t.children| && ValidPath(t.children[p[0]], p[1..]))
  }

  function NodeAt(t: TreeNode, p: TreePath): TreeNode
    requires ValidPath(t, p)
    decreases p
  {
    if p == [] then t else NodeAt(t.children[p[0]], p[1..])
  }

  predicate IsPrefix(a: TreePath, b: TreePath)
  {
    |a| <= |b| && b[..|a|] == a
  }

  /** The tree with the subtree at `p` replaced by `s`. */
  function ReplaceAt(t: TreeNode, p: TreePath, s: TreeNode): (r: TreeNode)
    requires ValidPath(t, p)
    ensures ValidPath(r, p) && NodeAt(r, p) == s
    ensures p != [] ==> r.item == t.item && |r.children| == |t.children|
    decreases p
  {
    if p == [] then s
    else
      var i := p[0];
      var r := t.(children := t.children[i := ReplaceAt(t.children[i], p[1..], s)]);
      assert r.children[i] == ReplaceAt(t.children[i], p[1..], s);
      r
  }

  /** Replacing a subtree changes the node count by the difference of the two subtrees' counts. */
  lemma {:induction false} ReplaceAtCount(t: TreeNode, p: TreePath, s: TreeNode)
    requires ValidPath(t, p)
    ensures NodeCount(ReplaceAt(t, p, s)) + NodeCount(NodeAt(t, p)) == NodeCount(t) + NodeCount(s)
    decreases p
  {
    if p != [] {
      var i := p[0];
      var cs := t.children;
      var c' := ReplaceAt(cs[i], p[1..], s);
      ReplaceAtCount(cs[i], p[1..], s);
      assert cs == cs[..i] + [cs[i]] + cs[i + 1..];
      assert cs[i := c'] == cs[..i] + [c'] + cs[i + 1..];
      PreOrderListAppend(cs[..i] + [cs[i]], cs[i + 1..]);
      PreOrderListAppend(cs[..i], [cs[i]]);
      PreOrderListAppend(cs[..i] + [c'], cs[i + 1..]);
      PreOrderListAppend(cs[..i], [c']);
      assert PreOrderList([cs[i]]) == PreOrder(cs[i]) by { assert [cs[i]][..0] == []; }
      assert PreOrderList([c']) == PreOrder(c') by { assert [c'][..0] == []; }
    }
  }

  /** Replacing a subtree leaves every node off the path to it as it was. */
  lemma {:induction false} ReplaceAtElsewhere(t: TreeNode, p: TreePath, s: TreeNode, q: TreePath)
    requires ValidPath(t, p) && ValidPath(t, q)
    requires !IsPrefix(p, q) && !IsPrefix(q, p)
    ensures ValidPath(ReplaceAt(t, p, s), q) && NodeAt(ReplaceAt(t, p, s), q) == NodeAt(t, q)
    decreases p
  {
    var r := ReplaceAt(t, p, s);
    assert p != [] && q != [];
    if p[0] != q[0] {
      assert r.children[q[0]] == t.children[q[0]];
    } else {
      assert !IsPrefix(p[1..], q[1..]) && !IsPrefix(q[1..], p[1..]);
      ReplaceAtElsewhere(t.children[p[0]], p[1..], s, q[1..]);
    }
  }

  /**
   * Replacing a subtree leaves every ancestor's item, child count and other
   * children as they were.
   */
  lemma {:induction false} ReplaceAtAbove(t: TreeNode, p: TreePath, s: TreeNode, q: TreePath)
    requires ValidPath(t, p) && IsPrefix(q, p) && |q| < |p|
    ensures ValidPath(t, q) && ValidPath(ReplaceAt(t, p, s), q)
    ensures var a, b := NodeAt(ReplaceAt(t, p, s), q), NodeAt(t, q);
      a.item == b.item && |a.children| == |b.children| &&
      forall j | 0 <= j < |b.children| && j != p[|q|] :: a.children[j] == b.children[j]
    decreases q
  {
    if q != [] {
      assert IsPrefix(q[1..], p[1..]);
      ReplaceAtAbove(t.children[p[0]], p[1..], s, q[1..]);
    }
  }

  /** The tree with `n` appended as the last child of the node at `p`. */
  function InsertLast(t: TreeNode, p: TreePath, n: TreeNode): (r: TreeNode)
    requires ValidPath(t, p)
    ensures ValidPath(r, p)
    ensures NodeAt(r, p).item == NodeAt(t, p).item
    ensures NodeAt(r, p).children == NodeAt(t, p).children + [n]
  {
    var at := NodeAt(t, p);
    ReplaceAt(t, p, at.(children := at.children + [n]))
  }

  /** Appending a leaf adds exactly one node. */
  lemma InsertLastCount(t: TreeNode, p: TreePath, n: TreeNode)
    requires ValidPath(t, p) && n.children == []
    ensures NodeCount(InsertLast(t, p, n)) == NodeCount(t) + 1
  {
    var at := NodeAt(t, p);
    ReplaceAtCount(t, p, at.(children := at.children + [n]));
    PreOrderListAppend(at.children, [n]);
    assert PreOrderList([n]) == PreOrder(n) by { assert [n][..0] == []; }
    assert PreOrderList(n.children) == [];
  }

  /** The tree with the subtree at `p` (not the root) detached from its parent. */
  function RemoveAt(t: TreeNode, p: TreePath): (r: TreeNode)
    requires ValidPath(t, p) && p != []
    ensures var parent, i := p[..|p| - 1], p[|p| - 1];
      ValidPath(t, parent) && ValidPath(r, parent) && i < |NodeAt(t, parent).children| &&
      NodeAt(r, parent).item == NodeAt(t, parent).item &&
      NodeAt(r, parent).children == NodeAt(t, parent).children[..i] + NodeAt(t, parent).children[i + 1..]
  {
    var parent, i := p[..|p| - 1], p[|p| - 1];
    ParentPathValid(t, p);
    var at := NodeAt(t, parent);
    ReplaceAt(t, parent, at.(children := at.children[..i] + at.children[i + 1..]))
  }

  lemma {:induction false} ParentPathValid(t: TreeNode, p: TreePath)
    requires ValidPath(t, p) && p != []
    ensures ValidPath(t, p[..|p| - 1])
    ensures p[|p| - 1] < |NodeAt(t, p[..|p| - 1]).children|
    ensures NodeAt(t, p) == NodeAt(t, p[..|p| - 1]).children[p[|p| - 1]]
    decreases p
  {
    if |p| > 1 {
      assert p[1..][..|p[1..]| - 1] == p[..|p| - 1][1..];
      ParentPathValid(t.children[p[0]], p[1..]);
    }
  }

  lemma PreOrderListRemove(cs: seq<TreeNode>, i: nat)
    requires i < |cs|
    ensures |PreOrderList(cs[..i] + cs[i + 1..])| + NodeCount(cs[i]) == |PreOrderList(cs)|
  {
    assert cs == cs[..i] + [cs[i]] + cs[i + 1..];
    PreOrderListAppend(cs[..i] + [cs[i]], cs[i + 1..]);
    PreOrderListAppend(cs[..i], [cs[i]]);
    PreOrderListAppend(cs[..i], cs[i + 1..]);
    assert PreOrderList([cs[i]]) == PreOrder(cs[i]) by { assert [cs[i]][..0] == []; }
  }

  /** Removing a node takes its whole subtree with it: the count drops by the subtree's size. */
  lemma RemoveAtCount(t: TreeNode, p: TreePath)
    requires ValidPath(t, p) && p != []
    ensures NodeCount(RemoveAt(t, p)) == NodeCount(t) - NodeCount(NodeAt(t, p))
  {
    var parent, i := p[..|p| - 1], p[|p| - 1];
    ParentPathValid(t, p);
    var at := NodeAt(t, parent);
    var newAt := at.(children := at.children[..i] + at.children[i + 1..]);
    assert RemoveAt(t, p) == ReplaceAt(t, parent, newAt);
    ReplaceAtCount(t, parent, newAt);
    PreOrderListRemove(at.children, i);
  }

  /** One step further down: the path to a child of the node at `p`. */
  lemma {:induction false} NodeAtChild(t: TreeNode, p: TreePath, i: nat)
    requires ValidPath(t, p) && i < |NodeAt(t, p).children|
    ensures ValidPath(t, p + [i]) && NodeAt(t, p + [i]) == NodeAt(t, p).children[i]
    decreases p
  {
    if p == [] {
      assert [i][1..] == [];
    } else {
      assert (p + [i])[1..] == p[1..] + [i];
      NodeAtChild(t.children[p[0]], p[1..], i);
    }
  }
}
