/**
 * Saving a project: one detail document per node, written in pre-order, then
 * the master document holding the whole tree's identity and structure.
 */
module ProjectSaver {
  import opened Xml
  import opened ProjectItem
  import opened ProjectIO
  import opened ProjectTree

  /** One file-system effect of a save, in the order the saver performs them. */
  datatype FileOp =
    | MakeDir(path: string)
    | WriteDoc(path: string, doc: Node)

  /**
   * ProjectSaver.getElement: tag = type, attribute `id` = id, `appVersion`
   * exactly on the root item, and a `name` child holding the name.
   */
  function NodeElement(item: Item, appVersion: string): (r: Node)
    ensures r.Element? && r.tag == item.itemType && r.children == [NameElement(item.name)]
    ensures item.id.Some? ==> "id" in r.attrs && r.attrs["id"] == item.id.value
    ensures "appVersion" in r.attrs <==> item.root
    ensures item.root ==> r.attrs["appVersion"] == appVersion
  {
    var attrs := IdAttr(item.id);
    Element(item.itemType,
      if item.root then attrs["appVersion" := appVersion] else attrs,
      [NameElement(item.name)])
  }

  /** The master element of a subtree: the node's element with its children's elements appended. */
  function MasterElement(t: TreeNode, appVersion: string): Node
  {
    var e := NodeElement(t.item, appVersion);
    e.(children := e.children + MasterElements(t.children, appVersion))
  }

  function MasterElements(ts: seq<TreeNode>, appVersion: string): (r: seq<Node>)
    ensures |r| == |ts|
  {
    seq(|ts|, i requires 0 <= i < |ts| => MasterElement(ts[i], appVersion))
  }

  /** saveItem: create the type directory, then write item.getElement(doc) to the item path. */
  function ItemWrites(item: Item, filepath: string): seq<FileOp>
  {
    [MakeDir(ItemTypePath(filepath, item)), WriteDoc(ItemPath(filepath, item), ItemElement(item))]
  }

  /** The saveItem effects for a sequence of items, one after the other. */
  function ItemWritesOf(items: seq<Item>, filepath: string): (r: seq<FileOp>)
    ensures |r| == 2 * |items|
  {
    if items == [] then []
    else ItemWritesOf(items[..|items| - 1], filepath) + ItemWrites(items[|items| - 1], filepath)
  }

  lemma {:induction false} ItemWritesOfAppend(a: seq<Item>, b: seq<Item>, filepath: string)
    ensures ItemWritesOf(a + b, filepath) == ItemWritesOf(a, filepath) + ItemWritesOf(b, filepath)
    decreases |b|
  {
    if b == [] {
      assert a + b == a;
    } else {
      var n := |b| - 1;
      assert (a + b)[..|a + b| - 1] == a + b[..n];
      assert (a + b)[|a + b| - 1] == b[n];
      ItemWritesOfAppend(a, b[..n], filepath);
    }
  }

  /**
   * Entry 2k and 2k+1 of the write log belong to the k-th item: first its
   * type directory is created, then its detail document is written to its
   * item path, and that document is item.getElement(doc).
   */
  lemma {:induction false} ItemWritesOfAt(items: seq<Item>, filepath: string, k: nat)
    requires k < |items|
    ensures ItemWritesOf(items, filepath)[2 * k] == MakeDir(ItemTypePath(filepath, items[k]))
    ensures ItemWritesOf(items, filepath)[2 * k + 1] == WriteDoc(ItemPath(filepath, items[k]), ItemElement(items[k]))
    decreases |items|
  {
    var n := |items| - 1;
    if k < n {
      ItemWritesOfAt(items[..n], filepath, k);
    }
  }

  /**
   * saveTreeModelElements: saves the subtree's items in pre-order (a parent
   * before its children, children left to right, one saveItem per node) and
   * returns the subtree's master element, whose children after `name` are
   * the children's elements in the tree's child order.
   */
  method SaveTreeModelElements(t: TreeNode, filepath: string, appVersion: string)
    returns (elem: Node, log: seq<FileOp>)
    ensures elem == MasterElement(t, appVersion)
    ensures log == ItemWritesOf(PreOrder(t), filepath)
    decreases t
  {
    var cs := t.children;
    log := SaveItem(t.item, filepath);
    var e0 := NodeElement(t.item, appVersion);
    elem := e0;
    ghost var saved := [t.item];
    ghost var appended: seq<Node> := [];
    for i := 0 to |cs|
      invariant appended == MasterElements(cs[..i], appVersion)
      invariant elem == e0.(children := e0.children + appended)
      invariant saved == [t.item] + PreOrderList(cs[..i])
      invariant log == ItemWritesOf(saved, filepath)
    {
      var childElem, childLog := SaveTreeModelElements(cs[i], filepath, appVersion);
      MasterElementsSnoc(cs, i, appVersion);
      elem := elem.(children := elem.children + [childElem]);
      assert elem.children == e0.children + (appended + [childElem]);
      appended := appended + [childElem];
      SavedStep(t.item, cs, i, saved);
      LogStep(saved, PreOrder(cs[i]), log, childLog, filepath);
      log := log + childLog;
      saved := saved + PreOrder(cs[i]);
    }
    assert cs[..|cs|] == cs;
  }

  lemma SavedStep(item: Item, cs: seq<TreeNode>, i: nat, saved: seq<Item>)
    requires i < |cs| && saved == [item] + PreOrderList(cs[..i])
    ensures saved + PreOrder(cs[i]) == [item] + PreOrderList(cs[..i + 1])
  {
    assert cs[..i + 1][..i] == cs[..i];
  }

  /**
   * saveItem: create the item's type directory, then write a document whose
   * root is item.getElement(doc), field values included, to the item path.
   */
  method SaveItem(item: Item, filepath: string) returns (ops: seq<FileOp>)
    ensures ops == ItemWritesOf([item], filepath)
    ensures ops == [MakeDir(ItemTypePath(filepath, item)), WriteDoc(ItemPath(filepath, item), ItemElement(item))]
  {
    var itemTypePath := ItemTypePath(filepath, item);
    var itemFilepath := ItemPath(filepath, item);
    var itemElement := GetElement(item);
    ops := [MakeDir(itemTypePath), WriteDoc(itemFilepath, itemElement)];
    assert [item][..0] == [];
  }

  lemma LogStep(before: seq<Item>, more: seq<Item>, log: seq<FileOp>, moreLog: seq<FileOp>, filepath: string)
    requires log == ItemWritesOf(before, filepath) && moreLog == ItemWritesOf(more, filepath)
    ensures log + moreLog == ItemWritesOf(before + more, filepath)
  {
    ItemWritesOfAppend(before, more, filepath);
  }

  lemma MasterElementsSnoc(ts: seq<TreeNode>, i: nat, appVersion: string)
    requires i < |ts|
    ensures MasterElements(ts[..i + 1], appVersion) == MasterElements(ts[..i], appVersion) + [MasterElement(ts[i], appVersion)]
  {
  }

  /**
   * saveTreeModel: every detail write first, then the master document, whose
   * root element is the model root's element, written to `filepath`.
   */
  method SaveTreeModel(t: TreeNode, filepath: string, appVersion: string) returns (log: seq<FileOp>)
    ensures |log| == 2 * NodeCount(t) + 1
    ensures log[..2 * NodeCount(t)] == ItemWritesOf(PreOrder(t), filepath)
    ensures log[2 * NodeCount(t)] == WriteDoc(filepath, MasterElement(t, appVersion))
    ensures log == SaveLog(t, filepath, appVersion)
  {
    var root, detail := SaveTreeModelElements(t, filepath, appVersion);
    log := detail + [WriteDoc(filepath, root)];
  }

  /** The log SaveTreeModel produces, as a value. */
  function SaveLog(t: TreeNode, filepath: string, appVersion: string): seq<FileOp>
  {
    ItemWritesOf(PreOrder(t), filepath) + [WriteDoc(filepath, MasterElement(t, appVersion))]
  }

  /** The files after a write log has run: each write replaces the file at its path. */
  function ApplyLog(files: map<string, Node>, log: seq<FileOp>): (r: map<string, Node>)
    ensures forall p | p in files :: p in r
    ensures log != [] && log[|log| - 1].WriteDoc? ==> log[|log| - 1].path in r && r[log[|log| - 1].path] == log[|log| - 1].doc
  {
    if log == [] then files
    else
      var before := ApplyLog(files, log[..|log| - 1]);
      match log[|log| - 1]
      case MakeDir(_) => before
      case WriteDoc(p, d) => before[p := d]
  }
}
