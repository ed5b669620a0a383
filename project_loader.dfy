/**
 * Reading a project back: the master file's element tree becomes the item
 * tree, and an item's detail file fills in its field values.
 */
module ProjectLoader {
  import opened Wrappers
  import opened Xml
  import opened ProjectItem
  import opened ProjectItemFactory
  import opened ProjectIO
  import opened ProjectTree

  /**
   * Why a load stops. The DOM accessors the loader chains throw a
   * NullPointerException at the first absent node; each such place has its
   * own case here, carrying the tag of the element being read.
   */
  datatype LoadError =
    | FileNotFound(path: string)   // the parser's IOException
    | Malformed                    // the parser's SAXException: no document element
    | MissingName(tag: string)     // no `name` element below the element
    | EmptyName(tag: string)       // the `name` element has no child node
    | NullName(tag: string)        // the `name` element's first child is not text
    | MissingId(tag: string)       // no `id` attribute
    | UnknownType(tag: string)     // the factory has no variant for the tag

  /**
   * A source of fresh ids (the UUID generator): the loader draws the ids it
   * resets from it, one per item, counting up from a position it is given.
   */
  type IdSource = nat -> string

  /** A loaded value and the next unused position of the id source. */
  datatype Loaded<T> = Loaded(value: T, next: nat)

  /** The text getItem takes as the name: the first child of the first `name` element below `e`. */
  function NameOf(e: Node): (r: Result<string, LoadError>)
    requires e.Element?
    ensures r.Ok? <==> var hs := ElementsByTagName(e, "name");
      hs != [] && hs[0].elem.children != [] && hs[0].elem.children[0].Text?
    ensures r.Ok? ==> r.value == ElementsByTagName(e, "name")[0].elem.children[0].value
  {
    var hs := ElementsByTagName(e, "name");
    if hs == [] then Err(MissingName(e.tag))
    else if hs[0].elem.children == [] then Err(EmptyName(e.tag))
    else if !hs[0].elem.children[0].Text? then Err(NullName(e.tag))
    else Ok(hs[0].elem.children[0].value)
  }

  /**
   * getItem: name, then type = the tag, then the `id` attribute, then the
   * factory; with `resetIds` the id is replaced by the next fresh one.
   */
  function GetItem(f: ItemFactory, e: Node, resetIds: bool, ids: IdSource, next: nat)
    : (r: Result<Loaded<Item>, LoadError>)
    requires e.Element?
    ensures r.Ok? <==> NameOf(e).Ok? && "id" in e.attrs && IsKnownType(e.tag)
    ensures r.Ok? ==> var it := r.value.value;
      it.itemType == e.tag && it.name == NameOf(e).value && it.fieldValue == map[] &&
      (it.root <==> e.tag == RootType)
    ensures r.Ok? && !resetIds ==> r.value.value.id == Some(e.attrs["id"]) && r.value.next == next
    ensures r.Ok? && resetIds ==> r.value.value.id == Some(ids(next)) && r.value.next == next + 1
  {
    var name :- NameOf(e);
    if "id" !in e.attrs then Err(MissingId(e.tag))
    else match Create(f, name, e.tag, Some(e.attrs["id"]))
      case None => Err(UnknownType(e.tag))
      case Some(item) =>
        if resetIds then Ok(Loaded(ResetId(item, ids(next)), next + 1)) else Ok(Loaded(item, next))
  }

  /**
   * The order getTreeNodeWithChildren visits children in: for each type tag
   * in turn, the children with that tag in document order.
   */
  function GroupByTypes(cs: seq<Node>, types: seq<string>): (r: seq<Node>)
    ensures forall c | c in r :: c in cs && c.Element? && c.tag in types
    ensures forall c | c in cs && c.Element? && c.tag in types :: c in r
  {
    if types == [] then []
    else GroupByTypes(cs, types[..|types| - 1]) + Tagged(cs, types[|types| - 1])
  }

  lemma {:induction false} GroupByTypesPrefix(cs: seq<Node>, types: seq<string>, j: nat)
    requires j <= |types|
    ensures GroupByTypes(cs, types[..j]) <= GroupByTypes(cs, types)
    decreases |types|
  {
    if j < |types| {
      var n := |types| - 1;
      assert types[..n][..j] == types[..j];
      GroupByTypesPrefix(cs, types[..n], j);
    } else {
      assert types[..j] == types;
    }
  }

  /** The element children a node's children are built from, in load order. */
  function ChildElements(e: Node): (r: seq<Node>)
    requires e.Element?
    ensures forall c | c in r :: c in e.children && c.Element? && c.tag in GetTypes()
  {
    GroupByTypes(e.children, GetTypes())
  }

  /**
   * getTreeNodeWithChildren as a value: the element's item, then its child
   * elements of creatable types loaded in turn, so the shape of the result
   * follows the elements.
   */
  function LoadNode(f: ItemFactory, e: Node, resetIds: bool, ids: IdSource, next: nat)
    : (r: Result<Loaded<TreeNode>, LoadError>)
    requires e.Element?
    ensures r.Ok? ==> var t := r.value.value;
      t.item.itemType == e.tag && NameOf(e).Ok? && t.item.name == NameOf(e).value && "id" in e.attrs
    ensures r.Ok? && !resetIds ==> r.value.value.item.id == Some(e.attrs["id"])
    decreases e, 1
  {
    var it :- GetItem(f, e, resetIds, ids, next);
    var kids :- LoadList(f, e, ChildElements(e), resetIds, ids, it.next);
    Ok(Loaded(TreeNode(it.value, kids.value), kids.next))
  }

  /** The child elements `es` of `parent` loaded one after the other, threading the id source. */
  function LoadList(f: ItemFactory, parent: Node, es: seq<Node>, resetIds: bool, ids: IdSource, next: nat)
    : (r: Result<Loaded<seq<TreeNode>>, LoadError>)
    requires parent.Element? && forall c | c in es :: c in parent.children && c.Element?
    decreases parent, 0, |es|
  {
    if es == [] then Ok(Loaded([], next))
    else
      var n := |es| - 1;
      var front :- LoadList(f, parent, es[..n], resetIds, ids, next);
      var last :- LoadNode(f, es[n], resetIds, ids, front.next);
      Ok(Loaded(front.value + [last.value], last.next))
  }

  /** The type tags of a run of trees' root items. */
  function TypesOf(ts: seq<TreeNode>): (r: seq<string>)
    ensures |r| == |ts| && forall i | 0 <= i < |ts| :: r[i] == ts[i].item.itemType
  {
    seq(|ts|, i requires 0 <= i < |ts| => ts[i].item.itemType)
  }

  /** The tags of a run of elements. */
  function TagsOf(es: seq<Node>): (r: seq<string>)
    requires forall c | c in es :: c.Element?
    ensures |r| == |es| && forall i | 0 <= i < |es| :: r[i] == es[i].tag
  {
    seq(|es|, i requires 0 <= i < |es| => es[i].tag)
  }

  /** The list loads one tree per element, in element order, each of the type its element's tag names. */
  lemma {:induction false} LoadListShape(f: ItemFactory, parent: Node, es: seq<Node>, resetIds: bool, ids: IdSource,
                                          next: nat, ts: seq<TreeNode>, k: nat)
    requires parent.Element? && forall c | c in es :: c in parent.children && c.Element?
    requires LoadList(f, parent, es, resetIds, ids, next) == Ok(Loaded(ts, k))
    ensures TypesOf(ts) == TagsOf(es)
    decreases |es|
  {
    if es != [] {
      var n := |es| - 1;
      var front := LoadList(f, parent, es[..n], resetIds, ids, next).value;
      var last := LoadNode(f, es[n], resetIds, ids, front.next).value;
      assert ts == front.value + [last.value] && k == last.next;
      LoadListShape(f, parent, es[..n], resetIds, ids, next, front.value, front.next);
      TypesOfSnoc(front.value, last.value);
      TagsOfSnoc(es);
    }
  }

  lemma TypesOfSnoc(ts: seq<TreeNode>, t: TreeNode)
    ensures TypesOf(ts + [t]) == TypesOf(ts) + [t.item.itemType]
  {
  }

  lemma TagsOfSnoc(es: seq<Node>)
    requires es != [] && forall c | c in es :: c.Element?
    ensures TagsOf(es) == TagsOf(es[..|es| - 1]) + [es[|es| - 1].tag]
  {
  }

  /**
   * A loaded node has one child per child element of a creatable type, in
   * load order, each of the type its element's tag names.
   */
  lemma LoadNodeChildren(f: ItemFactory, e: Node, resetIds: bool, ids: IdSource, next: nat, t: TreeNode, k: nat)
    requires e.Element? && LoadNode(f, e, resetIds, ids, next) == Ok(Loaded(t, k))
    ensures TypesOf(t.children) == TagsOf(ChildElements(e))
    ensures forall i | 0 <= i < |t.children| :: t.children[i].item.itemType in GetTypes()
    ensures !resetIds ==>
      |t.children| == |ChildElements(e)| &&
      forall i | 0 <= i < |t.children| :: LoadNode(f, ChildElements(e)[i], false, ids, next) == Ok(Loaded(t.children[i], next))
  {
    var it, kids := LoadNodeParts(f, e, resetIds, ids, next, t, k);
    var cs := ChildElements(e);
    LoadListShape(f, e, cs, resetIds, ids, it.next, kids.value, kids.next);
    if !resetIds {
      LoadListEach(f, e, cs, ids, it.next, kids.value, kids.next);
    }
    forall i | 0 <= i < |t.children|
      ensures t.children[i].item.itemType in GetTypes()
    {
      assert TypesOf(t.children)[i] == TagsOf(cs)[i];
      assert cs[i] in cs;
    }
  }

  /**
   * Without id reset nothing is drawn, so each tree of a loaded list is the
   * load of the element at the same position on its own.
   */
  lemma LoadListEach(f: ItemFactory, parent: Node, es: seq<Node>, ids: IdSource,
                     next: nat, ts: seq<TreeNode>, k: nat)
    requires parent.Element? && forall c | c in es :: c in parent.children && c.Element?
    requires LoadList(f, parent, es, false, ids, next) == Ok(Loaded(ts, k))
    ensures |ts| == |es| && k == next
    ensures forall i | 0 <= i < |es| :: LoadNode(f, es[i], false, ids, next) == Ok(Loaded(ts[i], next))
  {
    LoadListIds(f, parent, es, false, ids, next, ts, k);
    LoadListShape(f, parent, es, false, ids, next, ts, k);
    forall i | 0 <= i < |es|
      ensures LoadNode(f, es[i], false, ids, next) == Ok(Loaded(ts[i], next))
    {
      LoadListAt(f, parent, es, ids, next, ts, k, i);
    }
  }

  lemma {:induction false} LoadListAt(f: ItemFactory, parent: Node, es: seq<Node>, ids: IdSource,
                                       next: nat, ts: seq<TreeNode>, k: nat, i: nat)
    requires parent.Element? && forall c | c in es :: c in parent.children && c.Element?
    requires LoadList(f, parent, es, false, ids, next) == Ok(Loaded(ts, k))
    requires i < |es|
    ensures i < |ts| && LoadNode(f, es[i], false, ids, next) == Ok(Loaded(ts[i], next))
    decreases |es|
  {
    var n := |es| - 1;
    var front := LoadList(f, parent, es[..n], false, ids, next).value;
    var last := LoadNode(f, es[n], false, ids, front.next).value;
    assert ts == front.value + [last.value] && k == last.next;
    LoadListIds(f, parent, es[..n], false, ids, next, front.value, front.next);
    if i == n {
      assert es[n] in es;
      LoadNodeIds(f, es[n], false, ids, front.next, last.value, last.next);
      LoadListShape(f, parent, es[..n], false, ids, next, front.value, front.next);
    } else {
      LoadListAt(f, parent, es[..n], ids, next, front.value, front.next, i);
      assert es[..n][i] == es[i];
    }
  }

  /** A loaded node is the loaded item over the loaded children. */
  lemma LoadNodeParts(f: ItemFactory, e: Node, resetIds: bool, ids: IdSource, next: nat, t: TreeNode, k: nat)
    returns (it: Loaded<Item>, kids: Loaded<seq<TreeNode>>)
    requires e.Element? && LoadNode(f, e, resetIds, ids, next) == Ok(Loaded(t, k))
    ensures GetItem(f, e, resetIds, ids, next) == Ok(it)
    ensures LoadList(f, e, ChildElements(e), resetIds, ids, it.next) == Ok(kids)
    ensures t == TreeNode(it.value, kids.value) && k == kids.next
  {
    it := GetItem(f, e, resetIds, ids, next).value;
    kids := LoadList(f, e, ChildElements(e), resetIds, ids, it.next).value;
  }

  /** The ids of a run of items, in order. */
  function IdsOf(items: seq<Item>): (r: seq<Option<string>>)
    ensures |r| == |items| && forall j | 0 <= j < |items| :: r[j] == items[j].id
  {
    seq(|items|, j requires 0 <= j < |items| => items[j].id)
  }

  /** The ids the id source gives at positions `from` up to, not including, `to`. */
  function Drawn(ids: IdSource, from: nat, to: nat): (r: seq<Option<string>>)
    requires from <= to
    ensures |r| == to - from && forall j | 0 <= j < to - from :: r[j] == Some(ids(from + j))
  {
    seq(to - from, j requires 0 <= j < to - from => Some(ids(from + j)))
  }

  lemma IdsOfAppend(a: seq<Item>, b: seq<Item>)
    ensures IdsOf(a + b) == IdsOf(a) + IdsOf(b)
  {
  }

  lemma DrawnAppend(ids: IdSource, from: nat, mid: nat, to: nat)
    requires from <= mid <= to
    ensures Drawn(ids, from, mid) + Drawn(ids, mid, to) == Drawn(ids, from, to)
  {
    var l, r := Drawn(ids, from, mid) + Drawn(ids, mid, to), Drawn(ids, from, to);
    forall j | 0 <= j < to - from
      ensures l[j] == r[j]
    {
      if j >= mid - from {
        assert l[j] == Drawn(ids, mid, to)[j - (mid - from)];
      }
    }
  }

  /**
   * A loaded tree carries an id on every item. With `resetIds` the ids are
   * drawn from the id source in pre-order, one per item, and the source
   * moves on by the number of items; otherwise nothing is drawn.
   */
  lemma {:induction false} LoadNodeIds(f: ItemFactory, e: Node, resetIds: bool, ids: IdSource, next: nat,
                                        t: TreeNode, k: nat)
    requires e.Element? && LoadNode(f, e, resetIds, ids, next) == Ok(Loaded(t, k))
    ensures AllIdsSet(t)
    ensures !resetIds ==> k == next
    ensures resetIds ==> k == next + NodeCount(t) && IdsOf(PreOrder(t)) == Drawn(ids, next, k)
    decreases e, 1
  {
    var it, kids := LoadNodeParts(f, e, resetIds, ids, next, t, k);
    LoadListIds(f, e, ChildElements(e), resetIds, ids, it.next, kids.value, kids.next);
    assert PreOrder(t) == [it.value] + PreOrderList(kids.value);
    if resetIds {
      IdsCons(ids, next, it.next, k, it.value, PreOrderList(kids.value));
    }
  }

  /**
   * The condition under which getTreeNodeWithChildren returns instead of
   * throwing: getItem succeeds on the element and on every child element
   * it descends into, all the way down.
   */
  predicate Readable(e: Node)
    requires e.Element?
    decreases e
  {
    NameOf(e).Ok? && "id" in e.attrs && IsKnownType(e.tag) &&
    forall c | c in ChildElements(e) :: Readable(c)
  }

  /** A tree load, with or without id reset, succeeds exactly when its element is readable. */
  lemma {:induction false} LoadNodeReadable(f: ItemFactory, e: Node, resetIds: bool, ids: IdSource, next: nat)
    requires e.Element?
    ensures LoadNode(f, e, resetIds, ids, next).Ok? <==> Readable(e)
    decreases e, 1
  {
    var it := GetItem(f, e, resetIds, ids, next);
    if it.Ok? {
      LoadListReadable(f, e, ChildElements(e), resetIds, ids, it.value.next);
    }
  }

  /** The list form of LoadNodeReadable: a run of child elements loads exactly when each is readable. */
  lemma {:induction false} LoadListReadable(f: ItemFactory, parent: Node, es: seq<Node>, resetIds: bool,
                                            ids: IdSource, next: nat)
    requires parent.Element? && forall c | c in es :: c in parent.children && c.Element?
    ensures LoadList(f, parent, es, resetIds, ids, next).Ok? <==> forall c | c in es :: Readable(c)
    decreases parent, 0, |es|
  {
    if es != [] {
      var k := |es| - 1;
      assert es == es[..k] + [es[k]];
      LoadListReadable(f, parent, es[..k], resetIds, ids, next);
      var front := LoadList(f, parent, es[..k], resetIds, ids, next);
      assert es[k] in es;
      if front.Ok? {
        LoadNodeReadable(f, es[k], resetIds, ids, front.value.next);
      }
    }
  }

  /**
   * resetId changes nothing but the id: a load with id reset succeeds
   * exactly when the load with the stored ids does, fails with the same
   * error, and gives the same tree once ids are cleared.
   */
  lemma {:induction false} ResetOnlyIds(f: ItemFactory, e: Node, ids: IdSource, n: nat, m: nat)
    requires e.Element?
    ensures var a, b := LoadNode(f, e, true, ids, n), LoadNode(f, e, false, ids, m);
      (a.Ok? <==> b.Ok?) && (a.Err? ==> a.error == b.error) && (a.Ok? ==> Unid(a.value.value) == Unid(b.value.value))
    decreases e, 1
  {
    var ga, gb := GetItem(f, e, true, ids, n), GetItem(f, e, false, ids, m);
    if ga.Ok? {
      assert ga.value.value.(id := None) == gb.value.value.(id := None);
      ResetOnlyIdsList(f, e, ChildElements(e), ids, ga.value.next, gb.value.next);
    }
  }

  /** The list form of ResetOnlyIds, for any two positions of the id source. */
  lemma {:induction false} ResetOnlyIdsList(f: ItemFactory, parent: Node, es: seq<Node>, ids: IdSource, n: nat, m: nat)
    requires parent.Element? && forall c | c in es :: c in parent.children && c.Element?
    ensures var a, b := LoadList(f, parent, es, true, ids, n), LoadList(f, parent, es, false, ids, m);
      (a.Ok? <==> b.Ok?) && (a.Err? ==> a.error == b.error) && (a.Ok? ==> UnidAll(a.value.value) == UnidAll(b.value.value))
    decreases parent, 0, |es|
  {
    if es != [] {
      var k := |es| - 1;
      ResetOnlyIdsList(f, parent, es[..k], ids, n, m);
      var fa, fb := LoadList(f, parent, es[..k], true, ids, n), LoadList(f, parent, es[..k], false, ids, m);
      if fa.Ok? {
        assert es[k] in es;
        ResetOnlyIds(f, es[k], ids, fa.value.next, fb.value.next);
        var la, lb := LoadNode(f, es[k], true, ids, fa.value.next), LoadNode(f, es[k], false, ids, fb.value.next);
        if la.Ok? {
          UnidAllSnoc(fa.value.value, la.value.value);
          UnidAllSnoc(fb.value.value, lb.value.value);
        }
      }
    }
  }

  lemma IdsCons(ids: IdSource, next: nat, mid: nat, k: nat, item: Item, rest: seq<Item>)
    requires mid == next + 1 && mid <= k && item.id == Some(ids(next)) && IdsOf(rest) == Drawn(ids, mid, k)
    ensures IdsOf([item] + rest) == Drawn(ids, next, k)
  {
    IdsOfAppend([item], rest);
    DrawnAppend(ids, next, mid, k);
  }

  /** The list form of LoadNodeIds: ids set everywhere, drawn in pre-order across the siblings. */
  lemma {:induction false} LoadListIds(f: ItemFactory, parent: Node, es: seq<Node>, resetIds: bool, ids: IdSource,
                                        next: nat, ts: seq<TreeNode>, k: nat)
    requires parent.Element? && forall c | c in es :: c in parent.children && c.Element?
    requires LoadList(f, parent, es, resetIds, ids, next) == Ok(Loaded(ts, k))
    ensures forall it | it in PreOrderList(ts) :: it.id.Some?
    ensures !resetIds ==> k == next
    ensures resetIds ==> k == next + |PreOrderList(ts)| && IdsOf(PreOrderList(ts)) == Drawn(ids, next, k)
    decreases parent, 0, |es|
  {
    if es != [] {
      var n := |es| - 1;
      var front := LoadList(f, parent, es[..n], resetIds, ids, next).value;
      var last := LoadNode(f, es[n], resetIds, ids, front.next).value;
      assert ts == front.value + [last.value] && k == last.next;
      LoadListIds(f, parent, es[..n], resetIds, ids, next, front.value, front.next);
      LoadNodeIds(f, es[n], resetIds, ids, front.next, last.value, last.next);
      PreOrderListSnoc(front.value, last.value);
      if resetIds {
        IdsOfAppend(PreOrderList(front.value), PreOrder(last.value));
        DrawnAppend(ids, next, front.next, k);
      }
    }
  }

  lemma PreOrderListSnoc(ts: seq<TreeNode>, t: TreeNode)
    ensures PreOrderList(ts + [t]) == PreOrderList(ts) + PreOrder(t)
  {
    assert (ts + [t])[..|ts|] == ts;
  }

  /** Once a prefix of the children fails to load, loading more of them fails the same way. */
  lemma {:induction false} LoadListErrPrefix(f: ItemFactory, parent: Node, es: seq<Node>, rest: seq<Node>,
                                              resetIds: bool, ids: IdSource, next: nat)
    requires parent.Element? && forall c | c in es + rest :: c in parent.children && c.Element?
    requires LoadList(f, parent, es, resetIds, ids, next).Err?
    ensures LoadList(f, parent, es + rest, resetIds, ids, next) == LoadList(f, parent, es, resetIds, ids, next)
    decreases |rest|
  {
    if rest == [] {
      assert es + rest == es;
    } else {
      var n := |rest| - 1;
      assert (es + rest)[..|es + rest| - 1] == es + rest[..n];
      LoadListErrPrefix(f, parent, es, rest[..n], resetIds, ids, next);
    }
  }

  /**
   * The children loaded so far, followed by the next matching child, are a
   * prefix of the children LoadNode loads.
   */
  lemma ChildPrefix(e: Node, ti: nat, hits: seq<Hit>, i: nat)
    requires e.Element? && ti < |GetTypes()| && hits == ElementsByTagName(e, GetTypes()[ti]) && i < |hits|
    ensures GroupByTypes(e.children, GetTypes()[..ti]) + ChildHits(hits[..i + 1], e) <= ChildElements(e)
  {
    var types := GetTypes();
    GroupSplit(e, ti, hits, i);
    GroupByTypesPrefix(e.children, types, ti + 1);
    PrefixTrans(GroupByTypes(e.children, types[..ti]) + ChildHits(hits[..i + 1], e),
                GroupByTypes(e.children, types[..ti + 1]), ChildElements(e));
  }

  /** The group of one type tag, split after its first `i + 1` matches. */
  lemma GroupSplit(e: Node, ti: nat, hits: seq<Hit>, i: nat)
    requires e.Element? && ti < |GetTypes()| && hits == ElementsByTagName(e, GetTypes()[ti]) && i < |hits|
    ensures GroupByTypes(e.children, GetTypes()[..ti + 1])
      == GroupByTypes(e.children, GetTypes()[..ti]) + ChildHits(hits[..i + 1], e) + ChildHits(hits[i + 1..], e)
  {
    GroupStep(e, ti, hits);
    assert hits[..|hits|] == hits[..i + 1] + hits[i + 1..];
    ChildHitsAppend(hits[..i + 1], hits[i + 1..], e);
    AppendAssoc(GroupByTypes(e.children, GetTypes()[..ti]), ChildHits(hits[..i + 1], e), ChildHits(hits[i + 1..], e));
  }

  lemma PrefixTrans<T>(a: seq<T>, b: seq<T>, c: seq<T>)
    requires a <= b && b <= c
    ensures a <= c
  {
    assert c[..|a|] == c[..|b|][..|a|];
  }

  /** A child that fails to load makes its parent fail the same way. */
  lemma ChildFailure(f: ItemFactory, e: Node, resetIds: bool, ids: IdSource, next: nat,
                     ti: nat, hits: seq<Hit>, i: nat, done: seq<Node>, sel: seq<Node>, x: LoadError)
    requires e.Element? && ti < |GetTypes()| && hits == ElementsByTagName(e, GetTypes()[ti])
    requires i < |hits| && hits[i].parent == e
    requires done == GroupByTypes(e.children, GetTypes()[..ti])
    requires sel + [hits[i].elem] == ChildHits(hits[..i + 1], e)
    requires forall c | c in done + sel + [hits[i].elem] :: c in e.children && c.Element?
    requires GetItem(f, e, resetIds, ids, next).Ok?
    requires LoadList(f, e, done + sel + [hits[i].elem], resetIds, ids, GetItem(f, e, resetIds, ids, next).value.next) == Err(x)
    ensures LoadNode(f, e, resetIds, ids, next) == Err(x)
  {
    var pre := done + sel + [hits[i].elem];
    ChildPrefix(e, ti, hits, i);
    assert pre == done + ChildHits(hits[..i + 1], e);
    ListFailure(f, e, pre, resetIds, ids, GetItem(f, e, resetIds, ids, next).value.next, x);
  }

  /** A failing prefix of the child elements makes loading all of them fail the same way. */
  lemma ListFailure(f: ItemFactory, e: Node, pre: seq<Node>, resetIds: bool, ids: IdSource, start: nat, x: LoadError)
    requires e.Element? && pre <= ChildElements(e) && forall c | c in pre :: c in e.children && c.Element?
    requires LoadList(f, e, pre, resetIds, ids, start) == Err(x)
    ensures LoadList(f, e, ChildElements(e), resetIds, ids, start) == Err(x)
  {
    var all := ChildElements(e);
    var rest := all[|pre|..];
    PrefixSplit(pre, all);
    assert pre + rest == all;
    LoadListErrPrefix(f, e, pre, rest, resetIds, ids, start);
  }

  /** The matches of one type tag whose parent is `e` are exactly the next group of children. */
  lemma GroupStep(e: Node, ti: nat, hits: seq<Hit>)
    requires e.Element? && ti < |GetTypes()| && hits == ElementsByTagName(e, GetTypes()[ti])
    ensures GroupByTypes(e.children, GetTypes()[..ti]) + ChildHits(hits[..|hits|], e)
      == GroupByTypes(e.children, GetTypes()[..ti + 1])
  {
    var types := GetTypes();
    assert types[..ti + 1][..ti] == types[..ti];
    ImmediateMatches(e, types[ti]);
    assert hits[..|hits|] == hits;
  }

  /** Loading one more child element: it fails if the element fails, else its tree is appended. */
  lemma LoadListSnoc(f: ItemFactory, parent: Node, es: seq<Node>, c: Node, resetIds: bool, ids: IdSource, next: nat)
    requires parent.Element? && forall x | x in es + [c] :: x in parent.children && x.Element?
    requires LoadList(f, parent, es, resetIds, ids, next).Ok?
    ensures var front := LoadList(f, parent, es, resetIds, ids, next).value;
      LoadList(f, parent, es + [c], resetIds, ids, next) ==
        match LoadNode(f, c, resetIds, ids, front.next)
        case Err(x) => Err(x)
        case Ok(last) => Ok(Loaded(front.value + [last.value], last.next))
  {
    assert (es + [c])[..|es|] == es;
  }

  lemma AppendAssoc<T>(a: seq<T>, b: seq<T>, c: seq<T>)
    ensures a + b + c == a + (b + c)
  {
  }

  lemma PrefixSplit<T>(a: seq<T>, b: seq<T>)
    requires a <= b
    ensures a + b[|a|..] == b
  {
  }

  /**
   * getTreeNodeWithChildren: the element's item, then, for each type tag in
   * turn, the children of that type (AddChildrenOfType).
   */
  method GetTreeNodeWithChildren(f: ItemFactory, e: Node, resetIds: bool, ids: IdSource, next: nat)
    returns (r: Result<Loaded<TreeNode>, LoadError>)
    requires e.Element?
    ensures r == LoadNode(f, e, resetIds, ids, next)
    decreases e, 1
  {
    var it := GetItem(f, e, resetIds, ids, next);
    if it.Err? {
      return Err(it.error);
    }
    var item, counter := it.value.value, it.value.next;
    var kids: seq<TreeNode> := [];
    var types := GetTypes();
    for ti := 0 to |types|
      invariant LoadList(f, e, GroupByTypes(e.children, types[..ti]), resetIds, ids, it.value.next)
        == Ok(Loaded(kids, counter))
    {
      var step := AddChildrenOfType(f, e, resetIds, ids, next, ti, kids, counter);
      if step.Err? {
        return Err(step.error);
      }
      kids, counter := step.value.value, step.value.next;
    }
    assert types[..|types|] == types;
    r := Ok(Loaded(TreeNode(item, kids), counter));
  }

  /**
   * The inner loop of getTreeNodeWithChildren for the `ti`-th type tag: every
   * descendant with that tag whose parent node is `e` itself is loaded
   * recursively and appended to `kids`, in document order.
   */
  method AddChildrenOfType(f: ItemFactory, e: Node, resetIds: bool, ids: IdSource, next: nat,
                           ti: nat, kids: seq<TreeNode>, counter: nat)
    returns (r: Result<Loaded<seq<TreeNode>>, LoadError>)
    requires e.Element? && ti < |GetTypes()| && GetItem(f, e, resetIds, ids, next).Ok?
    requires LoadList(f, e, GroupByTypes(e.children, GetTypes()[..ti]), resetIds, ids, GetItem(f, e, resetIds, ids, next).value.next)
      == Ok(Loaded(kids, counter))
    ensures r.Ok? ==> r == LoadList(f, e, GroupByTypes(e.children, GetTypes()[..ti + 1]), resetIds, ids,
                                     GetItem(f, e, resetIds, ids, next).value.next)
    ensures r.Err? ==> LoadNode(f, e, resetIds, ids, next) == Err(r.error)
    decreases e, 0
  {
    ghost var start := GetItem(f, e, resetIds, ids, next).value.next;
    ghost var done := GroupByTypes(e.children, GetTypes()[..ti]);
    var hits := ElementsByTagName(e, GetTypes()[ti]);
    var acc, count := kids, counter;
    ghost var sel: seq<Node> := [];
    assert done + sel == done;
    for i := 0 to |hits|
      invariant sel == ChildHits(hits[..i], e)
      invariant forall c | c in done + sel :: c in e.children && c.Element?
      invariant LoadList(f, e, done + sel, resetIds, ids, start) == Ok(Loaded(acc, count))
    {
      ChildHitsSnoc(hits, i, e);
      if hits[i].parent == e {
        var c := hits[i].elem;
        assert hits[i] in hits;
        var sub := GetTreeNodeWithChildren(f, c, resetIds, ids, count);
        LoadListSnoc(f, e, done + sel, c, resetIds, ids, start);
        if sub.Err? {
          ChildFailure(f, e, resetIds, ids, next, ti, hits, i, done, sel, sub.error);
          return Err(sub.error);
        }
        acc := acc + [sub.value.value];
        count := sub.value.next;
        AppendAssoc(done, sel, [c]);
        sel := sel + [c];
      }
    }
    GroupStep(e, ti, hits);
    r := Ok(Loaded(acc, count));
  }

  /**
   * loadTreeModel(Document, resetIds): the tree built from the document
   * element. A document whose element could not be parsed is `Malformed`.
   */
  method LoadTreeModel(f: ItemFactory, doc: Node, resetIds: bool, ids: IdSource, next: nat)
    returns (r: Result<Loaded<TreeNode>, LoadError>)
    ensures doc.Text? ==> r == Err(Malformed)
    ensures doc.Element? ==> r == LoadNode(f, doc, resetIds, ids, next)
  {
    if !doc.Element? {
      return Err(Malformed);
    }
    r := GetTreeNodeWithChildren(f, doc, resetIds, ids, next);
  }

  /** What loadTreeModel(filepath, resetIds) returns for the files as they stand. */
  function LoadFile(f: ItemFactory, files: map<string, Node>, filepath: string, resetIds: bool,
                    ids: IdSource, next: nat): Result<Loaded<TreeNode>, LoadError>
  {
    if filepath !in files then Err(FileNotFound(filepath))
    else if files[filepath].Text? then Err(Malformed)
    else LoadNode(f, files[filepath], resetIds, ids, next)
  }

  /**
   * loadTreeModel(filepath, resetIds): a path with no file behind it fails
   * with `FileNotFound`; otherwise the file's document is loaded.
   */
  method LoadTreeModelFile(f: ItemFactory, files: map<string, Node>, filepath: string, resetIds: bool,
                           ids: IdSource, next: nat)
    returns (r: Result<Loaded<TreeNode>, LoadError>)
    ensures filepath !in files ==> r == Err(FileNotFound(filepath))
    ensures filepath in files && files[filepath].Text? ==> r == Err(Malformed)
    ensures filepath in files && files[filepath].Element? ==> r == LoadNode(f, files[filepath], resetIds, ids, next)
    ensures r == LoadFile(f, files, filepath, resetIds, ids, next)
  {
    if filepath !in files {
      return Err(FileNotFound(filepath));
    }
    r := LoadTreeModel(f, files[filepath], resetIds, ids, next);
  }

  /**
   * loadTreeModel(filepath): loadTreeModel(filepath, false). The ids are the
   * stored ones, the root's being the document element's `id` attribute, and
   * nothing is drawn from the id source.
   */
  method LoadStoredTreeModel(f: ItemFactory, files: map<string, Node>, filepath: string, ids: IdSource, next: nat)
    returns (r: Result<Loaded<TreeNode>, LoadError>)
    ensures r == LoadFile(f, files, filepath, false, ids, next)
    ensures r.Ok? ==>
      filepath in files && files[filepath].Element? && "id" in files[filepath].attrs &&
      r.value.value.item.id == Some(files[filepath].attrs["id"]) && r.value.next == next && AllIdsSet(r.value.value)
  {
    r := LoadTreeModelFile(f, files, filepath, false, ids, next);
    if r.Ok? {
      LoadNodeIds(f, files[filepath], false, ids, next, r.value.value, r.value.next);
    }
  }

  /** openTemplate against open: the same outcome for a file, and on success the same tree up to ids. */
  lemma ResetOnlyIdsFile(f: ItemFactory, files: map<string, Node>, filepath: string, ids: IdSource, n: nat, m: nat)
    ensures var a, b := LoadFile(f, files, filepath, true, ids, n), LoadFile(f, files, filepath, false, ids, m);
      (a.Ok? <==> b.Ok?) && (a.Err? ==> a.error == b.error) && (a.Ok? ==> Unid(a.value.value) == Unid(b.value.value))
  {
    if filepath in files && files[filepath].Element? {
      ResetOnlyIds(f, files[filepath], ids, n, m);
    }
  }

  /** What `getElementsByTagName(key).item(0).getChildNodes().item(0)` finds below an element. */
  datatype FieldNode =
    | NoElement            // no element with the key's tag: item(0) is null and the loader throws
    | NoChild              // the element has no child: the field is skipped
    | TextChild(text: string)
    | ElementChild         // the first child is an element, whose node value is null

  function FieldNodeOf(e: Node, key: string): FieldNode
  {
    var hs := ElementsByTagName(e, key);
    if hs == [] then NoElement
    else if hs[0].elem.children == [] then NoChild
    else match hs[0].elem.children[0]
      case Text(v) => TextChild(v)
      case Element(_, _, _) => ElementChild
  }

  /** The position of the first form entry whose element is missing, or the form's length. */
  function FirstMissing(e: Node, form: FieldForm): (r: nat)
    ensures r <= |form|
  {
    if form == [] then 0
    else if FieldNodeOf(e, form[0].key) == NoElement then 0
    else 1 + FirstMissing(e, form[1..])
  }

  /** Every entry before FirstMissing has its element; the entry at it, if any, has none. */
  lemma {:induction false} FirstMissingSpec(e: Node, form: FieldForm)
    ensures var r := FirstMissing(e, form);
      (forall j | 0 <= j < r :: FieldNodeOf(e, form[j].key) != NoElement) &&
      (r < |form| ==> FieldNodeOf(e, form[r].key) == NoElement)
  {
    if form != [] && FieldNodeOf(e, form[0].key) != NoElement {
      var rest := form[1..];
      FirstMissingSpec(e, rest);
      forall j | 1 <= j < |form|
        ensures form[j] == rest[j - 1]
      {
      }
    }
  }

  function Lookup(m: map<string, string>, k: string): Option<string>
  {
    if k in m then Some(m[k]) else None
  }

  /** Reading one field into the values: text is stored, an element child stores null, no child changes nothing. */
  function ReadField(values: map<string, string>, key: string, found: FieldNode): (r: map<string, string>)
    ensures found.TextChild? ==> Lookup(r, key) == Some(found.text)
    ensures found.ElementChild? ==> Lookup(r, key) == None
    ensures !found.TextChild? && !found.ElementChild? ==> r == values
    ensures forall k | k != key :: Lookup(r, k) == Lookup(values, k)
  {
    match found
    case TextChild(v) => values[key := v]
    case ElementChild => values - {key}
    case _ => values
  }

  /** The value of `k` once the fields named in `keys` have been read from `e` into `item`. */
  function ValueAfter(e: Node, item: Item, keys: set<string>, k: string): Option<string>
  {
    if k in keys then
      match FieldNodeOf(e, k)
      case TextChild(v) => Some(v)
      case ElementChild => None
      case _ => Lookup(item.fieldValue, k)
    else Lookup(item.fieldValue, k)
  }

  function Hydrated(e: Node, item: Item, keys: set<string>): map<string, string>
  {
    map k | k in item.fieldValue.Keys + keys && ValueAfter(e, item, keys, k).Some? :: ValueAfter(e, item, keys, k).value
  }

  lemma LookupHydrated(e: Node, item: Item, keys: set<string>, k: string)
    ensures Lookup(Hydrated(e, item, keys), k) == ValueAfter(e, item, keys, k)
  {
  }

  /** Reading the next form entry moves the hydrated values on by that one field. */
  lemma HydratedStep(e: Node, item: Item, form: FieldForm, i: nat)
    requires i < |form|
    ensures Hydrated(e, item, Keys(form[..i + 1]))
      == ReadField(Hydrated(e, item, Keys(form[..i])), form[i].key, FieldNodeOf(e, form[i].key))
  {
    var l := Hydrated(e, item, Keys(form[..i + 1]));
    var r := ReadField(Hydrated(e, item, Keys(form[..i])), form[i].key, FieldNodeOf(e, form[i].key));
    forall k
      ensures Lookup(l, k) == Lookup(r, k)
    {
      HydratedStepAt(e, item, form, i, k);
    }
    MapsEqualByLookup(l, r);
  }

  lemma HydratedStepAt(e: Node, item: Item, form: FieldForm, i: nat, k: string)
    requires i < |form|
    ensures Lookup(Hydrated(e, item, Keys(form[..i + 1])), k)
      == Lookup(ReadField(Hydrated(e, item, Keys(form[..i])), form[i].key, FieldNodeOf(e, form[i].key)), k)
  {
    KeysSnoc(form, i);
    LookupHydrated(e, item, Keys(form[..i + 1]), k);
    LookupHydrated(e, item, Keys(form[..i]), k);
  }

  lemma KeysSnoc(form: FieldForm, i: nat)
    requires i < |form|
    ensures Keys(form[..i + 1]) == Keys(form[..i]) + {form[i].key}
  {
    assert form[..i + 1] == form[..i] + [form[i]];
  }

  lemma MapsEqualByLookup(a: map<string, string>, b: map<string, string>)
    requires forall k :: Lookup(a, k) == Lookup(b, k)
    ensures a == b
  {
    assert forall k :: k in a <==> Lookup(a, k).Some?;
    assert forall k :: k in b <==> Lookup(b, k).Some?;
    assert a.Keys == b.Keys;
    forall k | k in a
      ensures a[k] == b[k]
    {
      assert Lookup(a, k) == Lookup(b, k);
    }
  }

  /** The item getItemFields leaves, and the first form key whose element was missing, if any. */
  datatype Hydration = Hydration(item: Item, missing: Option<string>)

  /** getItemFields as a value: the form's keys are read in form order until one has no element. */
  function ItemFields(e: Node, item: Item): Hydration
  {
    var form := item.fieldForm;
    var n := FirstMissing(e, form);
    Hydration(item.(fieldValue := Hydrated(e, item, Keys(form[..n]))),
              if n < |form| then Some(form[n].key) else None)
  }

  /**
   * What reading the detail document does to an item: only field values
   * change; keys outside the form keep their values; the reading stops at a
   * form key exactly when that key has no element; with no key missing,
   * every form key holds its element's text, "" for an element child, and
   * its old value when the element is empty.
   */
  lemma ItemFieldsSpec(e: Node, item: Item)
    ensures var r := ItemFields(e, item);
      r.item.(fieldValue := item.fieldValue) == item &&
      forall k | k !in Keys(item.fieldForm) :: GetFieldValue(r.item, k) == GetFieldValue(item, k)
    ensures var r := ItemFields(e, item);
      r.missing.None? <==> forall j | 0 <= j < |item.fieldForm| :: FieldNodeOf(e, item.fieldForm[j].key) != NoElement
    ensures var r := ItemFields(e, item);
      r.missing.Some? ==> r.missing.value in Keys(item.fieldForm) && FieldNodeOf(e, r.missing.value) == NoElement
    ensures var r := ItemFields(e, item);
      r.missing.None? ==> forall k | k in Keys(item.fieldForm) ::
        GetFieldValue(r.item, k) == match FieldNodeOf(e, k)
          case TextChild(v) => v
          case ElementChild => ""
          case _ => GetFieldValue(item, k)
  {
    ItemFieldsKept(e, item);
    ItemFieldsMissing(e, item);
    ItemFieldsValues(e, item);
  }

  /** The hydrated values, key by key: those of the fields read before the first missing one. */
  lemma ItemFieldsLookup(e: Node, item: Item)
    ensures var r, n := ItemFields(e, item), FirstMissing(e, item.fieldForm);
      forall k :: Lookup(r.item.fieldValue, k) == ValueAfter(e, item, Keys(item.fieldForm[..n]), k)
  {
    var n := FirstMissing(e, item.fieldForm);
    forall k
      ensures Lookup(Hydrated(e, item, Keys(item.fieldForm[..n])), k) == ValueAfter(e, item, Keys(item.fieldForm[..n]), k)
    {
      LookupHydrated(e, item, Keys(item.fieldForm[..n]), k);
    }
  }

  lemma ItemFieldsKept(e: Node, item: Item)
    ensures var r := ItemFields(e, item);
      r.item.(fieldValue := item.fieldValue) == item &&
      forall k | k !in Keys(item.fieldForm) :: GetFieldValue(r.item, k) == GetFieldValue(item, k)
  {
    var form := item.fieldForm;
    var n := FirstMissing(e, form);
    var r := ItemFields(e, item);
    ItemFieldsLookup(e, item);
    forall k | k !in Keys(form)
      ensures GetFieldValue(r.item, k) == GetFieldValue(item, k)
    {
      assert k !in Keys(form[..n]);
      assert Lookup(r.item.fieldValue, k) == Lookup(item.fieldValue, k);
    }
  }

  lemma ItemFieldsMissing(e: Node, item: Item)
    ensures var r := ItemFields(e, item);
      r.missing.None? <==> forall j | 0 <= j < |item.fieldForm| :: FieldNodeOf(e, item.fieldForm[j].key) != NoElement
    ensures var r := ItemFields(e, item);
      r.missing.Some? ==> r.missing.value in Keys(item.fieldForm) && FieldNodeOf(e, r.missing.value) == NoElement
  {
    var form := item.fieldForm;
    var n := FirstMissing(e, form);
    FirstMissingSpec(e, form);
    if n < |form| {
      assert form[n] in form;
    }
  }

  lemma ItemFieldsValues(e: Node, item: Item)
    ensures var r := ItemFields(e, item);
      r.missing.None? ==> forall k | k in Keys(item.fieldForm) ::
        GetFieldValue(r.item, k) == match FieldNodeOf(e, k)
          case TextChild(v) => v
          case ElementChild => ""
          case _ => GetFieldValue(item, k)
  {
    var form := item.fieldForm;
    var n := FirstMissing(e, form);
    var r := ItemFields(e, item);
    if n == |form| {
      assert form[..n] == form;
      ItemFieldsLookup(e, item);
      forall k | k in Keys(form)
        ensures GetFieldValue(r.item, k) == match FieldNodeOf(e, k)
          case TextChild(v) => v
          case ElementChild => ""
          case _ => GetFieldValue(item, k)
      {
        assert Lookup(r.item.fieldValue, k) == ValueAfter(e, item, Keys(form), k);
      }
    }
  }


  lemma FoundBeforeMissing(e: Node, form: FieldForm, i: nat)
    requires i <= FirstMissing(e, form) && i < |form| && FieldNodeOf(e, form[i].key) != NoElement
    ensures i + 1 <= FirstMissing(e, form)
  {
    FirstMissingSpec(e, form);
  }

  /** One field read: the item moves on from the values before form entry `i` to those after it. */
  lemma HydrateNext(e: Node, item: Item, i: nat, current: Item)
    requires i <= FirstMissing(e, item.fieldForm) && i < |item.fieldForm|
    requires FieldNodeOf(e, item.fieldForm[i].key) != NoElement
    requires current == item.(fieldValue := Hydrated(e, item, Keys(item.fieldForm[..i])))
    ensures i + 1 <= FirstMissing(e, item.fieldForm)
    ensures var key := item.fieldForm[i].key;
      item.(fieldValue := Hydrated(e, item, Keys(item.fieldForm[..i + 1]))) ==
        match FieldNodeOf(e, key)
        case TextChild(v) => SetFieldValue(current, key, v)
        case ElementChild => SetFieldNull(current, key)
        case _ => current
  {
    FoundBeforeMissing(e, item.fieldForm, i);
    HydratedStep(e, item, item.fieldForm, i);
  }

  /** Where the form reading stops, and what it has stored by then. */
  lemma ItemFieldsStop(e: Node, item: Item, i: nat)
    requires i <= FirstMissing(e, item.fieldForm)
    requires i < |item.fieldForm| ==> FieldNodeOf(e, item.fieldForm[i].key) == NoElement
    ensures ItemFields(e, item) == Hydration(item.(fieldValue := Hydrated(e, item, Keys(item.fieldForm[..i]))),
                                             if i < |item.fieldForm| then Some(item.fieldForm[i].key) else None)
  {
    FirstMissingSpec(e, item.fieldForm);
    assert i == FirstMissing(e, item.fieldForm);
  }

  /**
   * getItemFields: for each field-form key in order, the first element with
   * that tag; its first child's text becomes the value, an element child sets
   * null, no child leaves the value. A key with no element stops the loop
   * (the NullPointerException), with the earlier keys already stored.
   */
  method GetItemFields(e: Node, item: Item) returns (h: Hydration)
    ensures h == ItemFields(e, item)
  {
    var current := item;
    var form := item.fieldForm;
    for i := 0 to |form|
      invariant i <= FirstMissing(e, form)
      invariant current == item.(fieldValue := Hydrated(e, item, Keys(form[..i])))
    {
      var key := form[i].key;
      var found := FieldNodeOf(e, key);
      if found == NoElement {
        ItemFieldsStop(e, item, i);
        return Hydration(current, Some(key));
      }
      HydrateNext(e, item, i, current);
      match found {
        case NoChild =>
        case TextChild(v) =>
          current := SetFieldValue(current, key, v);
        case ElementChild =>
          current := SetFieldNull(current, key);
      }
    }
    ItemFieldsStop(e, item, |form|);
    return Hydration(current, None);
  }

  /** What loadItemFields(projectPath, item) yields for the files as they stand. */
  function LoadFields(files: map<string, Node>, projectPath: string, item: Item): Result<Hydration, LoadError>
  {
    var path := ItemPath(projectPath, item);
    if path !in files then Err(FileNotFound(path))
    else if files[path].Text? then Err(Malformed)
    else Ok(ItemFields(files[path], item))
  }

  /**
   * loadItemFields: the item's detail file, at the path ProjectIO gives it,
   * read into the item.
   */
  method LoadItemFields(files: map<string, Node>, projectPath: string, item: Item)
    returns (r: Result<Hydration, LoadError>)
    ensures ItemPath(projectPath, item) !in files ==> r == Err(FileNotFound(ItemPath(projectPath, item)))
    ensures ItemPath(projectPath, item) in files ==> var doc := files[ItemPath(projectPath, item)];
      (doc.Text? ==> r == Err(Malformed)) && (doc.Element? ==> r == Ok(ItemFields(doc, item)))
    ensures r == LoadFields(files, projectPath, item)
  {
    var path := ItemPath(projectPath, item);
    if path !in files {
      return Err(FileNotFound(path));
    }
    var doc := files[path];
    if !doc.Element? {
      return Err(Malformed);
    }
    var h := GetItemFields(doc, item);
    return Ok(h);
  }
}
