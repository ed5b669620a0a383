/**
 * What a save followed by a load gives back. The master document restores
 * every node's identity, name and type, with the children regrouped into
 * the order of getTypes; a detail document restores every form value.
 */
module RoundTrip {
  import opened Wrappers
  import opened Xml
  import opened ProjectItem
  import opened ProjectItemFactory
  import opened ProjectIO
  import opened ProjectTree
  import opened ProjectSaver
  import opened ProjectLoader

  // ---------------------------------------------------------------- detail documents

  /** In a detail document every form key other than `name` finds its own value as text. */
  lemma FormFieldFound(item: Item, k: string)
    requires k in Keys(item.fieldForm) && k != "name"
    ensures FieldNodeOf(ItemElement(item), k) == TextChild(GetFieldValue(item, k))
  {
    var e := ItemElement(item);
    var form := item.fieldForm;
    var fes := FormElements(item, form);
    var cs := e.children;
    assert cs == [NameElement(item.name)] + fes;
    forall c | c in cs
      ensures c.Element? && forall x | x in c.children :: x.Text?
      ensures c.Element? && c.tag == k ==> c == FormElement(item, k)
    {
      if c != NameElement(item.name) {
        assert c in fes;
        var i :| 0 <= i < |fes| && fes[i] == c;
        assert c == FormElement(item, form[i].key);
      }
    }
    var j :| j in form && j.key == k;
    var jx :| 0 <= jx < |form| && form[jx] == j;
    assert fes[jx] in cs;
    FlatHits(e, cs, k);
    assert Tagged(cs, k)[0] in Tagged(cs, k);
  }

  /**
   * loadItemFields on the detail document saveItem wrote for `item`, into an
   * item with the same field form: nothing is reported missing, every form
   * value is the saved item's, and the rest of the target is as it was.
   */
  lemma HydrateAfterSave(item: Item, target: Item)
    requires target.fieldForm == item.fieldForm && "name" !in Keys(item.fieldForm)
    ensures var r := ItemFields(ItemElement(item), target);
      r.missing.None? && r.item.(fieldValue := target.fieldValue) == target
    ensures var r := ItemFields(ItemElement(item), target);
      forall k | k in Keys(item.fieldForm) :: GetFieldValue(r.item, k) == GetFieldValue(item, k)
    ensures var r := ItemFields(ItemElement(item), target);
      forall k | k !in Keys(item.fieldForm) :: GetFieldValue(r.item, k) == GetFieldValue(target, k)
  {
    var e := ItemElement(item);
    var form := item.fieldForm;
    forall k | k in Keys(form)
      ensures FieldNodeOf(e, k) == TextChild(GetFieldValue(item, k))
    {
      FormFieldFound(item, k);
    }
    forall j | 0 <= j < |form|
      ensures FieldNodeOf(e, form[j].key) != NoElement
    {
      assert form[j].key in Keys(form);
    }
    ItemFieldsSpec(e, target);
  }

  // ---------------------------------------------------------------- master documents

  /** A tree the loader can read back: every id is set and every type tag is known. */
  predicate Loadable(t: TreeNode)
  {
    t.item.id.Some? && IsKnownType(t.item.itemType) && forall c | c in t.children :: Loadable(c)
  }

  /** The trees of `ts` whose item has type `ty`, in their order. */
  function OfType(ts: seq<TreeNode>, ty: string): (r: seq<TreeNode>)
    ensures forall x | x in r :: x in ts && x.item.itemType == ty
    ensures forall x | x in ts && x.item.itemType == ty :: x in r
  {
    if ts == [] then []
    else (if ts[0].item.itemType == ty then [ts[0]] else []) + OfType(ts[1..], ty)
  }

  /** Children in the loader's order: those of the first type, then those of the second, and so on. */
  function GroupTrees(ts: seq<TreeNode>, types: seq<string>): (r: seq<TreeNode>)
    ensures forall x | x in r :: x in ts && x.item.itemType in types
    ensures forall x | x in ts && x.item.itemType in types :: x in r
  {
    if types == [] then []
    else GroupTrees(ts, types[..|types| - 1]) + OfType(ts, types[|types| - 1])
  }

  /**
   * The tree a load of the saved master document yields: each item as the
   * factory creates it from its name, type and id (so with no field values),
   * and each node's children regrouped by getTypes; children of any other
   * type are not read back.
   */
  function Reloaded(f: ItemFactory, t: TreeNode): TreeNode
    requires Loadable(t)
  {
    var gs := GroupTrees(t.children, GetTypes());
    TreeNode(Create(f, t.item.name, t.item.itemType, t.item.id).value,
             seq(|gs|, i requires 0 <= i < |gs| => Reloaded(f, gs[i])))
  }

  function ReloadedAll(f: ItemFactory, ts: seq<TreeNode>): (r: seq<TreeNode>)
    requires forall x | x in ts :: Loadable(x)
    ensures |r| == |ts|
  {
    seq(|ts|, i requires 0 <= i < |ts| => Reloaded(f, ts[i]))
  }

  lemma ReloadedChildren(f: ItemFactory, t: TreeNode)
    requires Loadable(t)
    ensures Reloaded(f, t).children == ReloadedAll(f, GroupTrees(t.children, GetTypes()))
  {
  }

  lemma MasterElementsAppend(a: seq<TreeNode>, b: seq<TreeNode>, v: string)
    ensures MasterElements(a + b, v) == MasterElements(a, v) + MasterElements(b, v)
  {
  }

  lemma MasterElementsCons(ts: seq<TreeNode>, v: string)
    requires ts != []
    ensures MasterElements(ts, v) == [MasterElement(ts[0], v)] + MasterElements(ts[1..], v)
  {
  }

  lemma {:induction false} TaggedMasters(ts: seq<TreeNode>, v: string, ty: string)
    ensures Tagged(MasterElements(ts, v), ty) == MasterElements(OfType(ts, ty), v)
  {
    if ts != [] {
      var ms := MasterElements(ts, v);
      var m := MasterElement(ts[0], v);
      MasterElementsCons(ts, v);
      assert ms[0] == m && ms[1..] == MasterElements(ts[1..], v);
      assert m.Element? && m.tag == ts[0].item.itemType;
      TaggedMasters(ts[1..], v, ty);
      var here := if ts[0].item.itemType == ty then [ts[0]] else [];
      assert Tagged(ms, ty) == MasterElements(here, v) + MasterElements(OfType(ts[1..], ty), v);
      MasterElementsAppend(here, OfType(ts[1..], ty), v);
    }
  }

  lemma {:induction false} GroupMasters(name: string, ts: seq<TreeNode>, v: string, types: seq<string>)
    requires "name" !in types
    ensures GroupByTypes([NameElement(name)] + MasterElements(ts, v), types) == MasterElements(GroupTrees(ts, types), v)
  {
    if types != [] {
      var n := |types| - 1;
      var cs := [NameElement(name)] + MasterElements(ts, v);
      GroupMasters(name, ts, v, types[..n]);
      assert cs[1..] == MasterElements(ts, v);
      TaggedMasters(ts, v, types[n]);
      MasterElementsAppend(GroupTrees(ts, types[..n]), OfType(ts, types[n]), v);
    }
  }

  /** The loader's child elements of a master element are the master elements of the regrouped children. */
  lemma MasterChildren(t: TreeNode, v: string)
    ensures ChildElements(MasterElement(t, v)) == MasterElements(GroupTrees(t.children, GetTypes()), v)
  {
    var e := MasterElement(t, v);
    assert e.children == [NameElement(t.item.name)] + MasterElements(t.children, v);
    GroupMasters(t.item.name, t.children, v, GetTypes());
  }

  /** The master element's name is found: its first descendant `name` is its own `name` child. */
  lemma MasterName(t: TreeNode, v: string)
    ensures NameOf(MasterElement(t, v)) == Ok(t.item.name)
  {
    var e := MasterElement(t, v);
    assert e.children[0] == NameElement(t.item.name);
    assert ElementsByTagName(e, "name")[0] == Hit(e, NameElement(t.item.name));
  }

  /**
   * Loading (without resetting ids) the master element saveTreeModel wrote
   * for a loadable tree succeeds, draws no ids, and yields Reloaded(t).
   */
  lemma {:induction false} LoadSaved(f: ItemFactory, t: TreeNode, v: string, ids: IdSource, k: nat)
    requires Loadable(t)
    ensures LoadNode(f, MasterElement(t, v), false, ids, k) == Ok(Loaded(Reloaded(f, t), k))
    decreases t, 1
  {
    var e := MasterElement(t, v);
    MasterName(t, v);
    var gs := GroupTrees(t.children, GetTypes());
    MasterChildren(t, v);
    LoadSavedList(f, t, gs, v, ids, k);
    ReloadedChildren(f, t);
  }

  lemma {:induction false} LoadSavedList(f: ItemFactory, t: TreeNode, gs: seq<TreeNode>, v: string, ids: IdSource, k: nat)
    requires Loadable(t) && forall g | g in gs :: g in t.children
    ensures forall g | g in gs :: Loadable(g)
    ensures var e := MasterElement(t, v);
      (forall c | c in MasterElements(gs, v) :: c in e.children && c.Element?) &&
      LoadList(f, e, MasterElements(gs, v), false, ids, k) == Ok(Loaded(ReloadedAll(f, gs), k))
    decreases t, 0, |gs|
  {
    MastersInside(t, gs, v);
    if gs != [] {
      var n := |gs| - 1;
      var e := MasterElement(t, v);
      assert forall g | g in gs[..n] :: g in gs;
      LoadSavedList(f, t, gs[..n], v, ids, k);
      assert gs[n] in t.children;
      LoadSaved(f, gs[n], v, ids, k);
      MasterElementsSnoc(gs, n, v);
      assert gs[..n + 1] == gs;
      LoadListSnoc(f, e, MasterElements(gs[..n], v), MasterElement(gs[n], v), false, ids, k);
      ReloadedAllSnoc(f, gs);
    }
  }

  lemma MastersInside(t: TreeNode, gs: seq<TreeNode>, v: string)
    requires forall g | g in gs :: g in t.children
    ensures forall c | c in MasterElements(gs, v) :: c in MasterElement(t, v).children && c.Element?
  {
    var e := MasterElement(t, v);
    var ms := MasterElements(gs, v);
    assert e.children == [NameElement(t.item.name)] + MasterElements(t.children, v);
    forall c | c in ms
      ensures c in e.children && c.Element?
    {
      var i :| 0 <= i < |gs| && ms[i] == c;
      assert gs[i] in t.children;
      var j :| 0 <= j < |t.children| && t.children[j] == gs[i];
      assert e.children[j + 1] == MasterElements(t.children, v)[j];
    }
  }

  lemma ReloadedAllSnoc(f: ItemFactory, gs: seq<TreeNode>)
    requires gs != [] && forall g | g in gs :: Loadable(g)
    ensures ReloadedAll(f, gs) == ReloadedAll(f, gs[..|gs| - 1]) + [Reloaded(f, gs[|gs| - 1])]
  {
  }

  // ---------------------------------------------------------------- fixed points

  /**
   * A tree already in the form a load produces: factory-made items with no
   * field values and children grouped by getTypes, all the way down.
   */
  predicate Canonical(f: ItemFactory, t: TreeNode)
  {
    Loadable(t) &&
    Create(f, t.item.name, t.item.itemType, t.item.id) == Some(t.item) &&
    GroupTrees(t.children, GetTypes()) == t.children &&
    forall c | c in t.children :: Canonical(f, c)
  }

  /** A canonical tree is its own reload. */
  lemma {:induction false} ReloadCanonical(f: ItemFactory, t: TreeNode)
    requires Canonical(f, t)
    ensures Reloaded(f, t) == t
  {
    var r := Reloaded(f, t);
    ReloadedChildren(f, t);
    forall i | 0 <= i < |t.children|
      ensures r.children[i] == t.children[i]
    {
      assert t.children[i] in t.children;
      ReloadCanonical(f, t.children[i]);
    }
  }

  lemma {:induction false} OfTypeAppend(a: seq<TreeNode>, b: seq<TreeNode>, ty: string)
    ensures OfType(a + b, ty) == OfType(a, ty) + OfType(b, ty)
  {
    if a == [] {
      assert a + b == b;
    } else {
      assert (a + b)[0] == a[0];
      assert (a + b)[1..] == a[1..] + b;
      OfTypeAppend(a[1..], b, ty);
    }
  }

  lemma {:induction false} OfTypeTwice(ts: seq<TreeNode>, ty: string, ty2: string)
    ensures OfType(OfType(ts, ty2), ty) == if ty == ty2 then OfType(ts, ty) else []
  {
    if ts != [] {
      var here := if ts[0].item.itemType == ty2 then [ts[0]] else [];
      OfTypeAppend(here, OfType(ts[1..], ty2), ty);
      OfTypeTwice(ts[1..], ty, ty2);
    }
  }

  /** Picking one type out of grouped children picks the same trees as out of the original children. */
  lemma {:induction false} OfTypeGroup(ts: seq<TreeNode>, types: seq<string>, ty: string)
    requires forall i, j | 0 <= i < j < |types| :: types[i] != types[j]
    ensures OfType(GroupTrees(ts, types), ty) == if ty in types then OfType(ts, ty) else []
  {
    if types != [] {
      var n := |types| - 1;
      assert types == types[..n] + [types[n]];
      OfTypeGroup(ts, types[..n], ty);
      OfTypeAppend(GroupTrees(ts, types[..n]), OfType(ts, types[n]), ty);
      OfTypeTwice(ts, ty, types[n]);
    }
  }

  lemma {:induction false} GroupTwice(ts: seq<TreeNode>, types: seq<string>, m: nat)
    requires forall i, j | 0 <= i < j < |types| :: types[i] != types[j]
    requires m <= |types|
    ensures GroupTrees(GroupTrees(ts, types), types[..m]) == GroupTrees(ts, types[..m])
  {
    if m > 0 {
      GroupTwice(ts, types, m - 1);
      assert types[..m][..m - 1] == types[..m - 1];
      OfTypeGroup(ts, types, types[m - 1]);
    }
  }

  lemma ReloadedAllAppend(f: ItemFactory, a: seq<TreeNode>, b: seq<TreeNode>)
    requires forall x | x in a + b :: Loadable(x)
    ensures ReloadedAll(f, a + b) == ReloadedAll(f, a) + ReloadedAll(f, b)
  {
  }

  /** The reloaded item keeps the type and id, and is the one the factory makes from those. */
  lemma ReloadedItem(f: ItemFactory, t: TreeNode)
    requires Loadable(t)
    ensures var it := Reloaded(f, t).item;
      it.itemType == t.item.itemType && it.id == t.item.id && Create(f, it.name, it.itemType, it.id) == Some(it)
  {
  }

  lemma ReloadedAllCons(f: ItemFactory, ts: seq<TreeNode>)
    requires ts != [] && forall x | x in ts :: Loadable(x)
    ensures forall x | x in ts[1..] :: Loadable(x)
    ensures ReloadedAll(f, ts) == [Reloaded(f, ts[0])] + ReloadedAll(f, ts[1..])
  {
    assert forall x | x in ts[1..] :: x in ts;
  }

  lemma {:induction false} OfTypeReloaded(f: ItemFactory, ts: seq<TreeNode>, ty: string)
    requires forall x | x in ts :: Loadable(x)
    ensures OfType(ReloadedAll(f, ts), ty) == ReloadedAll(f, OfType(ts, ty))
  {
    if ts != [] {
      ReloadedAllCons(f, ts);
      ReloadedItem(f, ts[0]);
      OfTypeAppend([Reloaded(f, ts[0])], ReloadedAll(f, ts[1..]), ty);
      OfTypeReloaded(f, ts[1..], ty);
      var here := if ts[0].item.itemType == ty then [ts[0]] else [];
      ReloadedAllAppend(f, here, OfType(ts[1..], ty));
    }
  }

  lemma {:induction false} GroupReloaded(f: ItemFactory, ts: seq<TreeNode>, types: seq<string>)
    requires forall x | x in ts :: Loadable(x)
    ensures GroupTrees(ReloadedAll(f, ts), types) == ReloadedAll(f, GroupTrees(ts, types))
  {
    if types != [] {
      var n := |types| - 1;
      GroupReloaded(f, ts, types[..n]);
      OfTypeReloaded(f, ts, types[n]);
      ReloadedAllAppend(f, GroupTrees(ts, types[..n]), OfType(ts, types[n]));
    }
  }

  /** Regrouping the reloaded children changes nothing. */
  lemma ReloadedGrouped(f: ItemFactory, t: TreeNode)
    requires Loadable(t)
    ensures GroupTrees(Reloaded(f, t).children, GetTypes()) == Reloaded(f, t).children
  {
    var types := GetTypes();
    var gs := GroupTrees(t.children, types);
    ReloadedChildren(f, t);
    GroupReloaded(f, gs, types);
    GroupTwice(t.children, types, |types|);
    assert types[..|types|] == types;
  }

  /** What a load produces is canonical. */
  lemma {:induction false} ReloadedIsCanonical(f: ItemFactory, t: TreeNode)
    requires Loadable(t)
    ensures Canonical(f, Reloaded(f, t))
    decreases t, 1
  {
    var r := Reloaded(f, t);
    ReloadedItem(f, t);
    ReloadedGrouped(f, t);
    ReloadedChildrenCanonical(f, t);
    ReloadedChildren(f, t);
    assert forall c | c in r.children :: Canonical(f, c);
  }

  lemma {:induction false} ReloadedChildrenCanonical(f: ItemFactory, t: TreeNode)
    requires Loadable(t)
    ensures var gs := GroupTrees(t.children, GetTypes());
      forall i | 0 <= i < |gs| :: gs[i] in t.children && Canonical(f, Reloaded(f, gs[i]))
    decreases t, 0
  {
    var gs := GroupTrees(t.children, GetTypes());
    forall i | 0 <= i < |gs|
      ensures gs[i] in t.children && Canonical(f, Reloaded(f, gs[i]))
    {
      assert gs[i] in gs;
      ReloadedIsCanonical(f, gs[i]);
    }
  }

  /** A canonical tree survives a save and a load unchanged. */
  lemma SaveLoadCanonical(f: ItemFactory, t: TreeNode, v: string, ids: IdSource, k: nat)
    requires Canonical(f, t)
    ensures LoadNode(f, MasterElement(t, v), false, ids, k) == Ok(Loaded(t, k))
  {
    LoadSaved(f, t, v, ids, k);
    ReloadCanonical(f, t);
  }

  /** Saving and loading twice gives the same tree as doing it once. */
  lemma SaveLoadIdempotent(f: ItemFactory, t: TreeNode, v: string, ids: IdSource, k: nat)
    requires Loadable(t)
    ensures LoadNode(f, MasterElement(Reloaded(f, t), v), false, ids, k) == Ok(Loaded(Reloaded(f, t), k))
  {
    ReloadedIsCanonical(f, t);
    SaveLoadCanonical(f, Reloaded(f, t), v, ids, k);
  }

  // ---------------------------------------------------------------- whole files

  /** Everything the loader builds is loadable again: ids set and type tags known, all the way down. */
  lemma {:induction false} LoadedIsLoadable(f: ItemFactory, e: Node, resetIds: bool, ids: IdSource, next: nat,
                                            t: TreeNode, k: nat)
    requires e.Element? && LoadNode(f, e, resetIds, ids, next) == Ok(Loaded(t, k))
    ensures Loadable(t)
    decreases e, 1
  {
    var it, kids := LoadNodeParts(f, e, resetIds, ids, next, t, k);
    LoadedAllLoadable(f, e, ChildElements(e), resetIds, ids, it.next, kids.value, kids.next);
  }

  lemma {:induction false} LoadedAllLoadable(f: ItemFactory, parent: Node, es: seq<Node>, resetIds: bool, ids: IdSource,
                                             next: nat, ts: seq<TreeNode>, k: nat)
    requires parent.Element? && forall c | c in es :: c in parent.children && c.Element?
    requires LoadList(f, parent, es, resetIds, ids, next) == Ok(Loaded(ts, k))
    ensures forall x | x in ts :: Loadable(x)
    decreases parent, 0, |es|
  {
    if es != [] {
      var n := |es| - 1;
      var front := LoadList(f, parent, es[..n], resetIds, ids, next).value;
      var last := LoadNode(f, es[n], resetIds, ids, front.next).value;
      assert ts == front.value + [last.value];
      LoadedAllLoadable(f, parent, es[..n], resetIds, ids, next, front.value, front.next);
      assert es[n] in parent.children;
      LoadedIsLoadable(f, es[n], resetIds, ids, front.next, last.value, last.next);
    }
  }

  /**
   * Reopening the file just saved: whatever was written before, loading the
   * master file of a save of `t` yields Reloaded(t), with no ids drawn.
   */
  lemma ReopenSaved(f: ItemFactory, files: map<string, Node>, before: seq<FileOp>, t: TreeNode,
                    filepath: string, v: string, ids: IdSource, k: nat)
    requires Loadable(t)
    ensures LoadFile(f, ApplyLog(files, before + SaveLog(t, filepath, v)), filepath, false, ids, k)
      == Ok(Loaded(Reloaded(f, t), k))
  {
    var log := before + SaveLog(t, filepath, v);
    assert log[|log| - 1] == WriteDoc(filepath, MasterElement(t, v));
    LoadSaved(f, t, v, ids, k);
  }

  /** After a write log has run, a path holds the document of the last write to it. */
  lemma {:induction false} ApplyLogLatest(files: map<string, Node>, log: seq<FileOp>, i: nat)
    requires i < |log| && log[i].WriteDoc?
    requires forall j | i < j < |log| && log[j].WriteDoc? :: log[j].path != log[i].path
    ensures log[i].path in ApplyLog(files, log) && ApplyLog(files, log)[log[i].path] == log[i].doc
    decreases |log|
  {
    var n := |log| - 1;
    if i < n {
      var front := log[..n];
      assert front[i] == log[i];
      assert forall j | i < j < |front| && front[j].WriteDoc? :: front[j] == log[j];
      ApplyLogLatest(files, front, i);
    }
  }

  /** The save log entry at `j` beyond `before`: a directory, or the detail file of node j / 2. */
  lemma SaveLogAt(before: seq<FileOp>, t: TreeNode, filepath: string, v: string, j: nat)
    requires |before| <= j < |before| + 2 * NodeCount(t)
    ensures var log, b := before + SaveLog(t, filepath, v), (j - |before|) / 2;
      b < NodeCount(t) &&
      (log[j].WriteDoc? ==> log[j] == WriteDoc(ItemPath(filepath, PreOrder(t)[b]), ItemElement(PreOrder(t)[b]))) &&
      ((j - |before|) % 2 == 1 <==> log[j].WriteDoc?)
  {
    var b := (j - |before|) / 2;
    ItemWritesOfAt(PreOrder(t), filepath, b);
  }

  /**
   * After a save, the detail file of the node at pre-order position `a`
   * holds that item's element, provided no other node and not the master
   * file share its path.
   */
  lemma SavedDetail(files: map<string, Node>, before: seq<FileOp>, t: TreeNode, filepath: string, v: string, a: nat)
    requires a < NodeCount(t)
    requires forall b | 0 <= b < NodeCount(t) && b != a :: ItemPath(filepath, PreOrder(t)[b]) != ItemPath(filepath, PreOrder(t)[a])
    requires ItemPath(filepath, PreOrder(t)[a]) != filepath
    ensures var after, it := ApplyLog(files, before + SaveLog(t, filepath, v)), PreOrder(t)[a];
      ItemPath(filepath, it) in after && after[ItemPath(filepath, it)] == ItemElement(it)
  {
    var log := before + SaveLog(t, filepath, v);
    var i := |before| + 2 * a + 1;
    SaveLogAt(before, t, filepath, v, i);
    forall j | i < j < |log| && log[j].WriteDoc?
      ensures log[j].path != log[i].path
    {
      if j < |before| + 2 * NodeCount(t) {
        SaveLogAt(before, t, filepath, v, j);
      }
    }
    ApplyLogLatest(files, log, i);
  }

  /**
   * The detail round trip: after a save, loadItemFields on an item with the
   * saved node's type, id and field form reads back every form value the
   * saved item held, reports nothing missing and changes nothing else.
   */
  lemma DetailRoundTrip(files: map<string, Node>, before: seq<FileOp>, t: TreeNode, filepath: string, v: string,
                        a: nat, target: Item)
    requires a < NodeCount(t)
    requires forall b | 0 <= b < NodeCount(t) && b != a :: ItemPath(filepath, PreOrder(t)[b]) != ItemPath(filepath, PreOrder(t)[a])
    requires ItemPath(filepath, PreOrder(t)[a]) != filepath
    requires var it := PreOrder(t)[a];
      target.itemType == it.itemType && target.id == it.id && target.fieldForm == it.fieldForm &&
      "name" !in Keys(it.fieldForm)
    ensures var after, it := ApplyLog(files, before + SaveLog(t, filepath, v)), PreOrder(t)[a];
      var p := ItemPath(filepath, target);
      p in after && after[p].Element? &&
      ItemFields(after[p], target).missing.None? &&
      ItemFields(after[p], target).item.(fieldValue := target.fieldValue) == target &&
      forall k | k in Keys(it.fieldForm) :: GetFieldValue(ItemFields(after[p], target).item, k) == GetFieldValue(it, k)
  {
    var it := PreOrder(t)[a];
    SavedDetail(files, before, t, filepath, v, a);
    PathsDependOnTypeAndId(filepath, target, it);
    HydrateAfterSave(it, target);
  }
}
