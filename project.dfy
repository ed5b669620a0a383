/**
 * The project session: the open project's tree model and its file path,
 * changed in place by open, openTemplate, save, addItem, removeItem and
 * loadItemFields.
 */
module ProjectSession {
  import opened Wrappers
  import opened Xml
  import opened ProjectItem
  import opened ProjectItemFactory
  import opened ProjectIO
  import opened ProjectTree
  import opened ProjectSaver
  import opened ProjectLoader
  import opened RoundTrip

  /** Why a session operation had no effect, or stopped part way (Java: the exception it throws). */
  datatype SessionError =
    | NoModel                           // no project is open: `model` is null
    | NoPath                            // save() while `path` is null
    | UnknownItemType(itemType: string) // create returned null and resetId dereferenced it
    | LoadFailed(error: LoadError)
    | MissingField(key: string)         // hydration stopped at a form key with no element

  /**
   * getNewItemName: the label a new item of a creatable type gets; any other
   * tag is its own label. Distinct creatable types get distinct labels.
   */
  function GetNewItemName(itemType: string): (r: string)
    ensures r == itemType <==> itemType !in GetTypes()
    ensures itemType in GetTypes() ==> |r| > 4 && r[..4] == "New " && r !in GetTypes()
  {
    match itemType
    case "goal" => "New goal"
    case "section" => "New section"
    case "funcRequirement" => "New functional requirement"
    case "nonFuncRequirement" => "New non-functional requirement"
    case _ => itemType
  }

  lemma NewItemNamesDistinct(a: string, b: string)
    requires a in GetTypes() && b in GetTypes() && a != b
    ensures GetNewItemName(a) != GetNewItemName(b)
  {
  }

  /** A subtree of a loadable tree is loadable. */
  lemma {:induction false} NodeAtLoadable(t: TreeNode, p: TreePath)
    requires Loadable(t) && ValidPath(t, p)
    ensures Loadable(NodeAt(t, p))
    decreases p
  {
    if p != [] {
      assert t.children[p[0]] in t.children;
      NodeAtLoadable(t.children[p[0]], p[1..]);
    }
  }

  /** Putting a loadable subtree into a loadable tree keeps it loadable. */
  lemma {:induction false} ReplaceAtLoadable(t: TreeNode, p: TreePath, s: TreeNode)
    requires Loadable(t) && ValidPath(t, p) && Loadable(s)
    ensures Loadable(ReplaceAt(t, p, s))
    decreases p
  {
    if p != [] {
      var i := p[0];
      assert t.children[i] in t.children;
      ReplaceAtLoadable(t.children[i], p[1..], s);
      var r := ReplaceAt(t, p, s);
      assert r.children == t.children[i := ReplaceAt(t.children[i], p[1..], s)];
      forall c | c in r.children
        ensures Loadable(c)
      {
        var j :| 0 <= j < |r.children| && r.children[j] == c;
        if j != i {
          assert t.children[j] in t.children;
        }
      }
    }
  }

  class Project {
    /** The file the project was opened from or last saved to; None is Java's null. */
    var path: Option<string>
    /** The tree model; None until a project or template is opened. */
    var model: Option<TreeNode>
    /** Every file write the saver has made, in order. */
    var written: seq<FileOp>
    /** How many fresh ids resetId has drawn from `ids` so far. */
    var drawn: nat

    const factory: ItemFactory
    const appVersion: string
    /** The UUID generator, as the sequence of ids it hands out. */
    const ids: IdSource
    /** The file system as it was when the session began. */
    const initialFiles: map<string, Node>

    /** The files as they stand now: the initial ones overwritten by every write made since. */
    function Files(): map<string, Node>
      reads this
    {
      ApplyLog(initialFiles, written)
    }

    /** An open model is one a save writes real ids for and a load reads back: every id set, every type known. */
    predicate Valid()
      reads this
    {
      model.Some? ==> Loadable(model.value)
    }

    /** Project(loader, saver, itemFactory): nothing open yet, nothing written. */
    constructor (factory: ItemFactory, appVersion: string, ids: IdSource, files: map<string, Node>)
      ensures this.factory == factory && this.appVersion == appVersion && this.ids == ids
      ensures initialFiles == files && written == [] && drawn == 0
      ensures path.None? && model.None? && Valid()
    {
      this.factory := factory;
      this.appVersion := appVersion;
      this.ids := ids;
      this.initialFiles := files;
      path := None;
      model := None;
      written := [];
      drawn := 0;
    }

    /**
     * open(filepath): the tree is loaded with ids as stored and the path
     * becomes `filepath`; a load that fails changes nothing.
     */
    method Open(filepath: string) returns (r: Result<TreeNode, SessionError>)
      requires Valid()
      modifies this
      ensures Valid()
      ensures written == old(written) && drawn == old(drawn)
      ensures var l := LoadFile(factory, old(Files()), filepath, false, ids, old(drawn));
        if l.Ok? then r == Ok(l.value.value) && model == Some(l.value.value) && path == Some(filepath)
        else r == Err(LoadFailed(l.error)) && model == old(model) && path == old(path)
    {
      var l := LoadStoredTreeModel(factory, Files(), filepath, ids, drawn);
      match l
      case Err(x) =>
        r := Err(LoadFailed(x));
      case Ok(loaded) =>
        LoadedIsLoadable(factory, Files()[filepath], false, ids, drawn, loaded.value, loaded.next);
        model := Some(loaded.value);
        path := Some(filepath);
        r := Ok(loaded.value);
    }

    /**
     * openTemplate(filepath): the tree is loaded with every id, the root's
     * included, replaced by a fresh one in pre-order, and the path is cleared;
     * a load that fails changes nothing. Apart from the ids, the outcome is
     * what open(filepath) would load.
     */
    method OpenTemplate(filepath: string) returns (r: Result<TreeNode, SessionError>)
      requires Valid()
      modifies this
      ensures Valid() && written == old(written)
      ensures var l := LoadFile(factory, old(Files()), filepath, true, ids, old(drawn));
        if l.Ok? then r == Ok(l.value.value) && model == Some(l.value.value) && path.None? && drawn == l.value.next
        else r == Err(LoadFailed(l.error)) && model == old(model) && path == old(path) && drawn == old(drawn)
      ensures r.Ok? ==>
        drawn == old(drawn) + NodeCount(r.value) && IdsOf(PreOrder(r.value)) == Drawn(ids, old(drawn), drawn)
      ensures var s := LoadFile(factory, old(Files()), filepath, false, ids, old(drawn));
        (r.Ok? <==> s.Ok?) && (r.Ok? ==> Unid(r.value) == Unid(s.value.value)) &&
        (r.Err? ==> r == Err(LoadFailed(s.error)))
    {
      ResetOnlyIdsFile(factory, Files(), filepath, ids, drawn, drawn);
      var l := LoadTreeModelFile(factory, Files(), filepath, true, ids, drawn);
      match l
      case Err(x) =>
        r := Err(LoadFailed(x));
      case Ok(loaded) =>
        LoadedIsLoadable(factory, Files()[filepath], true, ids, drawn, loaded.value, loaded.next);
        LoadNodeIds(factory, Files()[filepath], true, ids, drawn, loaded.value, loaded.next);
        model := Some(loaded.value);
        path := None;
        drawn := loaded.next;
        r := Ok(loaded.value);
    }

    /** openTemplate(InputSource): the same, for a template document handed over directly. */
    method OpenTemplateSource(doc: Node) returns (r: Result<TreeNode, SessionError>)
      requires Valid()
      modifies this
      ensures Valid() && written == old(written)
      ensures doc.Text? ==> r == Err(LoadFailed(Malformed)) && model == old(model) && path == old(path) && drawn == old(drawn)
      ensures doc.Element? ==> var l := LoadNode(factory, doc, true, ids, old(drawn));
        if l.Ok? then r == Ok(l.value.value) && model == Some(l.value.value) && path.None? && drawn == l.value.next
        else r == Err(LoadFailed(l.error)) && model == old(model) && path == old(path) && drawn == old(drawn)
      ensures r.Ok? ==>
        drawn == old(drawn) + NodeCount(r.value) && IdsOf(PreOrder(r.value)) == Drawn(ids, old(drawn), drawn)
      ensures doc.Element? ==> var s := LoadNode(factory, doc, false, ids, old(drawn));
        (r.Ok? <==> s.Ok?) && (r.Ok? ==> Unid(r.value) == Unid(s.value.value)) &&
        (r.Err? ==> r == Err(LoadFailed(s.error)))
    {
      if doc.Element? {
        ResetOnlyIds(factory, doc, ids, drawn, drawn);
      }
      var l := LoadTreeModel(factory, doc, true, ids, drawn);
      match l
      case Err(x) =>
        r := Err(LoadFailed(x));
      case Ok(loaded) =>
        LoadedIsLoadable(factory, doc, true, ids, drawn, loaded.value, loaded.next);
        LoadNodeIds(factory, doc, true, ids, drawn, loaded.value, loaded.next);
        model := Some(loaded.value);
        path := None;
        drawn := loaded.next;
        r := Ok(loaded.value);
    }

    /**
     * save(filepath): every detail file and then the master file are
     * written, and the path becomes `filepath`; the master file now holds
     * the model's master element. With no model nothing happens.
     */
    method Save(filepath: string) returns (r: Result<(), SessionError>)
      requires Valid()
      modifies this
      ensures Valid() && model == old(model) && drawn == old(drawn)
      ensures old(model).None? ==> r == Err(NoModel) && written == old(written) && path == old(path)
      ensures old(model).Some? ==>
        r == Ok(()) && path == Some(filepath) && written == old(written) + SaveLog(model.value, filepath, appVersion)
      ensures old(model).Some? ==> filepath in Files() && Files()[filepath] == MasterElement(model.value, appVersion)
    {
      if model.None? {
        return Err(NoModel);
      }
      var log := SaveTreeModel(model.value, filepath, appVersion);
      written := written + log;
      assert written[|written| - 1] == WriteDoc(filepath, MasterElement(model.value, appVersion));
      path := Some(filepath);
      r := Ok(());
    }

    /** save(): save(path); with no model, or no path yet, nothing is written. */
    method SaveCurrent() returns (r: Result<(), SessionError>)
      requires Valid()
      modifies this
      ensures Valid() && model == old(model) && drawn == old(drawn) && path == old(path)
      ensures old(model).None? ==> r == Err(NoModel) && written == old(written)
      ensures old(model).Some? && old(path).None? ==> r == Err(NoPath) && written == old(written)
      ensures old(model).Some? && old(path).Some? ==>
        r == Ok(()) && written == old(written) + SaveLog(model.value, path.value, appVersion)
    {
      if model.None? {
        return Err(NoModel);
      }
      if path.None? {
        return Err(NoPath);
      }
      r := Save(path.value);
    }

    /** getItemTypes: the types a new item can have, each of which the factory creates. */
    method GetItemTypes() returns (r: seq<string>)
      ensures r == GetTypes()
      ensures forall t | t in r :: CreateWithoutId(factory, GetNewItemName(t), t).Some?
    {
      r := GetTypes();
    }

    /**
     * addItem(itemType, parent): a new leaf named getNewItemName(itemType)
     * with a fresh id goes after the parent's existing children (the root's
     * when no parent is given); the result is its position. An unknown type,
     * or no model, changes nothing.
     */
    method AddItem(itemType: string, parent: Option<TreePath>) returns (r: Result<TreePath, SessionError>)
      requires Valid()
      requires model.Some? && parent.Some? ==> ValidPath(model.value, parent.value)
      modifies this
      ensures Valid() && path == old(path) && written == old(written)
      ensures old(model).None? ==> r == Err(NoModel) && model == old(model) && drawn == old(drawn)
      ensures old(model).Some? && !IsKnownType(itemType) ==>
        r == Err(UnknownItemType(itemType)) && model == old(model) && drawn == old(drawn)
      ensures old(model).Some? && IsKnownType(itemType) ==>
        var at := if parent.Some? then parent.value else [];
        var item := ResetId(CreateWithoutId(factory, GetNewItemName(itemType), itemType).value, ids(old(drawn)));
        model == Some(InsertLast(old(model).value, at, TreeNode(item, []))) && drawn == old(drawn) + 1 &&
        r == Ok(at + [|NodeAt(old(model).value, at).children|])
      ensures r.Ok? ==>
        old(model).Some? && model.Some? && ValidPath(model.value, r.value) &&
        var it := NodeAt(model.value, r.value).item;
        it.itemType == itemType && it.name == GetNewItemName(itemType) && it.id == Some(ids(old(drawn))) &&
        NodeCount(model.value) == NodeCount(old(model).value) + 1
    {
      if model.None? {
        return Err(NoModel);
      }
      var t := model.value;
      var at := if parent.Some? then parent.value else [];
      var created := CreateWithoutId(factory, GetNewItemName(itemType), itemType);
      if created.None? {
        return Err(UnknownItemType(itemType));
      }
      var item := ResetId(created.value, ids(drawn));
      var node := TreeNode(item, []);
      var n := |NodeAt(t, at).children|;
      var t' := InsertLast(t, at, node);
      NodeAtLoadable(t, at);
      ReplaceAtLoadable(t, at, NodeAt(t, at).(children := NodeAt(t, at).children + [node]));
      NodeAtChild(t', at, n);
      InsertLastCount(t, at, node);
      model := Some(t');
      drawn := drawn + 1;
      r := Ok(at + [n]);
    }

    /**
     * removeItem(node): the root has no parent and stays; any other node is
     * detached from its parent together with its whole subtree.
     */
    method RemoveItem(at: TreePath)
      requires Valid() && model.Some? && ValidPath(model.value, at)
      modifies this
      ensures Valid() && path == old(path) && written == old(written) && drawn == old(drawn)
      ensures at == [] ==> model == old(model)
      ensures at != [] ==>
        model == Some(RemoveAt(old(model).value, at)) &&
        NodeCount(model.value) == NodeCount(old(model).value) - NodeCount(NodeAt(old(model).value, at))
    {
      if at != [] {
        var t := model.value;
        var parent, i := at[..|at| - 1], at[|at| - 1];
        ParentPathValid(t, at);
        var p := NodeAt(t, parent);
        NodeAtLoadable(t, parent);
        assert forall c | c in p.children[..i] + p.children[i + 1..] :: c in p.children;
        ReplaceAtLoadable(t, parent, p.(children := p.children[..i] + p.children[i + 1..]));
        RemoveAtCount(t, at);
        model := Some(RemoveAt(t, at));
      }
    }

    /**
     * loadItemFields(item) for the item of the node at `at`: with no path
     * the item is returned as it is. Otherwise its detail file is read into
     * it; the loader fills the model's own item object, so the model keeps
     * whatever was read, even when hydration stops at a missing field.
     */
    method LoadItemFields(at: TreePath) returns (r: Result<Item, SessionError>)
      requires Valid() && model.Some? && ValidPath(model.value, at)
      modifies this
      ensures Valid() && path == old(path) && written == old(written) && drawn == old(drawn)
      ensures var t := old(model).value; var item := NodeAt(t, at).item;
        if old(path).None? then r == Ok(item) && model == old(model)
        else match LoadFields(old(Files()), old(path).value, item)
          case Err(x) => r == Err(LoadFailed(x)) && model == old(model)
          case Ok(h) =>
            model == Some(ReplaceAt(t, at, NodeAt(t, at).(item := h.item))) &&
            r == (if h.missing.None? then Ok(h.item) else Err(MissingField(h.missing.value)))
    {
      var t := model.value;
      var node := NodeAt(t, at);
      if path.None? {
        return Ok(node.item);
      }
      var l := ProjectLoader.LoadItemFields(Files(), path.value, node.item);
      match l
      case Err(x) =>
        r := Err(LoadFailed(x));
      case Ok(h) =>
        ItemFieldsSpec(Files()[ItemPath(path.value, node.item)], node.item);
        NodeAtLoadable(t, at);
        ReplaceAtLoadable(t, at, node.(item := h.item));
        model := Some(ReplaceAt(t, at, node.(item := h.item)));
        r := if h.missing.None? then Ok(h.item) else Err(MissingField(h.missing.value));
    }
  }
}
