/** Where an item's detail file lives, relative to the project's master file. */
module ProjectIO {
  import opened Wrappers
  import opened ProjectItem

  /** java.io.File.separator on the Unix platform the model assumes. */
  const Separator: char := '/'

  /** The index of the last separator in `p`, or -1 when there is none. */
  function LastSeparator(p: string): (r: int)
    ensures -1 <= r < |p|
    ensures r >= 0 ==> p[r] == Separator
    ensures forall i | r < i < |p| :: p[i] != Separator
  {
    if p == [] then -1
    else if p[|p| - 1] == Separator then |p| - 1
    else LastSeparator(p[..|p| - 1])
  }

  /**
   * java.io.File(p).getParent() on a normalised Unix path: everything before
   * the last separator, "/" for a file directly under the root, and null when
   * `p` has no separator (a bare file name) or is "/" itself.
   */
  function Parent(p: string): (r: Option<string>)
    ensures r.Some? ==> |r.value| < |p| && r.value == p[..|r.value|]
    ensures r.None? <==> LastSeparator(p) == -1 || p == [Separator]
  {
    var index := LastSeparator(p);
    var prefixLength := if |p| > 0 && p[0] == Separator then 1 else 0;
    if index < prefixLength then
      if prefixLength > 0 && |p| > prefixLength then Some(p[..prefixLength]) else None
    else Some(p[..index])
  }

  /** Java's string concatenation of a possibly null String: null prints as "null". */
  function Str(s: Option<string>): string
  {
    match s
    case Some(v) => v
    case None => "null"
  }

  /** getItemTypePath: the parent directory of the project file, a separator, the item's type. */
  function ItemTypePath(projectPath: string, item: Item): string
  {
    Str(Parent(projectPath)) + [Separator] + item.itemType
  }

  /** getItemPath: the type directory, a separator, then the item's id and ".xml". */
  function ItemPath(projectPath: string, item: Item): string
  {
    ItemTypePath(projectPath, item) + [Separator] + Str(item.id) + ".xml"
  }

  /** The type directory is a prefix of the item path, and the item path ends in ".xml". */
  lemma ItemPathShape(projectPath: string, item: Item)
    ensures var d := ItemTypePath(projectPath, item); var p := ItemPath(projectPath, item);
      |d| < |p| && p[..|d|] == d && p[|d|] == Separator
    ensures var p := ItemPath(projectPath, item); |p| >= 4 && p[|p| - 4..] == ".xml"
  {
  }

  /** The last separator of `s`, a separator, then a separator-free `t`, is the one before `t`. */
  lemma {:induction false} LastSeparatorAppend(s: string, t: string)
    requires Separator !in t
    ensures LastSeparator(s + [Separator] + t) == |s|
    decreases |t|
  {
    var p := s + [Separator] + t;
    if t == [] {
      assert p[|p| - 1] == Separator;
    } else {
      var n := |t| - 1;
      assert t[n] in t;
      assert p[..|p| - 1] == s + [Separator] + t[..n];
      assert forall c | c in t[..n] :: c in t;
      LastSeparatorAppend(s, t[..n]);
    }
  }

  /** getParent of `s`, a separator, then a separator-free name, for a non-empty `s`, is `s`. */
  lemma ParentOfChild(s: string, t: string)
    requires Separator !in t && s != []
    ensures Parent(s + [Separator] + t) == Some(s)
  {
    var p := s + [Separator] + t;
    LastSeparatorAppend(s, t);
    assert p[..|s|] == s;
  }

  /**
   * A type name without a separator puts the type directory directly inside
   * the directory of the project file (or inside "null" when the project
   * path has no parent).
   */
  lemma TypeDirectoryInProjectDirectory(projectPath: string, item: Item)
    requires Separator !in item.itemType
    ensures Parent(ItemTypePath(projectPath, item)) == Some(Str(Parent(projectPath)))
  {
    var dir := Str(Parent(projectPath));
    assert dir != [] by {
      if Parent(projectPath).Some? {
        var index := LastSeparator(projectPath);
        assert index >= 0;
      }
    }
    ParentOfChild(dir, item.itemType);
  }

  /** An id without a separator puts the item file directly inside its type directory. */
  lemma ItemFileInTypeDirectory(projectPath: string, item: Item)
    requires Separator !in Str(item.id)
    ensures Parent(ItemPath(projectPath, item)) == Some(ItemTypePath(projectPath, item))
  {
    var d := ItemTypePath(projectPath, item);
    var name := Str(item.id) + ".xml";
    assert Separator !in name by {
      assert forall i | 0 <= i < |name| :: name[i] != Separator by {
        forall i | 0 <= i < |name|
          ensures name[i] != Separator
        {
          if i < |Str(item.id)| {
            assert name[i] == Str(item.id)[i];
          }
        }
      }
    }
    assert ItemPath(projectPath, item) == d + [Separator] + name;
    ParentOfChild(d, name);
  }

  /**
   * Both paths depend only on the project path, the type and the id: two items
   * that agree on those (whatever their names, fields or tree positions)
   * resolve to the same directory and file.
   */
  lemma PathsDependOnTypeAndId(projectPath: string, a: Item, b: Item)
    requires a.itemType == b.itemType && a.id == b.id
    ensures ItemTypePath(projectPath, a) == ItemTypePath(projectPath, b)
    ensures ItemPath(projectPath, a) == ItemPath(projectPath, b)
  {
  }

  /**
   * Two items of one type share a type directory, and their item paths are
   * equal exactly when their ids print the same.
   */
  lemma {:induction false} SameTypeSharesDirectory(projectPath: string, a: Item, b: Item)
    requires a.itemType == b.itemType
    ensures ItemTypePath(projectPath, a) == ItemTypePath(projectPath, b)
    ensures ItemPath(projectPath, a) == ItemPath(projectPath, b) <==> Str(a.id) == Str(b.id)
  {
    var d := ItemTypePath(projectPath, a) + [Separator];
    var pa, pb := ItemPath(projectPath, a), ItemPath(projectPath, b);
    assert pa == d + (Str(a.id) + ".xml");
    assert pb == d + (Str(b.id) + ".xml");
    if pa == pb {
      assert Str(a.id) + ".xml" == pa[|d|..] == Str(b.id) + ".xml";
      assert Str(a.id) == (Str(a.id) + ".xml")[..|Str(a.id)|];
      assert Str(b.id) == (Str(b.id) + ".xml")[..|Str(b.id)|];
    }
  }

  /** For items whose ids are set, of one type: same item path exactly when same id. */
  lemma ItemPathIdentifiesId(projectPath: string, a: Item, b: Item)
    requires a.itemType == b.itemType && a.id.Some? && b.id.Some?
    ensures ItemPath(projectPath, a) == ItemPath(projectPath, b) <==> a.id == b.id
  {
    SameTypeSharesDirectory(projectPath, a, b);
  }
}
