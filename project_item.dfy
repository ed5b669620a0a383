/**
 * The project item: identity, display name, type tag, root flag, the ordered
 * field form (field key -> editing widget) and the field values.
 */
module ProjectItem {
  import opened Wrappers
  import opened Xml

  /** Widget kinds a field form can name. */
  const FormTextfield: string := "textfield"
  const FormTextarea: string := "textarea"

  /** One entry of a field form: the field's key and the widget that edits it. */
  datatype FormField = FormField(key: string, widget: string)

  /** A field form in insertion order (the source's LinkedHashMap). */
  type FieldForm = seq<FormField>

  function Keys(form: FieldForm): set<string>
  {
    set f | f in form :: f.key
  }

  /** A LinkedHashMap holds each key once: no key occurs at two positions of the form. */
  predicate DistinctKeys(form: FieldForm)
  {
    forall i, j | 0 <= i < j < |form| :: form[i].key != form[j].key
  }

  /** A form with distinct keys has exactly one key per entry. */
  lemma {:induction false} DistinctKeysCount(form: FieldForm)
    requires DistinctKeys(form)
    ensures |Keys(form)| == |form|
    decreases |form|
  {
    if form != [] {
      var n := |form| - 1;
      var front := form[..n];
      assert DistinctKeys(front) by {
        forall i, j | 0 <= i < j < |front|
          ensures front[i].key != front[j].key
        {
          assert front[i] == form[i] && front[j] == form[j];
        }
      }
      DistinctKeysCount(front);
      assert form == front + [form[n]];
      assert Keys(form) == Keys(front) + {form[n].key};
      forall i | 0 <= i < |front|
        ensures front[i].key != form[n].key
      {
        assert front[i] == form[i];
      }
    }
  }

  /**
   * An item's state. `id` is `None` while it is Java's `null` (an item made by
   * create(name, type) before resetId); absent keys of `fieldValue` read as "".
   */
  datatype Item = Item(
    id: Option<string>,
    itemType: string,
    name: string,
    root: bool,
    fieldForm: FieldForm,
    fieldValue: map<string, string>)

  /**
   * The base constructor ProjectItem(id, name) followed by a variant's settings
   * of its type tag and field form: id and name exactly as given, the root
   * flag at its default false, no field values yet.
   */
  function NewItem(id: Option<string>, name: string, itemType: string, form: FieldForm): (r: Item)
    ensures r.id == id && r.name == name && r.itemType == itemType && r.fieldForm == form
    ensures !r.root && r.fieldValue == map[]
  {
    Item(id, itemType, name, false, form, map[])
  }

  /** getFieldValue: the stored value, or "" when none is stored; it never fails. */
  function GetFieldValue(item: Item, key: string): string
  {
    if key in item.fieldValue then item.fieldValue[key] else ""
  }

  /** setFieldValue: the key now reads `value`; every other part of the item is as before. */
  function SetFieldValue(item: Item, key: string, value: string): (r: Item)
    ensures GetFieldValue(r, key) == value
    ensures forall k | k != key :: GetFieldValue(r, k) == GetFieldValue(item, k)
    ensures r.fieldValue.Keys == item.fieldValue.Keys + {key}
    ensures r.(fieldValue := item.fieldValue) == item
  {
    item.(fieldValue := item.fieldValue[key := value])
  }

  /**
   * setFieldValue(key, null): the HashMap then holds null for the key, which
   * getFieldValue reads as ""; the model drops the key, which reads the same.
   */
  function SetFieldNull(item: Item, key: string): (r: Item)
    ensures GetFieldValue(r, key) == ""
    ensures forall k | k != key :: GetFieldValue(r, k) == GetFieldValue(item, k)
    ensures r.fieldValue.Keys == item.fieldValue.Keys - {key}
    ensures r.(fieldValue := item.fieldValue) == item
  {
    item.(fieldValue := item.fieldValue - {key})
  }

  /** setName: only the name changes. */
  function SetName(item: Item, name: string): (r: Item)
    ensures r.name == name
    ensures r.(name := item.name) == item
  {
    item.(name := name)
  }

  /**
   * resetId: only the id changes, to a freshly generated one. The UUID
   * generator is outside the model: the caller passes the id it produced.
   */
  function ResetId(item: Item, newId: string): (r: Item)
    ensures r.id == Some(newId)
    ensures r.(id := item.id) == item
  {
    item.(id := Some(newId))
  }

  /** toString: the item's name. */
  function ToString(item: Item): string
  {
    item.name
  }

  /** A renamed item shows its new name and keeps its id, type, form and values. */
  lemma RenameShows(item: Item, name: string)
    ensures ToString(SetName(item, name)) == name
    ensures var r := SetName(item, name);
      r.id == item.id && r.itemType == item.itemType && r.fieldForm == item.fieldForm &&
      forall k :: GetFieldValue(r, k) == GetFieldValue(item, k)
  {
  }

  /** A fresh item reads "" for every key, on its form or not. */
  lemma FreshItemReadsEmpty(id: Option<string>, name: string, itemType: string, form: FieldForm)
    ensures forall k :: GetFieldValue(NewItem(id, name, itemType, form), k) == ""
  {
  }

  /** The attributes `setAttribute("id", id)` leaves; a null id leaves none. */
  function IdAttr(id: Option<string>): map<string, string>
  {
    match id
    case Some(v) => map["id" := v]
    case None => map[]
  }

  /** The `name` element: the name as its single text child. */
  function NameElement(name: string): Node
  {
    Element("name", map[], [Text(name)])
  }

  /** getFormElement: an element named after the field holding its value as text. */
  function FormElement(item: Item, key: string): Node
  {
    Element(key, map[], [Text(GetFieldValue(item, key))])
  }

  /** One form element per entry of `form`, in form order. */
  function FormElements(item: Item, form: FieldForm): (r: seq<Node>)
    ensures |r| == |form|
  {
    seq(|form|, j requires 0 <= j < |form| => FormElement(item, form[j].key))
  }

  /** The element getElement builds: identity, then `name`, then one child per field-form key. */
  function ItemElement(item: Item): Node
  {
    Element(item.itemType, IdAttr(item.id), [NameElement(item.name)] + FormElements(item, item.fieldForm))
  }

  /** For a form with distinct keys, getElement's element has `name` plus one child per distinct key. */
  lemma ElementChildPerKey(item: Item)
    requires DistinctKeys(item.fieldForm)
    ensures |ItemElement(item).children| == 1 + |Keys(item.fieldForm)|
  {
    DistinctKeysCount(item.fieldForm);
  }

  /**
   * getElement: tag = type, attribute `id` = id, first child `name` with the
   * name as text, then exactly one child per field-form key, in form order,
   * whose text is getFieldValue(key).
   */
  method GetElement(item: Item) returns (e: Node)
    ensures e == ItemElement(item)
    ensures e.Element? && e.tag == item.itemType && e.attrs == IdAttr(item.id)
    ensures |e.children| == 1 + |item.fieldForm| && e.children[0] == NameElement(item.name)
    ensures forall j | 0 <= j < |item.fieldForm| ::
      e.children[j + 1] == Element(item.fieldForm[j].key, map[], [Text(GetFieldValue(item, item.fieldForm[j].key))])
  {
    var form := item.fieldForm;
    var children := [NameElement(item.name)];
    for i := 0 to |form|
      invariant children == [NameElement(item.name)] + FormElements(item, form[..i])
    {
      var child := FormElement(item, form[i].key);
      assert FormElements(item, form[..i + 1]) == FormElements(item, form[..i]) + [child];
      children := children + [child];
    }
    assert form[..|form|] == form;
    e := Element(item.itemType, IdAttr(item.id), children);
  }
}
