/** The item type registry: from a type tag to a freshly constructed item of that variant. */
module ProjectItemFactory {
  import opened Wrappers
  import opened ProjectItem
  import opened GoalProjectItem

  const RootType: string := "root"
  const SectionType: string := "section"
  const FuncRequirementType: string := "funcRequirement"
  const NonFuncRequirementType: string := "nonFuncRequirement"

  /**
   * The registry. The root, section, funcRequirement and nonFuncRequirement
   * variant classes are not part of this model, so the field forms their
   * constructors install are parameters here; the goal variant's is fixed.
   */
  datatype ItemFactory = ItemFactory(
    rootForm: FieldForm,
    sectionForm: FieldForm,
    funcRequirementForm: FieldForm,
    nonFuncRequirementForm: FieldForm)

  /** Each variant's form comes from a LinkedHashMap, so its keys are distinct. */
  predicate WellFormed(f: ItemFactory)
  {
    DistinctKeys(f.rootForm) && DistinctKeys(f.sectionForm) &&
    DistinctKeys(f.funcRequirementForm) && DistinctKeys(f.nonFuncRequirementForm)
  }

  /**
   * getTypes: the creatable type tags, in menu order; the root tag is
   * reserved and not among them. The same constant on every call.
   */
  function GetTypes(): (r: seq<string>)
    ensures r == ["goal", "section", "funcRequirement", "nonFuncRequirement"]
    ensures RootType !in r
    ensures forall i, j | 0 <= i < j < |r| :: r[i] != r[j]
  {
    [GoalType, SectionType, FuncRequirementType, NonFuncRequirementType]
  }

  /** The tags `create` recognises: the creatable ones and the root tag. */
  predicate IsKnownType(itemType: string)
  {
    itemType == RootType || itemType in GetTypes()
  }

  /**
   * create(name, type, id): an item of the variant the tag names, carrying
   * the given name and id, or `None` (Java's null, nothing thrown) for any
   * other tag. Only the root variant sets the root flag.
   */
  function Create(f: ItemFactory, name: string, itemType: string, id: Option<string>): (r: Option<Item>)
    ensures r.Some? <==> IsKnownType(itemType)
    ensures r.Some? ==> r.value.id == id && r.value.name == name && r.value.itemType == itemType
    ensures r.Some? ==> r.value.fieldValue == map[] && (r.value.root <==> itemType == RootType)
    ensures itemType == GoalType ==> r == Some(NewGoal(id, name))
  {
    if itemType == RootType then Some(NewItem(id, name, RootType, f.rootForm).(root := true))
    else if itemType == GoalType then Some(NewGoal(id, name))
    else if itemType == SectionType then Some(NewItem(id, name, SectionType, f.sectionForm))
    else if itemType == FuncRequirementType then Some(NewItem(id, name, FuncRequirementType, f.funcRequirementForm))
    else if itemType == NonFuncRequirementType then Some(NewItem(id, name, NonFuncRequirementType, f.nonFuncRequirementForm))
    else None
  }

  /** create(name, type): passes a null id; no id is generated here. */
  function CreateWithoutId(f: ItemFactory, name: string, itemType: string): (r: Option<Item>)
    ensures r.Some? <==> IsKnownType(itemType)
    ensures r.Some? ==> r.value.id.None? && r.value.name == name && r.value.itemType == itemType
  {
    Create(f, name, itemType, None)
  }

  /** Every tag getTypes offers can be created, whatever the name and id. */
  lemma TypesAreCreatable(f: ItemFactory, name: string, id: Option<string>)
    ensures forall t | t in GetTypes() :: Create(f, name, t, id).Some?
  {
  }

  /** A well-formed registry only creates items whose forms have distinct keys. */
  lemma CreatedFormsDistinct(f: ItemFactory, name: string, itemType: string, id: Option<string>)
    requires WellFormed(f) && IsKnownType(itemType)
    ensures DistinctKeys(Create(f, name, itemType, id).value.fieldForm)
  {
  }
}
