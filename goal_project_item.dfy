/** The goal variant of a project item. */
module GoalProjectItem {
  import opened Wrappers
  import opened ProjectItem

  /** The goal variant's type tag. */
  const GoalType: string := "goal"

  /** The goal variant's field form: a single multi-line description. */
  const GoalForm: FieldForm := [FormField("description", FormTextarea)]

  /**
   * The GoalProjectIem constructor: id and name passed through to the base
   * constructor, type "goal", the one-entry form description -> textarea,
   * and the root flag left at its default false.
   */
  function NewGoal(id: Option<string>, name: string): (r: Item)
    ensures r.itemType == "goal"
    ensures r.fieldForm == [FormField("description", "textarea")]
    ensures r.id == id && r.name == name
    ensures !r.root && r.fieldValue == map[]
  {
    NewItem(id, name, GoalType, GoalForm)
  }
}
