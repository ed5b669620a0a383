# modest persistence core, modelled in Dafny

This project models the persistence and data-model engine of *modest*, a
requirements editor written in Java. A project is a tree of items:

- The root item.
- Goals, sections, and functional and non-functional requirements below it.

Every item has an id, a name, a type tag, a root flag, an ordered field form
(field key to editing widget) and a map of field values.

Saving writes one *detail* document per item, named after its type and id,
and then a *master* document that holds the tree's identities, names and
nesting. Opening reads the master document back into a tree. Opening a
document as a template does the same but gives every item a fresh id. An
item's field values are read from its detail document when it is opened
for editing.

The model is organised as the program is:

- `xml.dfy` (`Xml`): an abstract DOM (text nodes, and elements with tag,
  attributes and children). `getElementsByTagName` is a document-order
  search of the descendants.
- `project_item.dfy`, `goal_project_item.dfy`, `project_item_factory.dfy`:
  the item as a value, the goal variant, and the type registry.
- `project_io.dfy` (`ProjectIO`): the type-directory and item-file paths,
  including `java.io.File.getParent` on Unix paths.
- `project_tree.dfy` (`ProjectTree`): the ordered item tree, with nodes
  addressed by child-index paths. It covers insertion as the last child,
  detaching a subtree and replacing a subtree.
- `project_saver.dfy` (`ProjectSaver`): saving.
  - The file system effects are a log of `MakeDir` and `WriteDoc` records.
  - `saveTreeModelElements` is a recursive method with a loop, proved
    against the pre-order log and the master element.
- `project_loader.dfy` (`ProjectLoader`): loading and hydrating fields.
  - `getTreeNodeWithChildren` is a recursive method with the source's two
    nested loops, proved equal to a function `LoadNode`.
  - `getItemFields` is a loop proved equal to the function `ItemFields`.
- `round_trip.dfy` (`RoundTrip`): what a load returns after a save.
  - Master documents: the tree comes back with ids, types and names intact
    and each node's children stably regrouped in registry order. Loading a
    reloaded tree's master gives it back unchanged.
  - Detail documents: every form value comes back.
- `project.dfy` (`ProjectSession`): the `Project` session class.
  - Its fields are `path`, `model`, the write log and the number of ids
    drawn so far.
  - Its methods are the ones `Project.java` offers.

Java's `null` results and the `NullPointerException`s the loader runs into
become `Option` and `Result` values in the model. Each operation that can fail this way states
its error case as well as its success case:
  - NameOf, GetItem and ItemFields (with GetItemFields) do so in their own
    contracts;
  - the recursive tree load LoadNode and its list form LoadList do so through
    LoadNodeReadable and LoadListReadable, which say exactly when they
    succeed;
  - LoadTreeModel, LoadFile and the session methods do so by naming the
    error they return.

Detail documents hold the item's identity and every field-form value:
`ProjectSaver.saveItem` writes `item.getElement(doc)`.

## Model

All source paths are under `src/main/java/com/github/surg83/modest/`, written out in full below.

| member | source | states |
|---|---|---|
| Xml.ElementsByTagName | src/main/java/com/github/surg83/modest/project/ProjectLoader.java:172-175 | every match is an element with the requested tag; a match's parent is the searched element or a strictly smaller node; a match whose parent is the searched element is one of its children |
| Xml.ImmediateMatches | src/main/java/com/github/surg83/modest/project/ProjectLoader.java:172-175 | keeping only the matches whose parent is the element itself (the `isSameNode` test) gives exactly its child elements with that tag, in document order; grandchildren are skipped |
| Xml.FlatHits | src/main/java/com/github/surg83/modest/project/ProjectLoader.java:243-244 | among elements whose children are all text, the descendant search finds something exactly when some element carries the tag, and its first match is the first such element |
| ProjectItem.NewItem | src/main/java/com/github/surg83/modest/project/ProjectItem.java:153-156 | the base constructor keeps id and name exactly as given; the root flag is false and there are no field values |
| ProjectItem.GetFieldValue | src/main/java/com/github/surg83/modest/project/ProjectItem.java:164-167 | no contract of its own: FreshItemReadsEmpty states the "" for an absent key, SetFieldValue and SetFieldNull what a key reads after a put or a null |
| ProjectItem.FreshItemReadsEmpty | src/main/java/com/github/surg83/modest/project/ProjectItem.java:164-167 | a freshly made item reads "" for every key: getFieldValue never fails and defaults to "" |
| ProjectItem.SetFieldValue | src/main/java/com/github/surg83/modest/project/ProjectItem.java:175-177 | afterwards getFieldValue(key) is the new value, every other key reads as before, the stored keys gain `key`, and nothing but the values changes |
| ProjectItem.SetFieldNull | src/main/java/com/github/surg83/modest/project/ProjectItem.java:164-177 | storing null reads back as "", every other key reads as before, and nothing but the values changes |
| ProjectItem.SetName | src/main/java/com/github/surg83/modest/project/ProjectItem.java:97-99 | only the name changes |
| ProjectItem.RenameShows | src/main/java/com/github/surg83/modest/project/ProjectItem.java:213-215 | toString of a renamed item is the new name; its id, type, form and every field value are unchanged |
| ProjectItem.ToString | src/main/java/com/github/surg83/modest/project/ProjectItem.java:212-215 | no contract of its own: RenameShows states that toString shows the current name |
| ProjectItem.ResetId | src/main/java/com/github/surg83/modest/project/ProjectItem.java:220-222 | only the id changes, to the generated one |
| ProjectItem.GetElement | src/main/java/com/github/surg83/modest/project/ProjectItem.java:185-210 | tag = type, the `id` attribute = id, first child `name` holding the name, then exactly one child per field-form key in form order holding getFieldValue(key): 1 + form-length children |
| ProjectItem.IdAttr | src/main/java/com/github/surg83/modest/project/ProjectItem.java:188 | no contract of its own: GetElement states that the element's attributes are exactly the `id` attribute of a set id (the null id is under "## Left out") |
| ProjectItem.FormElement | src/main/java/com/github/surg83/modest/project/ProjectItem.java:206-210 | no contract of its own: GetElement states that each form key's element holds getFieldValue(key) as text, and RoundTrip.FormFieldFound and RoundTrip.HydrateAfterSave that the loader reads that value back |
| ProjectItem.DistinctKeysCount | src/main/java/com/github/surg83/modest/project/ProjectItem.java:132 | a form whose keys are distinct, as a LinkedHashMap's are, has exactly one key per entry |
| ProjectItem.ElementChildPerKey | src/main/java/com/github/surg83/modest/project/ProjectItem.java:192-195 | for such a form getElement's element has `name` plus one child per distinct key |
| GoalProjectItem.NewGoal | src/main/java/com/github/surg83/modest/project/item/GoalProjectIem.java:47-53 | type "goal", the single form entry description -> textarea, id and name passed through, root flag false |
| ProjectItemFactory.GetTypes | src/main/java/com/github/surg83/modest/project/ProjectItemFactory.java:87-96 | exactly goal, section, funcRequirement, nonFuncRequirement in that order, pairwise distinct, without the reserved root tag |
| ProjectItemFactory.Create | src/main/java/com/github/surg83/modest/project/ProjectItemFactory.java:48-67 | an item exactly for the five known tags, otherwise None (null); the item carries the given name, id and tag, no values, root flag exactly for the root tag; the goal tag yields the goal variant |
| ProjectItemFactory.CreateWithoutId | src/main/java/com/github/surg83/modest/project/ProjectItemFactory.java:78-80 | the same with a null id: nothing generates an id here |
| ProjectItemFactory.TypesAreCreatable | src/main/java/com/github/surg83/modest/project/ProjectItemFactory.java:54-65 | every tag getTypes offers is created, whatever the name and id |
| ProjectItemFactory.CreatedFormsDistinct | src/main/java/com/github/surg83/modest/project/ProjectItemFactory.java:48-67 | a registry whose variant forms have distinct keys only creates items whose forms have distinct keys |
| ProjectIO.Parent | src/main/java/com/github/surg83/modest/project/ProjectIO.java:44 | getParent is a proper prefix of the path; it is null exactly for a path without a separator and for "/" |
| ProjectIO.TypeDirectoryInProjectDirectory | src/main/java/com/github/surg83/modest/project/ProjectIO.java:43-47 | for a type without a separator, the parent of the type directory is the project file's directory ("null" when it has none) |
| ProjectIO.ItemFileInTypeDirectory | src/main/java/com/github/surg83/modest/project/ProjectIO.java:56-60 | for an id without a separator, the parent of the item file is its type directory |
| ProjectIO.ItemTypePath | src/main/java/com/github/surg83/modest/project/ProjectIO.java:43-47 | no contract of its own: TypeDirectoryInProjectDirectory states that its parent is the project file's parent, SameTypeSharesDirectory that it depends on the type only |
| ProjectIO.ItemPath | src/main/java/com/github/surg83/modest/project/ProjectIO.java:56-60 | no contract of its own: ItemPathShape, ItemFileInTypeDirectory and ItemPathIdentifiesId state its shape, its directory and that it tells set ids apart |
| ProjectIO.ItemPathShape | src/main/java/com/github/surg83/modest/project/ProjectIO.java:56-60 | the type directory followed by a separator is a prefix of the item path, which ends in ".xml" |
| ProjectIO.PathsDependOnTypeAndId | src/main/java/com/github/surg83/modest/project/ProjectIO.java:43-60 | items agreeing on type and id get the same two paths, whatever their names, values or tree positions |
| ProjectIO.SameTypeSharesDirectory | src/main/java/com/github/surg83/modest/project/ProjectIO.java:43-60 | two items of one type share a type directory, and their item paths are equal exactly when their ids print the same |
| ProjectIO.ItemPathIdentifiesId | src/main/java/com/github/surg83/modest/project/ProjectIO.java:56-60 | for set ids of one type: same item path exactly when same id |
| ProjectTree.PreOrder | src/main/java/com/github/surg83/modest/project/ProjectSaver.java:150-157 | a node's own item comes first in its pre-order |
| ProjectTree.InsertLast | src/main/java/com/github/surg83/modest/Project.java:204 | the parent node keeps its item, and its children are the old ones followed by the new node |
| ProjectTree.InsertLastCount | src/main/java/com/github/surg83/modest/Project.java:203-204 | inserting a leaf adds exactly one node |
| ProjectTree.RemoveAt | src/main/java/com/github/surg83/modest/Project.java:242 | the parent keeps its item and loses exactly the one child, the others keeping their order |
| ProjectTree.RemoveAtCount | src/main/java/com/github/surg83/modest/Project.java:242 | removing a node takes its whole subtree: the count drops by the subtree's size |
| ProjectTree.ReplaceAt | src/main/java/com/github/surg83/modest/Project.java:258 | the node at the path is now the new subtree; the root item and child count stay when the path is not empty |
| ProjectTree.ReplaceAtElsewhere | src/main/java/com/github/surg83/modest/Project.java:258 | nodes off the changed path are untouched |
| ProjectTree.ReplaceAtAbove | src/main/java/com/github/surg83/modest/Project.java:258 | every ancestor keeps its item, child count and other children |
| ProjectTree.ReplaceAtCount | src/main/java/com/github/surg83/modest/Project.java:258 | the node count changes by the difference in size of the two subtrees |
| ProjectSaver.NodeElement | src/main/java/com/github/surg83/modest/project/ProjectSaver.java:191-201 | tag = type, `id` = id, `appVersion` present exactly on the root item and equal to the saver's version, single child `name` |
| ProjectSaver.MasterElement | src/main/java/com/github/surg83/modest/project/ProjectSaver.java:151-159 | no contract of its own: RoundTrip.MasterName and RoundTrip.MasterChildren state that the loader reads back its name and its children's elements, RoundTrip.LoadSaved the whole tree |
| ProjectSaver.SaveItem | src/main/java/com/github/surg83/modest/project/ProjectSaver.java:171-182 | create the type directory, then write item.getElement to the item path |
| ProjectSaver.ItemWritesOfAt | src/main/java/com/github/surg83/modest/project/ProjectSaver.java:171-182 | log entries 2k and 2k+1 are the k-th item's directory creation and detail write, whose content includes the field values |
| ProjectSaver.SaveTreeModelElements | src/main/java/com/github/surg83/modest/project/ProjectSaver.java:146-160 | exactly one saveItem per node, in pre-order (parent first, children left to right), and the returned element is the subtree's master element, its children after `name` being the children's elements in order |
| ProjectSaver.SaveTreeModel | src/main/java/com/github/surg83/modest/project/ProjectSaver.java:72-80 | 2·nodes + 1 writes: all detail writes first, then the master document, holding the root's master element, written to `filepath` |
| ProjectSaver.SaveLog | src/main/java/com/github/surg83/modest/project/ProjectSaver.java:72-80 | no contract of its own: SaveTreeModel states that a save appends it, RoundTrip.SaveLogAt what each position holds and RoundTrip.ReopenSaved what the files reload as |
| RoundTrip.SaveLogAt | src/main/java/com/github/surg83/modest/project/ProjectSaver.java:146-158 | in a save log after any earlier writes, entry 2k is the mkdir and entry 2k+1 the detail write of the k-th node in pre-order, its getElement at its item path |
| ProjectSaver.ApplyLog | src/main/java/com/github/surg83/modest/project/ProjectSaver.java:90-96 | no existing file disappears, and the last write's path holds its document |
| ProjectLoader.NameOf | src/main/java/com/github/surg83/modest/project/ProjectLoader.java:204-205 | the name is the text of the first child of the first `name` descendant, and it fails exactly when that node is absent or not text |
| ProjectLoader.GetItem | src/main/java/com/github/surg83/modest/project/ProjectLoader.java:203-213 | succeeds exactly with a name, an `id` attribute and a known tag; type = tag, root flag exactly for the root tag; id = attribute and nothing drawn without reset, one fresh id drawn with reset |
| ProjectLoader.ChildElements | src/main/java/com/github/surg83/modest/project/ProjectLoader.java:170-181 | the children a node is built from are exactly its child elements of a creatable type, in registry-type order and then document order; other tags, root among them, never become nodes |
| ProjectLoader.LoadNode | src/main/java/com/github/surg83/modest/project/ProjectLoader.java:167-183 | a loaded node has the element's tag as type and its name, and without reset its `id` attribute as id |
| ProjectLoader.LoadList | src/main/java/com/github/surg83/modest/project/ProjectLoader.java:173-179 | no contract of its own: LoadListShape, LoadListIds, LoadListEach and LoadListAt state its length, types, ids and per-position trees |
| ProjectLoader.LoadListShape | src/main/java/com/github/surg83/modest/project/ProjectLoader.java:173-179 | a loaded run has one tree per element, in element order, each of the type its element's tag names |
| ProjectLoader.LoadListIds | src/main/java/com/github/surg83/modest/project/ProjectLoader.java:173-179 | every loaded item has an id; without reset nothing is drawn, with reset one fresh id is drawn per loaded item, in pre-order |
| ProjectLoader.LoadNodeChildren | src/main/java/com/github/surg83/modest/project/ProjectLoader.java:171-180 | one child per child element taken, in that order, each of the type its tag names, all creatable types; without id reset child i is exactly the load of child element i, so by LoadNode it carries that element's `id` attribute and name |
| ProjectLoader.LoadListEach | src/main/java/com/github/surg83/modest/project/ProjectLoader.java:173-179 | without id reset, loading a run of child elements draws nothing and yields, at each position, the tree that element loads to on its own |
| ProjectLoader.LoadListAt | src/main/java/com/github/surg83/modest/project/ProjectLoader.java:173-179 | without id reset, the tree at any one position of a loaded run of child elements is the load of the element at that position |
| ProjectLoader.LoadNodeIds | src/main/java/com/github/surg83/modest/project/ProjectLoader.java:207-211 | every loaded item has an id; without reset nothing is drawn; with reset every item, root included, gets a fresh id, drawn one per item in pre-order |
| ProjectLoader.ResetOnlyIds | src/main/java/com/github/surg83/modest/project/ProjectLoader.java:203-214 | a load with id reset succeeds exactly when the load with stored ids does, whatever the two id-source positions, fails with the same error, and on success gives the same tree once every id is cleared (`Unid`) |
| ProjectLoader.ResetOnlyIdsList | src/main/java/com/github/surg83/modest/project/ProjectLoader.java:173-179 | the same for a run of child elements loaded in turn: same outcome, same error, and equal trees once ids are cleared |
| ProjectLoader.ResetOnlyIdsFile | src/main/java/com/github/surg83/modest/project/ProjectLoader.java:84-88 | loadTreeModel(filepath, true) and loadTreeModel(filepath, false) on the same files agree in outcome and error, and give the same tree up to ids |
| ProjectLoader.LoadNodeReadable | src/main/java/com/github/surg83/modest/project/ProjectLoader.java:167-183 | a tree load, with or without id reset, succeeds exactly when getItem succeeds on the element and on every child element it descends into (`Readable`) |
| ProjectLoader.LoadListReadable | src/main/java/com/github/surg83/modest/project/ProjectLoader.java:173-179 | a run of child elements loads exactly when every element of it is readable |
| ProjectLoader.GetTreeNodeWithChildren | src/main/java/com/github/surg83/modest/project/ProjectLoader.java:167-183 | the nested loops over types and matches build exactly LoadNode's tree, or fail exactly as it does |
| ProjectLoader.AddChildrenOfType | src/main/java/com/github/surg83/modest/project/ProjectLoader.java:172-180 | one pass over a type's matches appends exactly that type's group of children; a failing child fails the whole node the same way |
| ProjectLoader.LoadTreeModel | src/main/java/com/github/surg83/modest/project/ProjectLoader.java:113-117 | the document element becomes the root node; a document without one is Malformed |
| ProjectLoader.LoadTreeModelFile | src/main/java/com/github/surg83/modest/project/ProjectLoader.java:84-88 | a missing file is FileNotFound, an unparsable one Malformed, otherwise its document is loaded |
| ProjectLoader.LoadStoredTreeModel | src/main/java/com/github/surg83/modest/project/ProjectLoader.java:69-72 | loadTreeModel(filepath) is loadTreeModel(filepath, false): the root id is the stored attribute, every id is set, and nothing is drawn |
| ProjectLoader.ReadField | src/main/java/com/github/surg83/modest/project/ProjectLoader.java:245-247 | a text child sets the key to its text, an element child sets it to null, no child leaves the values as they were; other keys never change |
| ProjectLoader.FirstMissingSpec | src/main/java/com/github/surg83/modest/project/ProjectLoader.java:242-244 | hydration gets exactly as far as the first form key that has no element |
| ProjectLoader.ItemFieldsSpec | src/main/java/com/github/surg83/modest/project/ProjectLoader.java:241-250 | only field values change; keys outside the form keep their values; reading stops at a form key exactly when that key has no element; with none missing every form key holds what its element says |
| ProjectLoader.GetItemFields | src/main/java/com/github/surg83/modest/project/ProjectLoader.java:241-250 | the loop over the form's keys yields exactly ItemFields, including the partial item when a key's element is missing |
| ProjectLoader.LoadItemFields | src/main/java/com/github/surg83/modest/project/ProjectLoader.java:225-232 | the detail file at ProjectIO's item path is read into the item; a missing file is FileNotFound, an unparsable one Malformed |
| RoundTrip.FormFieldFound | src/main/java/com/github/surg83/modest/project/ProjectItem.java:192-195 | in an item's own element each form key other than `name` finds its value as text |
| RoundTrip.HydrateAfterSave | src/main/java/com/github/surg83/modest/project/ProjectLoader.java:241-250 | reading an item's element into an item with the same form restores every form value, reports nothing missing and changes nothing else |
| RoundTrip.MasterChildren | src/main/java/com/github/surg83/modest/project/ProjectSaver.java:153-158 | the loader takes from a master element exactly the children's elements, regrouped by registry type |
| RoundTrip.MasterName | src/main/java/com/github/surg83/modest/project/ProjectSaver.java:197-199 | the loader reads back the saved name |
| RoundTrip.LoadSaved | src/main/java/com/github/surg83/modest/project/ProjectLoader.java:167-183 | loading a saved master element succeeds without drawing ids and gives Reloaded(t): ids, types and names as saved, each node's children stably regrouped by getTypes order |
| RoundTrip.ReloadedItem | src/main/java/com/github/surg83/modest/project/ProjectLoader.java:203-213 | a reloaded item keeps its type and id and is what the factory makes from them |
| RoundTrip.ReloadedGrouped | src/main/java/com/github/surg83/modest/project/ProjectLoader.java:171-180 | a reloaded node's children are already grouped by registry type |
| RoundTrip.GroupTwice | src/main/java/com/github/surg83/modest/project/ProjectLoader.java:171-180 | regrouping is idempotent, and also for any prefix of the type list |
| RoundTrip.ReloadedIsCanonical | src/main/java/com/github/surg83/modest/project/ProjectLoader.java:167-183 | what a load of a save gives is canonical: factory-made items, children grouped, all the way down |
| RoundTrip.ReloadCanonical | src/main/java/com/github/surg83/modest/project/ProjectSaver.java:146-160 | a canonical tree reloads as itself |
| RoundTrip.SaveLoadCanonical | src/main/java/com/github/surg83/modest/project/ProjectSaver.java:146-160 | saving a canonical tree and loading it gives the same tree |
| RoundTrip.SaveLoadIdempotent | src/main/java/com/github/surg83/modest/project/ProjectSaver.java:146-160 | a second save and load changes nothing more |
| RoundTrip.LoadedIsLoadable | src/main/java/com/github/surg83/modest/project/ProjectLoader.java:203-213 | every loaded tree has set ids and known types throughout, so it can be saved and reloaded |
| RoundTrip.ReopenSaved | src/main/java/com/github/surg83/modest/project/ProjectSaver.java:72-80 | after a save, whatever the earlier writes, loading the master file gives Reloaded(t) |
| RoundTrip.ApplyLogLatest | src/main/java/com/github/surg83/modest/project/ProjectSaver.java:90-96 | a file holds the document of the last write to its path |
| RoundTrip.SavedDetail | src/main/java/com/github/surg83/modest/project/ProjectSaver.java:171-182 | after a save each node's item file holds item.getElement, values included, when no other node and not the master file share its path |
| RoundTrip.DetailRoundTrip | src/main/java/com/github/surg83/modest/project/ProjectLoader.java:225-232 | loadItemFields after a save, for an item of the saved node's type, id and form, restores every form value of the saved item and changes nothing else |
| ProjectSession.GetNewItemName | src/main/java/com/github/surg83/modest/Project.java:215-232 | every creatable tag gets a label starting "New " that is not itself a type tag, distinct tags get distinct labels (NewItemNamesDistinct), and any other tag is returned unchanged |
| ProjectSession.NewItemNamesDistinct | src/main/java/com/github/surg83/modest/Project.java:217-229 | distinct creatable types get distinct labels |
| ProjectSession.Project.constructor | src/main/java/com/github/surg83/modest/Project.java:96-101 | nothing open, no path, nothing written, no ids drawn |
| ProjectSession.Project.Open | src/main/java/com/github/surg83/modest/Project.java:144-149 | the loaded tree with stored ids becomes the model and the path becomes `filepath`; a failed load changes nothing |
| ProjectSession.Project.OpenTemplate | src/main/java/com/github/surg83/modest/Project.java:112-117 | the tree is loaded with every id replaced by a fresh one in pre-order, one per node, and the path becomes null; a failed load changes nothing; the template loads exactly when open(filepath) would, fails with the same error, and its tree is open's tree with other ids |
| ProjectSession.Project.OpenTemplateSource | src/main/java/com/github/surg83/modest/Project.java:128-133 | the same for a template document handed over directly, compared with the stored-id load of that document |
| ProjectSession.Project.Save | src/main/java/com/github/surg83/modest/Project.java:159-164 | the save log is appended, the path becomes `filepath`, and the file holds the model's master element; with no model nothing changes |
| ProjectSession.Project.SaveCurrent | src/main/java/com/github/surg83/modest/Project.java:173-177 | saves to the current path; with no model or no path nothing is written |
| ProjectSession.Project.GetItemTypes | src/main/java/com/github/surg83/modest/Project.java:184-186 | the registry's types, each of which can be created |
| ProjectSession.Project.AddItem | src/main/java/com/github/surg83/modest/Project.java:195-206 | a leaf of the given type, named getNewItemName(type) with a freshly drawn id, is appended after the parent's children (the root's when no parent is given); the result is its position; the count grows by one; an unknown type or no model changes nothing |
| ProjectSession.Project.RemoveItem | src/main/java/com/github/surg83/modest/Project.java:239-244 | the root stays; any other node is detached with its whole subtree |
| ProjectSession.Project.LoadItemFields | src/main/java/com/github/surg83/modest/Project.java:255-261 | with a null path the item is returned unchanged; otherwise its detail file is read into the model's own item, which keeps what was read even when a field is missing |

## Left out

- I/O: parsing (`DocumentBuilder`), pretty-printing (`Transformer`), `mkdir` and file writes are left out. The file system is a map from path to document, and each save appends `MakeDir` and `WriteDoc` records to a log. I/O errors are not modelled; a missing file is `FileNotFound` and a document without an element is `Malformed`.
- The textual XML form: the model works on the element tree. An item with an empty name is saved with an empty text node. Once that is written out and parsed again, the `name` element has no child and `getItem` fails with `EmptyName`. In the same way an empty field value is written as an empty element, which reads back as having no child, so hydration leaves the target's old value in place. `HydrateAfterSave` and `DetailRoundTrip` hold for the element tree, not across that step. That step needs the serialised form and is outside the model.
- UUIDs: `resetId`'s generator is an id source, a function from a counter to strings. The session counts how many ids it has drawn. Uniqueness of the ids is not claimed.
- ProjectTreeModel and ProjectTreeNode: neither is part of this model. The tree is a value and nodes are addressed by child-index paths, so aliasing between a tree node and the item shown in an editor tab is not captured. One place where the code relies on it is modelled: `Project.LoadItemFields` writes the hydrated item back at its path.
- The root, section, funcRequirement and nonFuncRequirement variant classes are not part of this model. Their field forms are parameters of `ItemFactory`, and the root variant's root flag is taken to be set.
- ProjectItem.GetElement: a field form is a sequence, so it could repeat a key, which a LinkedHashMap cannot. Distinct keys are a hypothesis (`ProjectItem.DistinctKeys`, `ProjectItemFactory.WellFormed`) of the lemmas that count keys, not part of the type. For a form that repeats a key, the count of 1 + form-length children covers states the program cannot reach.
- Item icons, the Swing UI, configuration and ODT export are left out.
- `java.io.File`: paths are taken as already normalised Unix paths. The Windows separator and `File`'s normalisation of repeated separators are left out.
- ProjectLoader.NameOf, ProjectLoader.GetItem: when the first child of `name` is an element, Java builds an item whose name is null; the model stops with `NullName` instead.
- ProjectLoader.GetItem: with an unknown tag on the document element and `resetIds` false, Java puts a null item into the root node; the model stops with `UnknownType`. With `resetIds` true Java throws there, as the model says.
- ProjectItem.IdAttr: an item whose id is null is saved with no `id` attribute. Java passes null to `setAttribute`, and the model does not follow what the DOM makes of that. No session operation saves such an item, because `addItem` resets the id at once.
- ProjectItem.SetFieldNull: Java stores a null value under the key where the model removes the key. Both read as "" through getFieldValue.
- ProjectSession.Project.OpenTemplate: when a template fails part way through, `drawn` stays where it was. Java has already generated ids for the items read before the failure. Because the ids are random, this makes no visible difference.
- RoundTrip.DetailRoundTrip: this needs `name` not to be a field-form key, since the `name` element would be found first. It also needs no other node and not the master file to share the item's path (`SavedDetail`).
- RoundTrip.LoadSaved: children of a type not in getTypes are not read back, and `Reloaded` drops them. `addItem` also accepts "root" (`ProjectSession.Project.AddItem` as much as Java's factory switch). Only the user interface keeps such a child from being made, since it offers getTypes alone. A root-typed child added another way is saved, with `appVersion`, but is not read back.
- ProjectLoader.AddChildrenOfType: the inner loop of getTreeNodeWithChildren is a method of its own, called once per type from the outer loop.
