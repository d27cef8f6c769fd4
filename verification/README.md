# Family tree: a Dafny model of the relationship engine, the routes and the client state

The family-tree application keeps people and their parent/child links. An Express backend
stores each person as a JSON document, `persons/<id>.json`, and the tree's metadata in
`familyTree.json`. A React client holds the loaded tree in a reducer, validates its forms,
draws the tree and offers dialogs for linking people. This project models the parts that
decide what the data looks like, and proves what they promise:

- `RelationshipUtils` (`relationship.dfy`) is the relationship engine. It creates records,
  recomputes full names, and adds or removes a parent/child link on both sides. It also holds
  the depth-first searches: the circular-relationship test, descendants, ancestors, and the
  tree-integrity report. The searches are methods that carry their visited sets and are
  proved against reachability in the parent graph or the child graph.
- `Storage` (`store.dfy`) is the JSON file store. It is a class whose fields are the person
  documents and the tree document, with read, write, delete and list primitives.
- `StoreEdits` (`store_edits.dfy`) says what the routes' unlinking and cleanup loops do to
  the stored records, as functions of the records before the request. It also defines
  `Consistent`: every link has its mirror image and names a stored record.
- `PersonRoutes` (`person_routes.dfy`) holds the `/api/persons` handlers. Each one is a
  method over the store that is proved equal to an outcome function: the response plus the
  records afterwards. Lemmas then say which store invariants a successful request keeps:
  consistency, at most two parents, and no cycle.
- `TreeRoutes` (`tree_routes.dfy`) holds the `/api/tree` handlers: fetching the tree,
  initialising it with one or two root parents, and deleting everything.
- `FamilyTreeContext` (`family_tree_context.dfy`) is the client's `familyTreeReducer`.
- `ErrorContext` (`error_context.dfy`) is the client's notification reducer, the `addError`
  callback with its auto-dismiss timer, and the `show*` shortcuts.
- `FormValidation` (`validation.dfy`) is the client's rule-based form validator and the
  person form's schema.
- `TreeVisualization` (`tree_view.dfy`) covers how the tree view builds its nodes, which
  people it highlights, where the virtual root goes, and keyboard navigation.
- `AddChildModal` (`add_child_modal.dfy`) is the set of people the "Add Child" dialog
  offers, related to what the server then accepts.
- `Collections`, `Text`, `Graphs` and `Persons` are shared definitions:
  - filtering, counting and removal on sequences;
  - JavaScript string helpers;
  - reachability on a graph given as successor lists;
  - the person record and `find` by id.

Generated ids (`uuidv4`, `Date.now()`, `Math.random()`) and clock readings are parameters.
Storage failures are not modelled.

## Model

| member | source | states |
|---|---|---|
| Persons.Lookup | family-tree-backend/dist/utils/relationshipUtils.js:79 | `find` by id yields nothing exactly when no listed person has the id, and otherwise a listed person with that id |
| Persons.LookupFirst | family-tree-backend/dist/utils/relationshipUtils.js:79 | the person found is the first one in the list with that id |
| Persons.LinkGraph | family-tree-backend/dist/utils/relationshipUtils.js:96-100 | the graph walked by the searches has a node for each listed id, and its successors are the first matching record's parent or child ids |
| RelationshipUtils.CreatePerson | family-tree-backend/dist/utils/relationshipUtils.js:9-19 | the new record carries every input field and the given id, its full name is first name, space, last name, it has no children, and both timestamps are the creation time |
| RelationshipUtils.UpdateFullName | family-tree-backend/dist/utils/relationshipUtils.js:23-29 | the full name again agrees with the first and last names, the update time is set, and no other field changes |
| RelationshipUtils.UpdateFullNameIdempotent | family-tree-backend/dist/utils/relationshipUtils.js:23-29 | recomputing twice equals recomputing once; on a record whose name already agrees, only the update time changes |
| RelationshipUtils.AddChildRelationship | family-tree-backend/dist/utils/relationshipUtils.js:33-45 | the child's id is appended to the parent's children and the parent's id to the child's parents, both updated now, nothing else touched |
| RelationshipUtils.RemoveChildRelationship | family-tree-backend/dist/utils/relationshipUtils.js:49-61 | every occurrence of the child's id leaves the parent's children, and every occurrence of the parent's id leaves the child's parents; other entries keep their order, lengths drop by the number removed, and only the update times also change |
| RelationshipUtils.AddThenRemove | family-tree-backend/dist/utils/relationshipUtils.js:33-61 | removing a link just added between two unlinked people restores both records apart from their update times |
| RelationshipUtils.RemoveTwice | family-tree-backend/dist/utils/relationshipUtils.js:49-61 | removing a link a second time changes nothing but the update times |
| RelationshipUtils.ParentCountsValidated | family-tree-backend/dist/utils/relationshipUtils.js:65-67 | `validateParentCount` accepts every record exactly when nobody has more than two parents, and a single record it refuses makes the integrity report fail |
| StoreEdits.ParentsBoundedValidated | family-tree-backend/dist/utils/relationshipUtils.js:65-67 | the store-wide bound the route lemmas keep is exactly `validateParentCount` accepting every stored record |
| RelationshipUtils.CheckAncestors | family-tree-backend/dist/utils/relationshipUtils.js:73-83 | a hit means the child id is reachable from the id upwards; a miss grows the visited set so that it stays closed under parent steps, apart from the ids still on the stack |
| RelationshipUtils.SomeParentReaches | family-tree-backend/dist/utils/relationshipUtils.js:82 | the `some` over a person's parents: a hit is a real upward path; on a miss every parent has been explored without meeting the child |
| RelationshipUtils.HasCircularRelationship | family-tree-backend/dist/utils/relationshipUtils.js:71-85 | true exactly when the would-be child is the parent or one of its ancestors through `parentIds` |
| RelationshipUtils.Collect | family-tree-backend/dist/utils/relationshipUtils.js:92-106 | the recursive walk ends in the state the walk function `Walks.Walk` gives; it keeps everything collected so far, each person collected is the present record of an id one or more steps from the root, and every present successor of a finished id has been collected |
| RelationshipUtils.CollectLinks | family-tree-backend/dist/utils/relationshipUtils.js:99-105 | the loop over one person's links ends in the state `Walks.WalkLinks` gives, keeps the walk's invariants and finishes that person's successors |
| RelationshipUtils.CollectLink | family-tree-backend/dist/utils/relationshipUtils.js:100-104 | one link of the loop ends in the state `Walks.WalkLink` gives: a present target is pushed first and then walked, whether or not it was visited |
| RelationshipUtils.CollectFrom | family-tree-backend/dist/utils/relationshipUtils.js:89-109 | the walk from one person returns exactly the present people reachable in one or more steps, each as its present record; each record appears once for every link naming it from the root or a person of the region, because the push at lines 101-102 comes before the visited check at line 93; on tree-shaped data each appears once |
| RelationshipUtils.GetDescendants | family-tree-backend/dist/utils/relationshipUtils.js:89-109 | every result is a present record one or more `childrenIds` steps below the person, and every such present person is in the result; each appears once per `childrenIds` entry naming it from the person or someone below, so once on tree-shaped data and twice at the foot of a diamond |
| RelationshipUtils.GetAncestors | family-tree-backend/dist/utils/relationshipUtils.js:113-133 | every result is a present record one or more `parentIds` steps above the person, and every such present person is in the result; each appears once per `parentIds` entry naming it from the person or someone above, so once when no one above is reached twice |
| RelationshipUtils.WalkRegion | family-tree-backend/dist/utils/relationshipUtils.js:89-109 | the ids a walk from the root enters list the root and its present reachable ids once each, and a record's count in the result is the number of links naming it from those ids |
| Walks.Walk | family-tree-backend/dist/utils/relationshipUtils.js:92-106 | the walk as a value: the ids entered only grow and include the start |
| Walks.WalkCounts | family-tree-backend/dist/utils/relationshipUtils.js:92-106 | a walk pushes each record once per link naming it from an id it enters; the ids it enters are new, listed once, and have their records pushed |
| Walks.RegionListed | family-tree-backend/dist/utils/relationshipUtils.js:89-109 | the root and the present ids reachable from it can always be listed without repetition |
| Walks.TreeCountsOnce | family-tree-backend/dist/utils/relationshipUtils.js:99-102 | when no id of the region is named by two links, every reachable present record is named exactly once |
| Walks.DiamondList | family-tree-backend/dist/utils/relationshipUtils.js:89-109 | four records A→B, A→C, B→D, C→D, listed in that order, form a diamond |
| Walks.DiamondCountsTwice | family-tree-backend/dist/utils/relationshipUtils.js:99-102 | in a diamond, D is named by two links of the region of A, so the descendants of A list D twice |
| RelationshipUtils.CheckParents | family-tree-backend/dist/utils/relationshipUtils.js:145-153 | no finding exactly when every parent id names a present record that lists the person as a child; every finding describes a real defect |
| RelationshipUtils.CheckChildren | family-tree-backend/dist/utils/relationshipUtils.js:155-163 | no finding exactly when every child id names a present record that lists the person as a parent; every finding is real |
| RelationshipUtils.CheckCycles | family-tree-backend/dist/utils/relationshipUtils.js:165-169 | no finding exactly when no child of the person is reachable from it upwards; every finding is real |
| RelationshipUtils.CheckPerson | family-tree-backend/dist/utils/relationshipUtils.js:140-170 | the checks of one person report nothing exactly when the person is sound: at most two parents, and parents, children and cycles all in order; every finding is genuine; the first finding is the too-many-parents report exactly when `validateParentCount` refuses the person |
| RelationshipUtils.ValidateTreeIntegrity | family-tree-backend/dist/utils/relationshipUtils.js:137-175 | the report says valid exactly when it lists no error, which is exactly when every person is sound; every error listed is a real defect, and the report carries one message per error, in order |
| RelationshipUtils.IntegrityCharacterised | family-tree-backend/dist/utils/relationshipUtils.js:137-175 | the report passes exactly when links are symmetric and never dangle, nobody has more than two parents, and the parent graph has no cycle |
| Graphs.AddEdgeKeepsAcyclic | family-tree-backend/src/routes/persons.ts:403-412 | adding an edge a→b to an acyclic graph leaves it acyclic when a is not reachable from b |
| Graphs.AddEdgeCreatesCycle | family-tree-backend/src/routes/persons.ts:403-412 | adding an edge a→b when a is reachable from b creates a cycle |
| Storage.Store.constructor | family-tree-backend/src/utils/storage.ts:12 | a new store holds no documents, so every document is filed under its own id |
| Storage.Store.Read | family-tree-backend/src/utils/storage.ts:34-48 | reading a missing document yields nothing, and otherwise yields the stored record |
| Storage.Store.Write | family-tree-backend/src/utils/storage.ts:53-64 | writing replaces or adds one person document and leaves everything else; writing a record under its own id keeps every document filed under its id |
| Storage.Store.Delete | family-tree-backend/src/utils/storage.ts:69-82 | deleting removes one person document, a missing one silently, and leaves everything else; every remaining document stays filed under its id |
| Storage.Store.ReadTree | family-tree-backend/src/utils/storage.ts:34-48 | reading `familyTree.json` yields its content, or nothing when it is absent |
| Storage.Store.WriteTree | family-tree-backend/src/utils/storage.ts:53-64 | writing `familyTree.json` sets the tree document and leaves the person documents and their filing |
| Storage.Store.DeleteTree | family-tree-backend/src/utils/storage.ts:69-82 | deleting `familyTree.json` removes the tree document only, leaving the person documents and their filing |
| Storage.Store.ListIds | family-tree-backend/src/utils/storage.ts:100-114 | listing yields exactly the stored person documents |
| StoreEdits.WithoutChildTwice | family-tree-backend/dist/utils/relationshipUtils.js:49-61 | dropping a child from a record twice is the same as dropping it once |
| StoreEdits.WithoutParentTwice | family-tree-backend/dist/utils/relationshipUtils.js:49-61 | dropping a parent from a record twice is the same as dropping it once |
| StoreEdits.DropChildFromEffect | family-tree-backend/src/routes/persons.ts:278-284 | the loop over the person's parents removes the person from the children of each listed, stored parent, creates and deletes no record, and leaves every other record unchanged |
| StoreEdits.DropParentFromEffect | family-tree-backend/src/routes/persons.ts:265-274 | the loop over the person's children removes the person from the parents of each listed, stored child, and leaves every other record unchanged |
| StoreEdits.CleanupEffect | family-tree-backend/src/routes/persons.ts:304-328 | `Cleanup` (`deletePersonAndCleanup`) deletes exactly that record; each former parent loses it from its children, each former child loses it from its parents, and no other record changes |
| StoreEdits.CleanupKeepsConsistent | family-tree-backend/src/routes/persons.ts:304-328 | cleaning up one person keeps a consistent store consistent, removes exactly that id, and creates no link |
| StoreEdits.CleanupLinks | family-tree-backend/src/routes/persons.ts:304-328 | after `deletePersonAndCleanup` each surviving record loses the id from its parents when it was a child, from its children when it was a parent, and keeps its own id |
| StoreEdits.CleanupKeepsKeyed | family-tree-backend/src/routes/persons.ts:304-328 | cleaning up one person keeps every record filed under its own id |
| StoreEdits.CleanupAllKeepsConsistent | family-tree-backend/src/routes/persons.ts:262-264 | cleaning up a list of people one after another keeps consistency, removes exactly those ids, and creates no link |
| StoreEdits.CleanupAllKeepsKeyed | family-tree-backend/src/routes/persons.ts:262-264 | cleaning up a list of people keeps every record filed under its own id |
| StoreEdits.OrphanIsCleanup | family-tree-backend/src/routes/persons.ts:265-287 | the orphan strategy, children first and parents second, ends in the same store as `deletePersonAndCleanup` |
| StoreEdits.CascadeRemainder | family-tree-backend/src/routes/persons.ts:255-264 | after the descendants are cleaned up, what is left of the person has no children, and only its recorded parents still name it |
| StoreEdits.CascadeKeepsConsistent | family-tree-backend/src/routes/persons.ts:255-287 | a cascade delete keeps a consistent store consistent and removes exactly the person and its descendant snapshot |
| StoreEdits.LinkNewChildEffect | family-tree-backend/src/routes/persons.ts:130-138 | each listed, stored parent gains the new child's id at the end of its children, once per time it is listed, and no other record changes |
| PersonRoutes.MergeUpdate | family-tree-backend/src/routes/persons.ts:191-200 | an update keeps the id, the links, the spouse and the creation time, and takes supplied names over stored ones; the full name is recomputed exactly when a non-empty first or last name was supplied |
| PersonRoutes.UpdateKeepsNameConsistent | family-tree-backend/src/routes/persons.ts:191-200 | a valid update of a record whose full name agrees with its names keeps it agreeing |
| PersonRoutes.LinkedChildConsistent | family-tree-backend/src/routes/persons.ts:113-138 | saving a fresh childless record whose parents are all stored, then linking it from them, keeps the store consistent |
| PersonRoutes.CreateKeepsConsistent | family-tree-backend/src/routes/persons.ts:68-148 | `CreateOutcome` (the create route): a successful create adds exactly the new id with the returned record, keeps the store consistent, and keeps every record at two parents or fewer |
| PersonRoutes.UpdateKeepsConsistent | family-tree-backend/src/routes/persons.ts:151-212 | `UpdateOutcome` (the update route): an update changes at most the one record, never its links, and keeps the store consistent |
| PersonRoutes.DeleteKeepsConsistent | family-tree-backend/src/routes/persons.ts:215-301 | `DeleteOutcome` (the delete route): a successful delete removes the person and, when cascading, its descendants; with the orphan strategy it is exactly `deletePersonAndCleanup`; no surviving record names a deleted one |
| PersonRoutes.LinkedPairConsistent | family-tree-backend/src/routes/persons.ts:415-419 | writing back both sides of a new link between two distinct stored people keeps the store consistent |
| PersonRoutes.LinkedPairGraph | family-tree-backend/src/routes/persons.ts:403-419 | the new link adds exactly one child-to-parent edge to the parent graph |
| PersonRoutes.AddChildKeepsInvariants | family-tree-backend/src/routes/persons.ts:331-432 | a successful add-child links two distinct people on both sides, touches no other record, leaves the child with at most two parents, and keeps the store consistent |
| PersonRoutes.AddChildKeepsAcyclic | family-tree-backend/src/routes/persons.ts:403-419 | a successful add-child keeps an acyclic parent graph acyclic |
| PersonRoutes.AddChildRefusesOnlyCycles | family-tree-backend/src/routes/persons.ts:403-412 | a refusal as circular is warranted: the link would have closed a cycle |
| PersonRoutes.UnlinkedPairConsistent | family-tree-backend/src/routes/persons.ts:486-490 | writing back both sides of a removed link keeps the store consistent |
| PersonRoutes.RemoveChildKeepsConsistent | family-tree-backend/src/routes/persons.ts:435-503 | a successful remove-child unlinks both sides, touches no other record, and keeps the store consistent |
| PersonRoutes.CreatePreserves | family-tree-backend/src/routes/persons.ts:68-148 | whatever the create answers, a store filing every record under its id stays so, and a consistent store stays consistent when the new id is not stored yet |
| PersonRoutes.UpdatePreserves | family-tree-backend/src/routes/persons.ts:151-212 | whatever the update answers, the filing by id and the consistency of the store are kept |
| PersonRoutes.DeletePreserves | family-tree-backend/src/routes/persons.ts:215-301 | whatever the delete answers, the filing by id and the consistency of the store are kept |
| PersonRoutes.AddChildPreserves | family-tree-backend/src/routes/persons.ts:331-432 | whatever the add-child answers, the filing by id and the consistency of the store are kept |
| PersonRoutes.RemoveChildPreserves | family-tree-backend/src/routes/persons.ts:435-503 | whatever the remove-child answers, the filing by id is kept, and consistency is kept when parent and child differ |
| PersonRoutes.GetAllPersons | family-tree-backend/src/routes/persons.ts:506-518 | the helper returns each stored record once and nothing else, so `find` on the result agrees with the store |
| PersonRoutes.ListPersons | family-tree-backend/src/routes/persons.ts:10-30 | the list response holds every stored record exactly once, and its count is the number of records |
| PersonRoutes.GetPerson | family-tree-backend/src/routes/persons.ts:33-65 | the stored record when there is one, and otherwise `PERSON_NOT_FOUND` |
| PersonRoutes.FindMissingParent | family-tree-backend/src/routes/persons.ts:85-98 | reports a listed parent id that is not stored, and reports none exactly when every listed parent is stored |
| PersonRoutes.LinkParents | family-tree-backend/src/routes/persons.ts:130-138 | the loop linking the new person from its parents leaves the store as the linking function says |
| PersonRoutes.CreatePersonRoute | family-tree-backend/src/routes/persons.ts:68-148 | the response and the new store are the create outcome: a validation error, then a missing parent, otherwise the created record saved and linked from its parents; a store filing every record under its id stays so, and a consistent store stays consistent when the new id is not stored yet |
| PersonRoutes.UpdatePersonRoute | family-tree-backend/src/routes/persons.ts:151-212 | the response and the new store are the update outcome: a validation error, then not found, otherwise the merged record written back; a store filing every record under its id stays so, and a consistent store stays consistent |
| PersonRoutes.UnlinkFromParents | family-tree-backend/src/routes/persons.ts:278-284 | the loop over the parents leaves the store as the unlinking function says |
| PersonRoutes.UnlinkFromChildren | family-tree-backend/src/routes/persons.ts:265-274 | the loop over the children leaves the store as the unlinking function says |
| PersonRoutes.DeletePersonAndCleanup | family-tree-backend/src/routes/persons.ts:304-328 | the helper leaves the store as the cleanup function says, doing nothing for a missing id |
| PersonRoutes.DescendantsSound | family-tree-backend/src/routes/persons.ts:258-259 | every id of the descendants found over the listed records is stored and lies below the person in the store |
| PersonRoutes.DescendantsComplete | family-tree-backend/src/routes/persons.ts:258-259 | every stored record below the person is among the descendants found |
| PersonRoutes.CleanupEach | family-tree-backend/src/routes/persons.ts:262-264 | the loop over the descendants leaves the store as cleaning them up in order says |
| PersonRoutes.DeletePersonRoute | family-tree-backend/src/routes/persons.ts:215-301 | the response and the new store are the delete outcome: not found, then a bad strategy, otherwise cascade or orphan handling of the children, unlinking from the parents, and the summary with the child count; a store filing every record under its id stays so, and a consistent store stays consistent |
| PersonRoutes.AddChildRoute | family-tree-backend/src/routes/persons.ts:331-432 | the response and the new store are the add-child outcome: parent missing, child missing, already linked, two parents, circular, otherwise both sides linked and saved; a store filing every record under its id stays so, and a consistent store stays consistent |
| PersonRoutes.RemoveChildRoute | family-tree-backend/src/routes/persons.ts:435-503 | the response and the new store are the remove-child outcome: parent missing, child missing, not linked, otherwise both sides unlinked and saved; a store filing every record under its id stays so, and a consistent store stays consistent when parent and child differ |
| TreeRoutes.Roots | family-tree-backend/src/routes/tree.ts:94-116 | each root is created from its input under its id with no parents or children; two roots are each other's spouse, and a single root has no spouse |
| TreeRoutes.InitializedTree | family-tree-backend/src/routes/tree.ts:63-146 | `InitializeOutcome` (the initialise route): initialising succeeds exactly when the input is valid and no tree exists, and a refusal changes nothing; the tree lists the roots as its root ids and persons, and its name is "<full name>'s Family Tree" or "<full name> & <full name>'s Family Tree" |
| TreeRoutes.InitializeKeepsConsistent | family-tree-backend/src/routes/tree.ts:94-136 | initialising stores exactly the new roots under their ids, leaves existing records alone, and keeps the store consistent |
| TreeRoutes.InitializePreserves | family-tree-backend/src/routes/tree.ts:94-136 | whatever the initialisation answers, the filing by id is kept, and consistency is kept when the new ids are fresh and distinct |
| TreeRoutes.FiledRoots | family-tree-backend/src/routes/tree.ts:119-121 | saving the fresh roots adds exactly their ids with their records, leaves existing records alone, and keeps the store consistent |
| TreeRoutes.RootIds | family-tree-backend/src/routes/tree.ts:94-110 | the roots' ids are exactly the generated ids |
| TreeRoutes.FiledKeys | family-tree-backend/src/routes/tree.ts:119-121 | saving a list of records adds exactly their ids |
| TreeRoutes.FiledElsewhere | family-tree-backend/src/routes/tree.ts:119-121 | saving records leaves every record with another id unchanged |
| TreeRoutes.FiledStores | family-tree-backend/src/routes/tree.ts:119-121 | after saving, each id holds the last record written under it |
| TreeRoutes.FiledUnlinkedConsistent | family-tree-backend/src/routes/tree.ts:119-121 | saving fresh records without links keeps a consistent store consistent |
| TreeRoutes.FiledKeepsKeyed | family-tree-backend/src/routes/tree.ts:119-121 | the save loop writes each record under its own id, so the filing by id is kept |
| TreeRoutes.InitializeFamilyTree | family-tree-backend/src/routes/tree.ts:63-146 | the response, the records and the tree document afterwards are the initialise outcome; a store filing every record under its id stays so, and a consistent store stays consistent when the new ids are fresh and distinct |
| TreeRoutes.SaveAll | family-tree-backend/src/routes/tree.ts:119-121 | the save loop leaves the store as saving the records in order says |
| TreeRoutes.GetFamilyTree | family-tree-backend/src/routes/tree.ts:17-60 | no tree when the document is absent; otherwise the stored metadata with every stored record exactly once as its persons, stamped with the current time |
| TreeRoutes.DeleteFamilyTree | family-tree-backend/src/routes/tree.ts:149-167 | afterwards no person document and no tree document remain; the empty store that remains files every record under its id |
| FamilyTreeContext.Replace | family-tree-frontend/src/contexts/FamilyTreeContext.tsx:66-77 | the mapped list has the same length, and each position holds the payload when its id matches and the old record otherwise |
| FamilyTreeContext.ReplaceMeans | family-tree-frontend/src/contexts/FamilyTreeContext.tsx:66-77 | after the replacement every record with the payload's id is the payload, the payload is present exactly when its id was, and replacing again changes nothing |
| FamilyTreeContext.UpdatePersonEffect | family-tree-frontend/src/contexts/FamilyTreeContext.tsx:66-77 | `UPDATE_PERSON` replaces every record with the payload's id and no other; it is idempotent and leaves the selection, loading and error alone |
| FamilyTreeContext.DeletePersonEffect | family-tree-frontend/src/contexts/FamilyTreeContext.tsx:79-89 | `DELETE_PERSON` keeps exactly the records with other ids, each as many times as before and in order; it clears the selection exactly when it was the deleted id and otherwise leaves it as it was |
| FamilyTreeContext.WithoutAppended | family-tree-frontend/src/contexts/FamilyTreeContext.tsx:79-89 | filtering out the id of a person appended to a list without that id gives the list back |
| FamilyTreeContext.AddThenDelete | family-tree-frontend/src/contexts/FamilyTreeContext.tsx:56-89 | adding a person with a new id and then deleting it restores the person list, and the loaded tree too when it was in step |
| FamilyTreeContext.ReducerKeepsMirror | family-tree-frontend/src/contexts/FamilyTreeContext.tsx:36-100 | every action but `SET_PERSONS` keeps the loaded tree's persons equal to the list; only `CLEAR_TREE` drops the tree and only `SET_FAMILY_TREE` creates one |
| FamilyTreeContext.ReducerFieldEffects | family-tree-frontend/src/contexts/FamilyTreeContext.tsx:36-100 | `Reduce` (`familyTreeReducer`): each flag action changes only its own field; `SET_ERROR` ends loading; `SET_FAMILY_TREE` takes the tree's persons and clears loading and error; `CLEAR_TREE` returns the initial state; an unknown action changes nothing |
| ErrorContext.AddErrorEffect | family-tree-frontend/src/contexts/ErrorContext.tsx:32-41 | `ADD_ERROR` appends one error carrying the draft's fields, the fresh id and the time, and changes nothing else |
| ErrorContext.RemoveErrorEffect | family-tree-frontend/src/contexts/ErrorContext.tsx:43-47 | `REMOVE_ERROR` keeps exactly the errors with other ids, each as many times as before and in order; an unknown id changes nothing |
| ErrorContext.AddThenRemove | family-tree-frontend/src/contexts/ErrorContext.tsx:32-47 | adding an error under an unused id and removing that id restores the state |
| ErrorContext.ReducerFieldEffects | family-tree-frontend/src/contexts/ErrorContext.tsx:49-63 | `Reduce` (`errorReducer`): `CLEAR_ERRORS` empties the list only, `SET_GLOBAL_ERROR` sets the global error only, and an unknown action changes nothing |
| ErrorContext.AddErrorAsWritten | family-tree-frontend/src/contexts/ErrorContext.tsx:87-100 | as written, the stored error gets one generated id while the returned id and the scheduled dismissal use another; a timer is scheduled exactly for a positive duration |
| ErrorContext.AutoDismissMisses | family-tree-frontend/src/contexts/ErrorContext.tsx:87-100 | as written, when the two generated ids differ, the error is still in the list after its dismissal runs |
| ErrorContext.AddErrorWithId | family-tree-frontend/src/contexts/ErrorContext.tsx:87-100 | with one id, the stored error, the returned id and the dismissal all agree; a timer is scheduled exactly for a positive duration |
| ErrorContext.AutoDismissRemoves | family-tree-frontend/src/contexts/ErrorContext.tsx:87-100 | with one id, the dismissal removes exactly the error that was added |
| ErrorContext.ShowError | family-tree-frontend/src/contexts/ErrorContext.tsx:114-121 | as written: one error is appended with the message, type error, the reducer's id and the time, dismissible unless the caller says otherwise, with the caller's title and duration; the returned id is the second one, and a timer for it is scheduled exactly when the caller gives a positive duration |
| ErrorContext.ShowWarning | family-tree-frontend/src/contexts/ErrorContext.tsx:123-130 | the same with type warning |
| ErrorContext.ShowInfo | family-tree-frontend/src/contexts/ErrorContext.tsx:132-140 | the same with type info, except that the duration is 5000 ms unless the caller gives one, so that without a caller's duration a 5000 ms timer is scheduled for the returned id |
| ErrorContext.GeneratedIdsDiffer | family-tree-frontend/src/contexts/ErrorContext.tsx:92-99 | two ids generated in the same millisecond from different random suffixes differ |
| ErrorContext.ShowInfoStays | family-tree-frontend/src/contexts/ErrorContext.tsx:132-140 | as written, an info message shown without a duration is still listed after its 5000 ms dismissal has run, whenever the two generated ids differ |
| ErrorContext.ShowErrorWithId | family-tree-frontend/src/contexts/ErrorContext.tsx:114-121 | over the corrected `addError`: the as-written shortcut with both ids equal, whose dismissal removes the error it added |
| ErrorContext.ShowWarningWithId | family-tree-frontend/src/contexts/ErrorContext.tsx:123-130 | the same for warnings |
| ErrorContext.ShowInfoWithId | family-tree-frontend/src/contexts/ErrorContext.tsx:132-140 | the same for info messages; without a caller's duration the message is removed by the 5000 ms timer |
| FormValidation.MessageOr | family-tree-frontend/src/utils/validation.ts:53 | the rule's own message when it is non-empty, and otherwise the default, which is never empty |
| FormValidation.CapitaliseFirst | family-tree-frontend/src/utils/validation.ts:96 | the first character is upper-cased unless it is a line terminator, which `.` does not match; the rest and the length are kept |
| FormValidation.SpaceBeforeCapitalsAppend | family-tree-frontend/src/utils/validation.ts:95 | the global replace works character by character, so spacing out a concatenation spaces out each part |
| FormValidation.SpaceBeforeCapitalsWord | family-tree-frontend/src/utils/validation.ts:95 | a word in small letters is kept; one starting with a capital gets one space in front |
| FormValidation.SpaceBeforeCapitalsLast | family-tree-frontend/src/utils/validation.ts:95 | spacing out keeps the last character of a non-empty name last |
| FormValidation.SpacedTwoWords | family-tree-frontend/src/utils/validation.ts:95 | a small-letter word followed by a capitalised one is spaced out with one space between them |
| FormValidation.SpacedThreeWords | family-tree-frontend/src/utils/validation.ts:95 | the same for three words, with one space before each capitalised word |
| FormValidation.FormatFieldNameCamelCase | family-tree-frontend/src/utils/validation.ts:93-98 | `FormatFieldName` (`formatFieldName`): a name starting with a small letter and not ending in white space comes out as its first letter in capitals followed by the rest spaced out; the trim removes nothing |
| FormValidation.FormatTwoWords | family-tree-frontend/src/utils/validation.ts:93-98 | a camel-case name of two words becomes the two words, the first capitalised, separated by one space |
| FormValidation.FormatThreeWords | family-tree-frontend/src/utils/validation.ts:93-98 | the same for three words |
| FormValidation.FormatFirstName | family-tree-frontend/src/utils/validation.ts:93-98 | `firstName` becomes `First Name` |
| FormValidation.FormatPhoneNumber | family-tree-frontend/src/utils/validation.ts:93-98 | `phoneNumber` becomes `Phone Number` |
| FormValidation.FormatDateOfBirth | family-tree-frontend/src/utils/validation.ts:93-98 | `dateOfBirth` becomes `Date Of Birth` |
| Text.TrimUnchanged | family-tree-frontend/src/utils/validation.ts:97 | `trim` leaves a string that neither starts nor ends with white space unchanged |
| FormValidation.SpaceBeforeCapitalsOnlySpaces | family-tree-frontend/src/utils/validation.ts:95 | inserting spaces before capitals changes nothing but spaces |
| FormValidation.SpaceBeforeCapitalsSeparates | family-tree-frontend/src/utils/validation.ts:95 | afterwards every capital letter has a space before it |
| FormValidation.FailedCheck | family-tree-frontend/src/utils/validation.ts:50-86 | the required check fails exactly for an empty value under a required rule; an empty value under an optional rule fails nothing; a custom failure carries the custom function's non-empty report |
| FormValidation.DefaultMessage | family-tree-frontend/src/utils/validation.ts:53-74 | every built-in check has a non-empty default message |
| FormValidation.ValidateField | family-tree-frontend/src/utils/validation.ts:50-86 | there is an error exactly when a check fails, and it is never empty: the custom report for a custom failure, otherwise the rule's message or the default one |
| FormValidation.EmptyValueFailsOnlyRequired | family-tree-frontend/src/utils/validation.ts:52-59 | an empty value fails a rule exactly when the rule is required, with "<Field> is required" unless the rule has a message |
| FormValidation.NonStringOnlyCustom | family-tree-frontend/src/utils/validation.ts:61-83 | a non-empty value that is not a string is judged by the custom function alone |
| FormValidation.StringChecks | family-tree-frontend/src/utils/validation.ts:61-83 | a non-empty string within the length limits that matches the pattern is judged by the custom function alone; one outside a limit or not matching fails, with the rule's message when it has one |
| FormValidation.FirstErrorCons | family-tree-frontend/src/utils/validation.ts:35-41 | a field's error is its first rule's error when that rule fails, and otherwise the error of the remaining rules |
| FormValidation.FirstErrorIsFirstFailure | family-tree-frontend/src/utils/validation.ts:35-41 | a field has no error exactly when every rule passes; otherwise its error is that of the first failing rule |
| FormValidation.FieldError | family-tree-frontend/src/utils/validation.ts:35-41 | the loop over a field's rules stops at the first error and returns it |
| FormValidation.Validate | family-tree-frontend/src/utils/validation.ts:28-48 | the errors map has exactly the schema fields with an error, each holding its first failing rule's message; the result is valid exactly when no field has an error |
| FormValidation.CheckField | family-tree-frontend/src/utils/validation.ts:199-211 | a field outside the schema has no error; otherwise the error is the first failing rule's |
| FormValidation.RequiredRule | family-tree-frontend/src/utils/validation.ts:103-106 | the rule is required and carries the given message |
| FormValidation.StringRuleChecks | family-tree-frontend/src/utils/validation.ts:103-126 | on a non-empty string, required passes, min and max length pass exactly within the bound, and a pattern rule fails with its message exactly when the pattern does not match |
| FormValidation.DateRuleChecks | family-tree-frontend/src/utils/validation.ts:128-149 | a present falsy value passes both date rules; otherwise an unparseable date fails with the invalid-date message and a future date with the future-date message |
| FormValidation.OptionalRulesAcceptEmpty | family-tree-frontend/src/utils/validation.ts:56-59 | an empty value passes any list of optional rules |
| FormValidation.PersonSchemaEmptyFields | family-tree-frontend/src/utils/validation.ts:158-189 | in the person form an empty first or last name is "… is required", and every other empty field passes |
| FormValidation.NameRulesAccept | family-tree-frontend/src/utils/validation.ts:159-170 | a name passes exactly when it is 1 to 50 characters long and made only of letters, digits, whitespace, hyphens, apostrophes and periods |
| FormValidation.NameRulesRejectEmpty | family-tree-frontend/src/utils/validation.ts:159-170 | an empty name fails the first rule, the required check, with its default message |
| FormValidation.EmailRulesAccept | family-tree-frontend/src/utils/validation.ts:171-174 | a non-empty email passes exactly when it matches the email pattern and is at most 100 characters; a mismatch gives the email message |
| FormValidation.PhoneRulesAccept | family-tree-frontend/src/utils/validation.ts:175-178 | a non-empty phone number passes exactly when it matches the phone pattern and is at most 20 characters; a mismatch gives the phone message |
| FormValidation.DateRulesAccept | family-tree-frontend/src/utils/validation.ts:179-182 | a date of birth is checked for validity first and for being in the future second |
| TreeVisualization.OverlapMeans | family-tree-frontend/src/components/tree/TreeVisualization.tsx:395-396 | two id lists overlap exactly when some id is in both |
| TreeVisualization.IsRelatedMeans | family-tree-frontend/src/components/tree/TreeVisualization.tsx:374-401 | `IsRelatedToPerson` (`isRelatedToPerson`): a person is related to itself; two different people are related exactly when both are present and one lists the other as a parent or a child, or they share a parent |
| TreeVisualization.IsRelatedSymmetric | family-tree-frontend/src/components/tree/TreeVisualization.tsx:374-401 | relatedness is symmetric |
| TreeVisualization.Role | family-tree-frontend/src/components/tree/TreeVisualization.tsx:350-359 | "root" at generation 0 or without parents; past that, "parent" with children and "child" without |
| TreeVisualization.ExistingChildren | family-tree-frontend/src/components/tree/TreeVisualization.tsx:341-344 | the children drawn are present people named among the child ids, in the order of the child ids, and every present child id is drawn |
| TreeVisualization.ExistingChildrenExact | family-tree-frontend/src/components/tree/TreeVisualization.tsx:341-344 | the ids of the drawn children are exactly the child ids that resolve, in order and with repeats, and each is drawn as the first record carrying its id |
| TreeVisualization.LookupUnique | family-tree-frontend/src/components/tree/TreeVisualization.tsx:341-344 | with unique ids, `find` returns the very record listed |
| TreeVisualization.ChildExtendsWalk | family-tree-frontend/src/components/tree/TreeVisualization.tsx:341-344 | in acyclic data a child is never already on the path from the root, so the recursion descends |
| TreeVisualization.BuildTreeNode | family-tree-frontend/src/components/tree/TreeVisualization.tsx:340-372 | the node carries the person's name and id, "true" for selected exactly when it is the selection, highlighting exactly when related to the hovered person, the generation and the role; it has children exactly when some child is present; and this holds at every depth (`Drawn`): each child node draws its present child, in order, one generation down, with its own name, selection, highlighting, generation and role, down to the leaves |
| TreeVisualization.BuildChildren | family-tree-frontend/src/components/tree/TreeVisualization.tsx:341-344 | one node per present child, in order, one generation down, each the full drawing of that child and its descendants (`AllDrawn`) |
| TreeVisualization.NodesOfCons | family-tree-frontend/src/components/tree/TreeVisualization.tsx:341-344 | a node for a person put in front of the nodes for a list is the node list for the longer list |
| TreeVisualization.SharedChildUnderBoth | family-tree-frontend/src/components/tree/TreeVisualization.tsx:341-344 | a child of two parents is drawn under each of them |
| TreeVisualization.BuildRoots | family-tree-frontend/src/components/tree/TreeVisualization.tsx:242-247 | one node per root person, in order, at generation 1, each the full drawing of its root's descendants (`RootsDrawn`) |
| TreeVisualization.TreeDataRoots | family-tree-frontend/src/components/tree/TreeVisualization.tsx:223-263 | no tree exactly for no people; without parentless people the first person is the root; a single root is drawn as the root; several roots hang under the virtual root at generation 1; in each case every node below the root is the full drawing of its person (`DrawnFrom`, `RootsDrawn`) |
| TreeVisualization.IndexOf | family-tree-frontend/src/components/tree/TreeVisualization.tsx:138 | `findIndex` gives -1 exactly when no entry has the id, and otherwise the first such index |
| TreeVisualization.NextIndex | family-tree-frontend/src/components/tree/TreeVisualization.tsx:141-145 | the next index is always within the list |
| TreeVisualization.NextIndexWraps | family-tree-frontend/src/components/tree/TreeVisualization.tsx:141-145 | from a real position, right moves one step forward and left one step back, wrapping around |
| TreeVisualization.NavigateVertical | family-tree-frontend/src/components/tree/TreeVisualization.tsx:103-126 | with no selection the first root person is chosen; an unknown selection moves nowhere; up and down go to the first parent or the first child |
| TreeVisualization.SiblingMove | family-tree-frontend/src/components/tree/TreeVisualization.tsx:128-149 | a sibling move steps through the sibling list: as written, the siblings without the current person; corrected, the whole family |
| TreeVisualization.SiblingNavigationIgnoresPosition | family-tree-frontend/src/components/tree/TreeVisualization.tsx:130-145 | as written the current person is never in the sibling list, so left always picks the last sibling and right the first |
| TreeVisualization.SiblingNavigationCounterexample | family-tree-frontend/src/components/tree/TreeVisualization.tsx:130-145 | as written, among three children a, b, c of one parent, right from b selects a and right from a selects b |
| TreeVisualization.CurrentInFamily | family-tree-frontend/src/components/tree/TreeVisualization.tsx:130-138 | a person with parents is in its own family list |
| TreeVisualization.SiblingStepWraps | family-tree-frontend/src/components/tree/TreeVisualization.tsx:138-149 | from a position in the list, a sibling step selects the cyclic neighbour |
| TreeVisualization.SiblingNavigationMovesByOne | family-tree-frontend/src/components/tree/TreeVisualization.tsx:128-149 | corrected, a sibling move selects the current person's cyclic neighbour in the family list |
| TreeVisualization.SiblingNavigationCycles | family-tree-frontend/src/components/tree/TreeVisualization.tsx:128-149 | corrected, right arrow runs a → b → c → a through three children of one parent |
| AddChildModal.AvailableMeans | family-tree-frontend/src/components/forms/AddChildModal.tsx:30-34 | `AvailablePersons` (`availablePersons`): the dialog offers exactly the listed people who are not the parent, not already its child, and have fewer than two parents, in list order |
| AddChildModal.LinkOfferedMeans | family-tree-frontend/src/components/forms/AddChildModal.tsx:69-88 | linking an existing person is offered, and the empty notice withheld, exactly when someone is eligible |
| AddChildModal.OfferedPassesServerChecks | family-tree-frontend/src/components/forms/AddChildModal.tsx:30-34 | with the list in step with a consistent store, the server accepts an offered person or refuses it as circular, and refuses it exactly when the link would close a cycle |
| AddChildModal.AncestorOfferedButRefused | family-tree-frontend/src/components/forms/AddChildModal.tsx:30-34 | the dialog ignores ancestry: a parent's own parent with a free slot is offered and then refused as circular |

## Left out

- Identifier and format checks of the backend schemas are not modelled: uuid ids, email, URI and ISO date formats. Every id is taken as well formed; only lengths, counts and the phone pattern are.
- Generated values and clocks are parameters: `uuidv4()`, `Date.now()`, `Math.random()` and `new Date()`. One `now` stands for all the clock readings of one request. The lemmas `CreateKeepsConsistent`, `InitializeKeepsConsistent` and `FiledRoots` require generated ids to be new and distinct. The route methods themselves do not require this; their consistency clauses are conditional on it.
- Storage I/O errors, thrown exceptions and the 500 responses they become are not modelled. Neither are the directory set-up, the `.json` suffix of file names and the `fileExists` helper.
- Request parsing, HTTP status codes and response message texts are not modelled beyond the error code each branch returns.
- The `TOO_MANY_PARENTS` branch of the create route is kept in `CreateOutcome`, but it is unreachable: the schema's limit of two parents refuses such input first.
- DeletePersonRoute: requires the store to be keyed by id, so that `getAllPersons` plus `getDescendants` find the store's own descendants.
- AddChildRoute: requires the same, for the same reason.
- RemoveChildKeepsConsistent: requires the parent and the child to differ. For a record linked to itself, the second write overwrites the first.
- BuildTreeNode: requires acyclic data with unique ids (`TreeShaped`). On a cycle the source recurses without end, and a model function must terminate.
- TreeDataRoots: requires the same.
- Rendering, layout, zoom, pan, floating-point view state, the D3 tree component and the keyboard event plumbing are not modelled. Navigation is modelled from the selected id onwards.
- Truthiness of arbitrary JavaScript values is abstracted. A person field is an optional string, a form value is an empty or non-empty scalar, and `isEmpty` covers `null`, `undefined`, `''` and `[]`.
- Upper-casing covers ASCII letters only. Unicode case mapping is not modelled.
- The regular expressions of the client rules are modelled as predicates over characters: email, phone, and a name made of letters, digits, whitespace, hyphens, apostrophes and periods. Date parsing and "is in the future" are parameters `isValidDate` and `isFuture`.
- The `setTimeout` of `addError` is returned as the id and delay of a `REMOVE_ERROR`, not run.
- The `ExistingPersonSelector` and other dialog UI, and the API client that posts the link, are not modelled.
- The client's notes limit (500) and the backend's (1000) differ. Each side is modelled with its own limit.
- FormValidation.ValidateField, PersonRoutes.CreateInputValid and PersonRoutes.UpdateInputValid: lengths count characters, while JavaScript's `.length` and Joi's `.min()`/`.max()` count UTF-16 code units. The two differ for characters outside the Basic Multilingual Plane. A first name of 26 emoji has length 52 in the source and is refused by the limit of 50, but the model accepts it.
- ErrorContext.AddErrorAsWritten: the optional `details` record of an `AppError` is not modelled, and neither is its pass-through from the options of `showError`, `showWarning` and `showInfo`. The context stores this caller data unchanged, and none of its operations depends on it.

## Findings

| source | as written | input that shows it | evidently intended | confidence | as-written member | corrected member |
|---|---|---|---|---|---|---|
| family-tree-frontend/src/contexts/ErrorContext.tsx:88-99 | The reducer stores the error under an id it generates at line 35. `addError` generates a second id at line 92, then returns it and schedules its removal. | An error with duration 5000 whose two generated ids differ. They differ whenever the random suffixes do. | One id, used for the stored error, the returned value and the dismissal, so that the notification disappears after its duration. | not executed | ErrorContext.AddErrorAsWritten, ErrorContext.AutoDismissMisses, ErrorContext.ShowInfoStays | ErrorContext.AddErrorWithId, ErrorContext.AutoDismissRemoves, ErrorContext.ShowInfoWithId |
| family-tree-frontend/src/components/tree/TreeVisualization.tsx:130-145 | The sibling list excludes the current person. `findIndex` of the current id is therefore always -1. Left always picks the last sibling and right always picks the first. | Three children a, b, c of one parent, b selected: ArrowRight selects a. With a selected, it selects b, so c is never reached by ArrowRight. | Step to the next or previous member of the whole family list, cyclically. | not executed | TreeVisualization.SiblingNavigationIgnoresPosition, TreeVisualization.SiblingNavigationCounterexample | TreeVisualization.SiblingNavigationMovesByOne, TreeVisualization.SiblingNavigationCycles |
