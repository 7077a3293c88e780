# S2OPC tooling, dictionary and demonstration programs, verified

Dafny models of the parts of S2OPC where state, cycles or bit-level arithmetic make the code hard to get
right, with proofs of what those parts are for. `dafny verify dfyconfig.toml` checks everything.

- **Address space merger** (`scripts/nodeset_address_space_utils.py`): `AddressSpace`, `Namespaces`, `Merge`,
  `Sanitize`, `Subtree`, `SubtreeOrder`, `SubtreeLevels`, `SubtreeSample`, `Unused`, `UnusedKinds`, `UnusedLaws`,
  `BackwardRefs`, `Pipeline`. Files are merged one after another with their namespace indices renumbered; references are made reciprocal; subtrees, orphans and unused types are
  removed from a graph that may have cycles. A tree is a class with a mutable map from NodeId to node. Where
  Python iterates over a set the model takes any order. The set of hierarchical reference types is a parameter.
- **Alarms** (`demo_server_alarms_mgr.c` and the library setters it calls): `Alarms`. The timer tick and the
  client callbacks are the steps of a machine that is compared with the documented state diagram.
- **Argument parser** (`argparse.c`): `ArgParse`, `ArgLaws`, `ArgShape`. The parser compacts the array that it reads; it is
  proved to compute what a parser on lists computes, and that one to follow the usual laws of option syntax, and to
  keep, store and refuse exactly what a reading of the command line by the option table says.
- **Client state machine** (`state_machine.c`): `ClientMachine`, `ClientRounds`. Ownership of the request
  context, the obligation to close the channel, the causes of each state, the rounds that complete and exactly the
  runs that fail.
- **Type generator** (`gen-sopc-types.py`): `TypeGen`, `TypeLists`, `TypeTable`, `TypeResult`. Depth-first declaration
  order, the conditions of the generated lists, what the type table holds, and its agreement with the index
  enumeration, under every set of `OPCUA_EXCLUDE_` macros.
- **DateTime encoder** (`generate-s2opc-address-space.py`): `DateTimes`. Calendar arithmetic, time zones and clamps
  against section 5.2.2.5 of OPC UA Part 6.
- **Dictionary** (`sopc_dict.c`) and its benchmark (`bench_nodeid_dict.c`): `Probing`, `Dictionary`, `NodeIdHash`.
  Quadratic probing, an open-addressing table with tombstones and resizing against a map, a 64-bit mixer and a
  canonical encoding.

A property that the code does not have is stated as it is: a lemma with an input that shows it, and the exact
condition under which the property holds. These are the places where the code and a text about it disagree; the
model follows the code:

- The help text of `--remove-subtrees` keeps descendants "with another ancestry". On one level, only a parent outside
  the table protects a node in every order (`SurvivesEveryOrderIff`, `OtherAncestryMayBeRemoved`). Where all paths to a
  node have the same length the order does not matter and the removed nodes are told from the graph
  (`LevelledRemovalIff`); there a node with another ancestry and a surviving parent can be removed in every order
  (`OtherAncestryAlwaysRemoved`).
- The merger announces that the references of common nodes are merged, but the filter that lists those nodes is
  used up before the loop, so a common node of namespace 0 keeps the references of the base tree (`MergedInto`).
- The help text of `--remove-unused` removes all unused type definitions. A later loop can remove the last use of a
  type of an earlier kind, which then stays (`LeftBehind`); when the kinds are apart none does (`AllKindsNeeded`).
- The same command looks for a type under its NodeId and one alias. It recognises every name of a type if and only if
  the type has at most one alias (`NamesExactIff`).
- A missing comma makes `HasNotifier` and `Aggregates` one string in the set of hierarchical reference types. The
  proofs hold for every set, so for this one too.
- The alarm diagrams leave out the edges back from `Aa+FALSE` and `Ak+FALSE` when the source becomes TRUE again
  (`DiagramNext`). A tick between an Acknowledge and its callback can lose the acknowledgement
  (`TickInsideAcknowledgeIff`).
- A value given with `=` to an option that takes none is used by the next option (`ValueLeftPendingIff`).
- `SOPC_DICT_HASH` does not visit every bucket: its first two attempts coincide (`FirstOffsetsCoincide`). Its even
  attempts are distinct, which is enough below 50% occupation (`FreeAttempt`).
- Inserting a key again when a tombstone precedes it adds a second item for the key (`PlaceUnique`), and a later
  removal brings back the old value (`OldValueReturns`). So does a mere change of the size of the table, when the old
  item is in a lower bucket than the new one (`ResizeFindsOldIff`).
- The canonical NodeId encoding announces a size that is wrong exactly for ids with a null part (`SizeExactIff`). For a
  null String or ByteString it is one byte too small, so that a buffer of the announced 6 bytes, which is what the
  hash functions allocate, is overrun (`AnnouncedSizeTooSmallIff`, `WritesFitIff`).
- The lists of types put each service in a block from its request to its response. When a type that comes earlier has
  a field of the response type, the block ends before it begins and C refuses the lists (`BalancedIff`, `PairedIff`,
  `EarlyResponse`, `ResponseFirst`). When a field of a request type makes two blocks cross, C accepts the lists, but
  excluding one service loses a type outside of it (`CrossedTable`).
- Stopping a session that is still being activated closes the session id of an earlier round, or 0
  (`StopClosesOwnSessionIff`, `EarlierSessionClosed`).
- The DateTime encoder compares without the fraction in the first second of 1601 (`EncodeStandardIff`). It reads three
  forms of text as another instant: 24:00:00 at the end of 9999 east of Greenwich, some hours of year 10000 where it
  does not carry an hour, and years beyond 32 bits, which are all taken for the end of 9999 (`Misread`).

## Model

| member | source | states |
|---|---|---|
| `AddressSpace.Tree.RemoveRefsTo` | scripts/nodeset_address_space_utils.py:306-316 | Every node of the tree loses exactly its references to the given ids, and keeps the others in order. |
| `AddressSpace.PruneTwice` | scripts/nodeset_address_space_utils.py:306-316 | Removing two sets of nodes with the references to them, one after another, is removing their union. |
| `AddressSpace.PruningKeepsReciprocal` | scripts/nodeset_address_space_utils.py:306-316 | Removing nodes together with all references to them keeps forward and inverse references in agreement. |
| `Subtree.RecComputeSubtree` | scripts/nodeset_address_space_utils.py:600-612 | Terminates on cyclic graphs; entries made before the call are untouched, new entries are reachable and list exactly their children, all of which have entries. |
| `Subtree.ComputeSubtree` | scripts/nodeset_address_space_utils.py:600-612 | For an existing root the table has exactly the ids reachable over hierarchical references, each with its exact set of children; for an unknown root it is empty. |
| `Subtree.RemoveLevel` | scripts/nodeset_address_space_utils.py:614-638 | For some enumeration of the siblings the level takes, one after another, the decisions to skip, retain or remove, and removes exactly the nodes decided on. |
| `Subtree.LevelKept` | scripts/nodeset_address_space_utils.py:614-638 | A level keeps the removal consistent in any order: a retained node has a parent that never will be removed, no removed node except the root has a parent outside the subtree, and a level that queues children removed a node. |
| `Subtree.RecRemoveSubtree` | scripts/nodeset_address_space_utils.py:614-638 | Terminates, and over all levels removes only what `SubtreeRemoval` allows: reachable nodes, no child left as an orphan; the levels are a run for some order of each. |
| `Subtree.RemoveSubtree` | scripts/nodeset_address_space_utils.py:640-648 | The tree loses exactly what some run of the levels removes, a set that satisfies `SubtreeRemoval`, with every reference to it; on a reciprocal graph no survivor loses its last parent. |
| `Subtree.NoNewOrphans` | scripts/nodeset_address_space_utils.py:614-648 | On a reciprocal graph, cycles included, a survivor that had a parent still has one. |
| `Subtree.NoOtherAncestryRemoved` | scripts/nodeset_address_space_utils.py:640-648 | On a reciprocal graph everything below the root that has no other ancestry is removed. |
| `Subtree.OutsideParentSurvives` | scripts/nodeset_address_space_utils.py:624-629 | A node other than the root with a parent that is not reachable from the root survives, still with that parent. |
| `SubtreeOrder.SurvivesEveryOrderIff` | scripts/nodeset_address_space_utils.py:618-630 | A sibling survives its level in every iteration order if and only if one of its parents is outside the table when the level starts. |
| `SubtreeOrder.OtherAncestryMayBeRemoved` | scripts/nodeset_address_space_utils.py:1077-1083 | A reciprocal graph where a node with another ancestry is removed in some iteration order, against the help text. |
| `SubtreeLevels.LevelByTable` | scripts/nodeset_address_space_utils.py:618-633 | When no sibling is a parent of another, a level judges each sibling by the table of its start, whatever the order. |
| `SubtreeLevels.LevelledRemovalIff` | scripts/nodeset_address_space_utils.py:614-648 | On a reciprocal graph where all paths from the root to a node have the same length, a node is removed, in any order, if and only if the graph dooms it: level by level, a parent is removed and no parent is outside the subtree or was retained. |
| `SubtreeLevels.OrderIrrelevant` | scripts/nodeset_address_space_utils.py:614-648 | On such a graph two removals in any two orders remove the same nodes. |
| `SubtreeSample.OtherAncestryAlwaysRemoved` | scripts/nodeset_address_space_utils.py:1077-1083 | A reciprocal graph where a node with another ancestry, and with a parent that survives, is removed in every order, against the help text. |
| `Subtree.FindOrphans` | scripts/nodeset_address_space_utils.py:650-659 | Collects exactly the objects and variables without an inverse hierarchical reference. |
| `Subtree.RemoveOrphans` | scripts/nodeset_address_space_utils.py:650-664 | On a reciprocal graph every surviving object or variable, except the five retained ids, has a parent; every lost node was below an object or variable without a parent that is none of the five; nobody loses its last parent. |
| `Unused.GetAliases` | scripts/nodeset_address_space_utils.py:674-677 | Inverts the alias table: every aliased id gets one of its aliases. |
| `Unused.ExistsTypedefRef` | scripts/nodeset_address_space_utils.py:703-718 | Finds a use exactly when an instance other than an instance declaration has the type; otherwise returns exactly the declarations typed by it. |
| `Unused.RemoveType` | scripts/nodeset_address_space_utils.py:766-771 | The type and its instance declarations are gone, everything else that was lost was below them, and nobody lost its last parent. |
| `Unused.Pass` | scripts/nodeset_address_space_utils.py:738-774 | Every removal of a pass is justified by the state it found; a pass that removes nothing leaves every type of the kind needed. |
| `Unused.RemoveUnusedOfKind` | scripts/nodeset_address_space_utils.py:726-774 | The loop terminates because every pass but the last removes a node; at the end each type of the kind is retained, subtyped, or used by something other than an instance declaration, and all removals were justified. |
| `Unused.RunIsPruning` | scripts/nodeset_address_space_utils.py:766-771 | A run of justified removals only takes nodes and references to them, strictly shrinks the tree, and leaves no new orphan. |
| `Unused.RemoveUnused` | scripts/nodeset_address_space_utils.py:720-774 | Runs the four kinds in order, each to its fixpoint, as a record of justified removals from the initial to the final tree; what this means on the tree is told by the `UnusedLaws` below. |
| `UnusedKinds.LostInRun` | scripts/nodeset_address_space_utils.py:726-774 | Every node that the loop of a kind removes was below a type of the kind or below an instance declaration of one. |
| `UnusedKinds.StillNeeded` | scripts/nodeset_address_space_utils.py:738-774 | Types that are all needed stay needed under any removal that takes none of their possible uses. |
| `UnusedKinds.AllKindsNeeded` | scripts/nodeset_address_space_utils.py:1100-1107 | If, in the initial tree, no possible use of a kind is below the types of a later kind, then at the end every type of all four kinds is needed. |
| `UnusedKinds.LeftBehind` | scripts/nodeset_address_space_utils.py:1100-1107 | A reciprocal tree where every run leaves an object type that nothing needs at the end, against the help text. |
| `UnusedKinds.RemoveFromSample` | scripts/nodeset_address_space_utils.py:720-774 | The operation itself, on that tree, ends with the unneeded type. |
| `UnusedLaws.NamesExactIff` | scripts/nodeset_address_space_utils.py:674-677 | The texts that are looked for are all those that resolve to the type if and only if it has at most one alias. |
| `UnusedLaws.RemovedNotRetained` | scripts/nodeset_address_space_utils.py:740-753 | A type that is taken is neither of a namespace 0 to retain nor among the types to retain, and no type of its kind has it as supertype. |
| `UnusedLaws.RemovedDataType` | scripts/nodeset_address_space_utils.py:754-763 | When a data type is taken no variable has it as DataType, under its id or alias. |
| `UnusedLaws.RemovedReferenceType` | scripts/nodeset_address_space_utils.py:754-763 | When a reference type is taken no reference has it as type. |
| `UnusedLaws.RemovedInstanceType` | scripts/nodeset_address_space_utils.py:703-718 | Every instance of an object or variable type that is taken had a modelling rule when the pass began, and is taken with the type. |
| `UnusedLaws.LeftDataType` | scripts/nodeset_address_space_utils.py:738-774 | A data type that is left was to be retained, or has a subtype, or is the DataType of a variable. |
| `UnusedLaws.LeftReferenceType` | scripts/nodeset_address_space_utils.py:738-774 | A reference type that is left was to be retained, or has a subtype, or a reference of that type. |
| `UnusedLaws.LeftObjectType` | scripts/nodeset_address_space_utils.py:738-774 | An object type that is left was to be retained, or has a subtype, or an object without modelling rule that is typed by it. |
| `UnusedLaws.LeftVariableType` | scripts/nodeset_address_space_utils.py:738-774 | The same for a variable type and variables. |
| `UnusedLaws.NothingNamesRemoved` | scripts/nodeset_address_space_utils.py:720-774 | After all four loops, for each type that any of them took: no variable has it as DataType, no reference has its type, no instance is typed by it, no type is derived from it. |
| `Sanitize.CollectNode` | scripts/nodeset_address_space_utils.py:809-845 | Resolves the targets of one node and records exactly its forward references and its inverse references from known nodes, each once. |
| `Sanitize.CollectReferences` | scripts/nodeset_address_space_utils.py:806-845 | All targets are resolved and exactly the stored references are recorded. |
| `Sanitize.AddRef` | scripts/nodeset_address_space_utils.py:275-294 | Appends the reference to its node unless the node has it already; nothing else changes. |
| `Sanitize.AddReciprocals` | scripts/nodeset_address_space_utils.py:847-875 | Exactly the recorded references that are not stored in the other direction and whose node exists are appended, each once. |
| `Sanitize.AdditionsAreMissing` | scripts/nodeset_address_space_utils.py:847-875 | The two rounds of additions are exactly the missing reciprocals of references between known nodes. |
| `Sanitize.DropUnbackedParents` | scripts/nodeset_address_space_utils.py:877-900 | A ParentNodeId remains exactly where the node has an inverse reference to that parent. |
| `Sanitize.OriginalsStay` | scripts/nodeset_address_space_utils.py:684-697 | Every stored reference stays in its place with its type and direction, only its target is resolved; kind and data type stay. |
| `Sanitize.ParentKeptIff` | scripts/nodeset_address_space_utils.py:877-900 | A ParentNodeId stays if and only if the node has an inverse reference from that parent; for a parent in the tree, if and only if the parent refers to the node. |
| `Sanitize.SanitizeTree` | scripts/nodeset_address_space_utils.py:776-910 | Each node keeps its resolved references in order, followed by exactly the missing reciprocals, each once; every remaining ParentNodeId is backed by a reference. Aliases of aliases are resolved once. |
| `Sanitize.SanitizedReciprocal` | scripts/nodeset_address_space_utils.py:793-804 | Between known nodes a forward reference is stored if and only if its inverse is. |
| `Sanitize.SanitizedLeast` | scripts/nodeset_address_space_utils.py:847-875 | Every reciprocal tree that has the original references has all those of the sanitized tree. |
| `Sanitize.SanitizeTwice` | scripts/nodeset_address_space_utils.py:776-910 | Sanitizing a sanitized tree changes nothing, not even the order of references. |
| `BackwardRefs.AllRetainValues` | scripts/nodeset_address_space_utils.py:955-964 | The retained types and other names of them, nothing else; an alias of each retained type that has one. |
| `BackwardRefs.RemoveBackwardRefs` | scripts/nodeset_address_space_utils.py:966-980 | Exactly the inverse references of types that are not retained are dropped; HasSubtype is always retained. |
| `BackwardRefs.DropBackwardKeeps` | scripts/nodeset_address_space_utils.py:966-980 | Forward references and those of the types to retain stay; an inverse reference stays only if its type is one of them, under its id or an alias. |
| `BackwardRefs.DropThenSanitizeRestoresIff` | scripts/nodeset_address_space_utils.py:776-875 | Dropping backward references of a reciprocal tree and sanitizing again gives back the same references, whatever is retained, if and only if every dropped reference comes from a known node. |
| `Pipeline.IndexNodes` | scripts/nodeset_address_space_utils.py:781-791 | The check succeeds if and only if no NodeId is found twice; then every element is indexed under its id. |
| `Pipeline.Apply` | scripts/nodeset_address_space_utils.py:1024-1032 | Each removal command keeps references reciprocal, creates no orphan, and takes away only what the command may and must take. |
| `Pipeline.ApplyAll` | scripts/nodeset_address_space_utils.py:1024-1032 | Any sequence of removals keeps references reciprocal, leaves no reference to a removed node, and orphans removed once never come back. |
| `Pipeline.Run` | scripts/nodeset_address_space_utils.py:1019-1035 | The run after merging: a sanitized tree, then the requested removals in order, each within its scope, reciprocal and without new orphans, then the removal of backward references. |
| `Pipeline.AskedIsDone` | scripts/nodeset_address_space_utils.py:1019-1035 | At the end every root that was named is gone; the removal of unused types came last, with the options given, on a tree without orphans; without any request the output is the sanitized tree. |
| `Pipeline.KeptToTheEnd` | scripts/nodeset_address_space_utils.py:1031-1035 | Forward references and inverse ones of HasSubtype or of a type to retain are in the output. |
| `Pipeline.RunMerge` | scripts/nodeset_address_space_utils.py:987-1042 | From the files to the tree that is written: the first refused file with its reason, or a tree with an id twice (only a single file), or a document that represents all files and has no other source, indexed, sanitized and reduced as asked. |
| `Namespaces.IndexUris` | scripts/nodeset_address_space_utils.py:163-169 | Every URI of the tree is mapped to its position, counted from 1. |
| `Namespaces.ComputeReassignment` | scripts/nodeset_address_space_utils.py:152-185 | The merged URI list stays free of duplicates and gains exactly the URIs that were missing; every index of the new file is sent to the index of the same URI. |
| `Namespaces.RenumberKeepsMeaning` | scripts/nodeset_address_space_utils.py:212-228 | A renumbered id names the same URI and text as in its own file, and namespace 0 stays namespace 0. |
| `Namespaces.RenumberInjective` | scripts/nodeset_address_space_utils.py:212-228 | Renumbering never makes two declared ids equal, even when indices are swapped or permuted in a cycle. |
| `Namespaces.MeaningStable` | scripts/nodeset_address_space_utils.py:360-361 | Appending URIs does not change what the ids already in the tree mean. |
| `Merge.RenumberElementSame` | scripts/nodeset_address_space_utils.py:190-210 | After renumbering, every id of a node element (id, browse name, parent, data type, method declaration, type ids, references) means what it meant in its file. |
| `Merge.MergeAliases` | scripts/nodeset_address_space_utils.py:405-430 | Fails, changing nothing, exactly when the tables give an alias two values; otherwise adds the new aliases and keeps the old ones. |
| `Merge.BaseIds` | scripts/nodeset_address_space_utils.py:433-442 | Reports a duplicate exactly when two elements of the base tree have the same id. |
| `Merge.SplitMergedNodes` | scripts/nodeset_address_space_utils.py:432-467 | Refuses exactly on duplicates in the base tree, duplicates of a new id within the file, or a shared id outside namespace 0; otherwise returns the elements with new ids. |
| `Merge.MergeNodes` | scripts/nodeset_address_space_utils.py:469-479 | The base elements stay in front, unchanged, followed by exactly the new ones, each once. |
| `Merge.WellDeclaredIff` | scripts/nodeset_address_space_utils.py:322-344 | For a file whose references are declared, the check passes if and only if, as a tree, it has distinct URIs and declares the namespace of every id it uses. |
| `Merge.ConflictIff` | scripts/nodeset_address_space_utils.py:405-430 | Whatever the renumbering, the alias tables conflict if and only if some alias stands for ids of different URI or text in the tree and in the file. |
| `Merge.DuplicatesIff` | scripts/nodeset_address_space_utils.py:432-467 | Whatever the renumbering, ids collide if and only if an id is twice in the tree, or twice in the file and not in the tree, or in both and outside namespace 0, where ids are compared by URI and text. |
| `Merge.RenumberedIdsDistinct` | scripts/nodeset_address_space_utils.py:432-467 | Distinct ids of a file stay distinct after renumbering, so a collision is never caused by renaming. |
| `Merge.MergeCorrect` | scripts/nodeset_address_space_utils.py:493-538 | A merge that is not refused leaves unique ids: those of the base and the renumbered new ones, shared only in namespace 0, and each element of the file is represented by one that means the same. |
| `Merge.MergeKeepsRepresented` | scripts/nodeset_address_space_utils.py:493-538 | What an earlier file said is still said, with the same meaning, after merging a later one. |
| `Merge.RunKeepsMeaning` | scripts/nodeset_address_space_utils.py:493-538 | After any number of merges the document says what every file said and nothing else, and the URI list of every stage is a prefix of the last one. |
| `Merge.Merger.constructor` | scripts/nodeset_address_space_utils.py:505-518 | The first file becomes the tree, with entry k of NamespaceArray the URI of namespace k; the tree is consistent if the file declares its indices. |
| `Merge.Merger.MergeNamespaces` | scripts/nodeset_address_space_utils.py:346-362 | The URI list grows by exactly the new URIs, indices translate to the same URIs, and NamespaceArray[k] is the URI of namespace k; also for a file without NamespaceUris. |
| `Merge.Merger.MergeFile` | scripts/nodeset_address_space_utils.py:493-538 | A file is refused if and only if it uses an undeclared namespace, or an alias stands for another id, or an id collides, all told by URIs and texts without the renumbering; each refusal has its reason and leaves the elements alone; a success is a correct merge. |
| `Merge.MergeAll` | scripts/nodeset_address_space_utils.py:987-1001 | Files are merged until the first that is refused, whose number and reason are told and whose predecessors are correctly merged; without a refusal the tree represents every file and has no other source. |
| `Alarms.AlarmInstance.SetActiveState` | src/ClientServer/frontend/server_wrapper/alarm_conditions/internal/libs2opc_internal_alarm_conditions.c:2436-2493 | Activation needs an enabled alarm and clears AckedState; a state that does not change has no effect. |
| `Alarms.AlarmInstance.SetConfirmableState` | src/ClientServer/frontend/server_wrapper/alarm_conditions/internal/libs2opc_internal_alarm_conditions.c:2270-2320 | Confirmable clears ConfirmedState of an enabled alarm, not confirmable sets it. |
| `Alarms.SettersObeyEnabled` | src/ClientServer/frontend/server_wrapper/alarm_conditions/internal/libs2opc_internal_alarm_conditions.c:2270-2493 | A disabled alarm does not become active or confirmable and keeps Retain, an enabled one takes every value, and only becoming active clears AckedState. |
| `Alarms.EquipmentWithAlarm.UpdateConditionSource` | samples/ClientServer/demo_server_alarms/demo_server_alarms_mgr.c:719-827 | The tick, assignment by assignment, is the tick step of the machine. |
| `Alarms.EquipmentWithAlarm.AckedStateChanged` | samples/ClientServer/demo_server_alarms/demo_server_alarms_mgr.c:447-494 | The callback after Acknowledge is the acknowledge part of the step. |
| `Alarms.EquipmentWithAlarm.ConfirmedStateChanged` | samples/ClientServer/demo_server_alarms/demo_server_alarms_mgr.c:496-520 | The callback after Confirm is the confirm part of the step. |
| `Alarms.EquipmentWithAlarm.EnabledStateChanged` | samples/ClientServer/demo_server_alarms/demo_server_alarms_mgr.c:364-411 | The callback after Enable or Disable is the enable or disable part of the step. |
| `Alarms.EquipmentWithAlarm.Call` | samples/ClientServer/demo_server_alarms/demo_server_alarms_mgr.c:364-520 | A client call is refused, or changes the state and runs its callback, as one step of the machine. |
| `Alarms.StepFollowsDiagram` | samples/ClientServer/demo_server_alarms/toolkit_demo_server_alarms.c:22-75 | Every step of an enabled alarm other than Disable is an edge of the diagram of its kind. |
| `Alarms.RunConsistent` | samples/ClientServer/demo_server_alarms/demo_server_alarms_mgr.c:364-520 | In every run, Disable included, an alarm is disabled and reset or in one state of its diagram, and Retain holds if and only if it is active. |
| `Alarms.RunExact` | samples/ClientServer/demo_server_alarms/demo_server_alarms_mgr.c:364-827 | After every run, Disable and Enable included, all variables and the Message are those of the diagram extended by a disabled state. |
| `Alarms.SourceIsParity` | samples/ClientServer/demo_server_alarms/demo_server_alarms_mgr.c:719-733 | After any run the condition source is TRUE if and only if the number of ticks is odd. |
| `Alarms.RunFollowsDiagram` | samples/ClientServer/demo_server_alarms/toolkit_demo_server_alarms.c:22-75 | A run without Disable is the run of the diagram, and Message names the state at every point. |
| `Alarms.TickRestoresMessage` | samples/ClientServer/demo_server_alarms/demo_server_alarms_mgr.c:719-827 | After a Disable and Enable the Message names the state again from the first tick on. |
| `Alarms.MessageStaleAfterDisable` | samples/ClientServer/demo_server_alarms/demo_server_alarms_mgr.c:364-411 | A run with Disable where Message names a state the alarm is not in. |
| `Alarms.ActiveAckedWasAcknowledged` | samples/ClientServer/demo_server_alarms/demo_server_alarms_mgr.c:447-494 | In every run an active and acknowledged alarm was acknowledged by a client since its last activation. |
| `Alarms.InactiveOnlyAfterAcknowledge` | samples/ClientServer/demo_server_alarms/demo_server_alarms_mgr.c:429-520 | Unless disabled, an alarm becomes inactive only with the source FALSE, after an Acknowledge since its last activation and, with a confirmation step, by a Confirm. |
| `Alarms.TickInsideConfirm` | samples/ClientServer/demo_server_alarms/demo_server_alarms_mgr.c:758-763 | A tick between a Confirm and its callback has the effect of a tick after both. |
| `Alarms.TickInsideAcknowledgeIff` | samples/ClientServer/demo_server_alarms/demo_server_alarms_mgr.c:758-763 | A tick between an Acknowledge and its callback leaves a Message that names the state if and only if the alarm has no confirmation step or the source was TRUE. |
| `Alarms.AcknowledgementLost` | samples/ClientServer/demo_server_alarms/demo_server_alarms_mgr.c:758-763 | In the failing case the alarm is active and unacknowledged again while Message claims the opposite. |
| `ArgShape.ParsedExactly` | samples/ClientServer/demo_client/argparse.c:272-359 | For every command line and table: the program ends if and only if an option is unknown, lacks a text, has one that cannot be read, or has a callback that fails; otherwise the output is exactly the arguments that are neither options nor their values, followed by those behind the place where parsing stops, and the updates are those of the options in order, each with its entry, direction and text. |
| `ArgShape.OptionHappened` | samples/ClientServer/demo_client/argparse.c:76-253 | An option succeeds if and only if the table handles it; it takes the next argument exactly when its entry takes a text and none is attached or left over. |
| `ArgShape.SplittingStops` | samples/ClientServer/demo_client/argparse.c:280-352 | Parsing stops at the end, behind `--`, or, when asked for, at the first argument without a dash; what is kept before has no dash in front or is a single dash. |
| `ArgShape.PlainKept` | samples/ClientServer/demo_client/argparse.c:280-292 | Arguments without a dash in front, and single dashes, are all kept, whatever the table. |
| `ArgShape.LongEntryIs` | samples/ClientServer/demo_client/argparse.c:212-253 | A long option names the first entry whose long name it spells, alone, with `=`, or negated by `no-` for a flag that allows it. |
| `ArgShape.FirstShortIs` | samples/ClientServer/demo_client/argparse.c:199-210 | A short option names the first entry with its letter. |
| `ArgParse.ValueLeftPendingIff` | samples/ClientServer/demo_client/argparse.c:76-176 | A value given with `=` is still pending after an option if and only if the option does not take a text. |
| `ArgParse.ValueTakenByNextOption` | samples/ClientServer/demo_client/argparse.c:212-253 | A command line where the value of a flag ends up as the value of the next option. |
| `ArgLaws.ClusterSplits` | samples/ClientServer/demo_client/argparse.c:293-325 | For every table and every rest of the command line, `-xyz` is parsed as `-x -yz` when x takes no text. |
| `ArgLaws.ShortTextAttached` | samples/ClientServer/demo_client/argparse.c:199-210 | `-xtext` is parsed as `-x text` when x takes a text. |
| `ArgLaws.LongTextAttached` | samples/ClientServer/demo_client/argparse.c:212-253 | `--name=text` is parsed as `--name text` when the option takes a text and no value is left over. |
| `ArgParse.Parser.StoreTextInPlace` | samples/ClientServer/demo_client/argparse.c:107-166 | Takes the pending text or the next argument, without touching a slot that is still to be read. |
| `ArgParse.Parser.GetValueInPlace` | samples/ClientServer/demo_client/argparse.c:76-176 | Handles the value of an option as the parser on lists does. |
| `ArgParse.Parser.ShortOpt` | samples/ClientServer/demo_client/argparse.c:199-210 | Handles one short option of a cluster as the parser on lists does. |
| `ArgParse.Parser.LongOpt` | samples/ClientServer/demo_client/argparse.c:212-253 | Handles a long option, negated or with a value, as the parser on lists does. |
| `ArgParse.Parser.ShortOpts` | samples/ClientServer/demo_client/argparse.c:293-325 | The loop over a cluster of short options ends and agrees with the parser on lists. |
| `ArgParse.Parser.MoveTail` | samples/ClientServer/demo_client/argparse.c:354-358 | The unread arguments move behind those at the front, overlapping or not, and the terminator stays in bounds. |
| `ArgParse.Parser.ReadArguments` | samples/ClientServer/demo_client/argparse.c:280-352 | The main loop ends, writes only slots that were read, and tracks the parser on lists. |
| `ArgParse.Parser.ParseInPlace` | samples/ClientServer/demo_client/argparse.c:272-359 | For at least one argument: when the parser returns, the front of the array is exactly the output of the parser on lists, then comes NULL, no slot behind it was written, and the variables got the same updates. |
| `ClientMachine.StateMachine.ActivateSession` | samples/ClientServer/demo_client/state_machine.c:146-193 | Starting a session is the start step of the machine. |
| `ClientMachine.StateMachine.Stop` | samples/ClientServer/demo_client/state_machine.c:242-274 | Stopping a session is the stop step of the machine, with the session id that is handed over to be closed. |
| `ClientMachine.StateMachine.Start` | samples/ClientServer/demo_client/state_machine.c:276-349 | A discovery or register start, with every failure of creation, allocation and sending, is the start step of the machine. |
| `ClientMachine.StateMachine.EventDispatcher` | samples/ClientServer/demo_client/state_machine.c:701-891 | Exactly the events meant for the machine are processed; state, context and channel closes are those of the dispatch step. |
| `ClientMachine.StepKeepsOwned` | samples/ClientServer/demo_client/state_machine.c:276-426 | Every step keeps the ownership of the request context, fills only an empty slot, and does not leave the error state. |
| `ClientMachine.RunKeepsOwned` | samples/ClientServer/demo_client/state_machine.c:491-572 | In every run the context is non-null only while a request is pending or after an error, always while one is pending, and each allocation is freed once or is the current one. |
| `ClientMachine.ErrorIsFinal` | samples/ClientServer/demo_client/state_machine.c:701-891 | No run leaves the error state. |
| `ClientMachine.ClosesWhileAway` | samples/ClientServer/demo_client/state_machine.c:868-886 | Away from the configured state at most one channel close is issued, exactly on entering the closing state. |
| `ClientMachine.OneClosePerRound` | samples/ClientServer/demo_client/state_machine.c:701-891 | Between any start and the next return to the configured state exactly one channel close is issued. |
| `ClientMachine.CausedWhileAway` | samples/ClientServer/demo_client/state_machine.c:701-891 | In every run the state since the last start is explained by it: activated by an activation event whose session id is kept, discovering with the context that was sent, closing a session only after a stop. |
| `ClientMachine.RoundEnds` | samples/ClientServer/demo_client/state_machine.c:701-891 | The machine returns to the configured state only by the close of its own channel, after the answer to the very request it started or the close of the session that was stopped. |
| `ClientMachine.StopClosesOwnSessionIff` | samples/ClientServer/demo_client/state_machine.c:242-274 | The first stop of a round closes a session that was activated in the round if and only if the machine is activated; otherwise the id left from before the round is closed. |
| `ClientMachine.EarlierSessionClosed` | samples/ClientServer/demo_client/state_machine.c:242-274 | Two rounds where the second, stopped while activating, closes the session of the first again. |
| `ClientRounds.RequestRound` | samples/ClientServer/demo_client/state_machine.c:276-426 | From every configured machine without context: a request that is sent, its answer and the close of the channel lead through the closing state back to the same machine, with one allocation, one free and one channel close more, whatever events for others come in between. |
| `ClientRounds.SessionOpens` | samples/ClientServer/demo_client/state_machine.c:146-193 | A session that is started and activated stays activated, with its id, through any number of responses. |
| `ClientRounds.SessionEnds` | samples/ClientServer/demo_client/state_machine.c:242-274 | An activated session that is stopped hands over its id once and, whatever comes before it is closed, leads through the closing state to the configured one with one channel close. |
| `ClientRounds.SessionRound` | samples/ClientServer/demo_client/state_machine.c:701-891 | The whole round, as one statement on the machine before and after. |
| `ClientRounds.EventChangesNothingIff` | samples/ClientServer/demo_client/state_machine.c:701-891 | Exactly the events that leave the machine as it is. |
| `ClientRounds.RunFailsIff` | samples/ClientServer/demo_client/state_machine.c:701-891 | A run is in the error state if and only if one of its operations was out of place: a start or stop in the wrong state or without success, or an event for the machine that its state does not wait for. |
| `ClientRounds.FailedStartFrees` | samples/ClientServer/demo_client/state_machine.c:276-349 | A start that fails leaves no request context behind. |
| `ClientRounds.EventFreesIff` | samples/ClientServer/demo_client/state_machine.c:868-878 | The request context is freed by an event if and only if the event is for this machine and carries the context. |
| `TypeGen.Generator.GenHeaderType` | scripts/gen-sopc-types.py:334-358 | Terminates for acyclic schemas; each declared type comes after the types it needs, once; it fails only if the type needs, directly or not, a type without definition. |
| `TypeGen.Generator.GenFields` | scripts/gen-sopc-types.py:543-572 | After the fields every needed type is declared and the structure itself is not yet; all new types are reached from it. |
| `TypeGen.Generator.GenHeaderPair` | scripts/gen-sopc-types.py:316-332 | Declares what a request needs, the request, what its response needs and the response, in this order, and records the block from one to the other. |
| `TypeGen.Generator.GenHeaderTypes` | scripts/gen-sopc-types.py:360-377 | Fails if and only if a requested type cannot be resolved; otherwise all requested types, and only types they reach, are declared once, each after the types it needs, name after name of the schema. If no type has a field of a response type, every block begins before it ends and C accepts the lists. |
| `TypeGen.EarlyResponse` | scripts/gen-sopc-types.py:360-377 | For every schema: if some first names reach a response and not its request, the block of the service ends before it begins. |
| `TypeGen.NeededResponse` | scripts/gen-sopc-types.py:316-332 | So it does when the request needs its own response, directly or not. |
| `TypeGen.DeclaredDefined` | scripts/gen-sopc-types.py:705-712 | A declared type never reaches a type without definition. |
| `TypeLists.GenTypes` | scripts/gen-sopc-types.py:799-814 | The writer emits, for each type in order, its conditions and its entry. |
| `TypeLists.ListItems` | scripts/gen-sopc-types.py:799-814 | The entries of the emitted list are exactly the encodeable types, in order. |
| `TypeGen.TypeIndexIsTablePosition` | scripts/gen-sopc-types.py:379-392 | Under every set of excluded types C accepts both lists if and only if their conditions are balanced; then the index of each remaining type is its position in the table, and the size of the enumeration is the size of the table. |
| `TypeTable.TableHolds` | scripts/gen-sopc-types.py:799-814 | When blocks begin before they end and do not cross, then for every set of excluded names the table holds exactly the types that are not excluded and in no excluded block, in order. |
| `TypeTable.CrossedTable` | scripts/gen-sopc-types.py:799-814 | For every two blocks that cross: excluding the first loses a type behind it, excluding the second keeps a type inside it. |
| `TypeResult.RequestedIff` | scripts/gen-sopc-types.py:360-377 | The generator is asked for exactly the listed names that are not skipped and are no responses, and the defined responses of listed requests. |
| `TypeResult.GeneratedBlocksApart` | scripts/gen-sopc-types.py:316-377 | When no field has a request or response type, the generated blocks do not cross. |
| `TypeResult.GenerateTable` | scripts/gen-sopc-types.py:360-392 | From such a schema to the compiled table, for every set of excluded names. |
| `TypeLists.BalancedIff` | scripts/gen-sopc-types.py:799-814 | C accepts a list if and only if it ends as many blocks as it begins and no prefix ends more. |
| `TypeLists.PairedIff` | scripts/gen-sopc-types.py:799-814 | Every block begins before it ends, and ends, if and only if each request comes before its response in the list of types. |
| `TypeLists.PairedBalanced` | scripts/gen-sopc-types.py:799-814 | Then C accepts the list. |
| `TypeLists.CrossedBlocks` | scripts/gen-sopc-types.py:799-814 | Two blocks where C accepts a list although one of them ends before it begins: counting conditions is not pairing them. |
| `TypeGen.ResponseFirst` | scripts/gen-sopc-types.py:316-332 | A schema, with a field of a response type, for which the generator makes lists that C refuses. |
| `TypeGen.StructuresDistinct` | scripts/gen-sopc-types.py:493-501 | The encodeable types are the declared structures, each once. |
| `DateTimes.OrdinalOfNext` | scripts/generate-s2opc-address-space.py:1379-1380 | The day numbers used for dates count the days of the calendar one by one, from day 1 of year 1, over months, years and leap years. |
| `DateTimes.LateYears` | scripts/generate-s2opc-address-space.py:1384-1403 | Past year 9999 an instant is beyond the clamp unless UTC is still in 9999. |
| `DateTimes.OffsetTakenOff` | scripts/generate-s2opc-address-space.py:1388-1400 | Subtracting the offset hour by hour and minute by minute is exact if and only if no hour has to be carried. |
| `DateTimes.OffsetLimit` | scripts/generate-s2opc-address-space.py:1376-1378 | A valid date and time is accepted with offsets up to 14 hours and no others. |
| `DateTimes.ParseXmlDatetime` | scripts/generate-s2opc-address-space.py:1337-1411 | Accepts exactly the described texts; a valid date and time of any year and offset is read as the same instant, up to the clamps, if and only if it is not one of three special forms, years beyond 32 bits included. |
| `DateTimes.Encode` | scripts/generate-s2opc-address-space.py:1416-1431 | The encoding is within a signed 64-bit integer, and between the clamps lies in the second it encodes. |
| `DateTimes.EncodeStandardIff` | scripts/generate-s2opc-address-space.py:1416-1431 | The encoding is the standard's number of 100 ns with its clamps, if and only if the instant is not within the first second of 1601 with at least 100 ns. |
| `DateTimes.FirstSecondDiffers` | scripts/generate-s2opc-address-space.py:1416-1420 | Half a second after the start of 1601 is encoded as 0. |
| `DateTimes.EncodeMonotone` | scripts/generate-s2opc-address-space.py:1413-1431 | A later instant never has a smaller encoding, whatever the offsets it was given with. |
| `DateTimes.EncodeInjective` | scripts/generate-s2opc-address-space.py:1416-1431 | Two seconds have the same encoding if and only if they are the same up to the clamps. |
| `DateTimes.GenerateDatetime` | scripts/generate-s2opc-address-space.py:1413-1431 | From text to number: in range whenever accepted, and the standard's encoding of the instant if and only if the text is not misread and not in the first second of 1601. |
| `DateTimes.MisreadExamples` | scripts/generate-s2opc-address-space.py:1381-1403 | Two valid texts, around the end of 9999, that are read as another instant. |
| `DateTimes.HugeYearExamples` | scripts/generate-s2opc-address-space.py:1381-1383 | The first years beyond 32 bits: valid texts, misread, with the encodings that the standard gives them. |
| `Probing.FirstOffsetsCoincide` | src/Common/helpers/sopc_dict.h:32-38 | The first two attempts of every key look at the same bucket. |
| `Probing.SomeBucketNeverTried` | src/Common/helpers/sopc_dict.h:32-38 | In a table of the initial size some buckets are never tried. |
| `Probing.EvenAttemptsDiffer` | src/Common/helpers/sopc_dict.h:32-38 | In a table whose size is a power of two, different even attempts below twice the size look at different buckets. |
| `Probing.FreeAttempt` | src/Common/helpers/sopc_dict.h:32-38 | With k buckets in use, up to half of the table, one of the first 2k + 1 attempts finds a free bucket. |
| `Probing.WrapAroundHarmless` | src/Common/helpers/sopc_dict.h:32-38 | The 64-bit overflow of hash plus offset does not change the bucket. |
| `Probing.MinimumSize` | samples/ClientServer/benchmarks/bench_nodeid_dict.c:639-649 | Returns the least power of two that is at least the start size and twice the number of items. |
| `Probing.ComputeProbeStats` | samples/ClientServer/benchmarks/bench_nodeid_dict.c:651-711 | The simulation never saturates: key k finds k buckets in use, needs at most 2k + 1 attempts and takes a free bucket; maximum and sum are those of the attempts. |
| `Dictionary.LookupExact` | src/Common/helpers/sopc_dict.c:305-354 | Without duplicates the search finds a value if and only if the table holds the pair, wherever it is. |
| `Dictionary.PlaceExists` | src/Common/helpers/sopc_dict.c:81-112 | With fewer items than half of the buckets an insertion always finds a bucket: its assertion never fails. |
| `Dictionary.PlaceReached` | src/Common/helpers/sopc_dict.c:81-112 | An insertion keeps every item reachable by its own attempts before an empty bucket. |
| `Dictionary.PlaceUnique` | src/Common/helpers/sopc_dict.c:81-112 | An insertion keeps keys unique if and only if it is not the case that, among the attempts of the key before any empty bucket, a removed item precedes the first item of the key. |
| `Dictionary.ShadowedIff` | src/Common/helpers/sopc_dict.c:81-112 | That condition on the table holds if and only if the key is found while its insertion takes another, free bucket. |
| `Dictionary.InsertedHolds` | src/Common/helpers/sopc_dict.c:288-303 | Insertion of a key that is not shadowed is the update of a map. |
| `Dictionary.InsertedFound` | src/Common/helpers/sopc_dict.c:288-303 | A key just inserted is found with its new value, duplicates or not. |
| `Dictionary.OldValueReturns` | src/Common/helpers/sopc_dict.c:372-392 | For every shadowed key: inserting it and removing it again brings back the value it had before. |
| `Dictionary.ShadowedAfterRemoval` | src/Common/helpers/sopc_dict.c:372-392 | Two keys with one hash lead there: insert both, remove the first. |
| `Dictionary.OldValueRun` | src/Common/helpers/sopc_dict.c:288-392 | On the dictionary itself: insert two keys with one hash, remove the first, replace the second, remove it, and its first value is found. |
| `Dictionary.NeverShadowed` | src/Common/helpers/sopc_dict.c:305-338 | Without removed items no key is shadowed, so never when removal is not used. |
| `Dictionary.RemovedHolds` | src/Common/helpers/sopc_dict.c:372-392 | Removal from a table without duplicates is the removal from a map. |
| `Dictionary.Dict.constructor` | src/Common/helpers/sopc_dict.c:165-206 | A new dictionary is valid and holds nothing. |
| `Dictionary.Dict.Get` | src/Common/helpers/sopc_dict.c:340-354 | Returns the value of the key; without duplicates exactly the one that the table holds. |
| `Dictionary.Dict.InsertItem` | src/Common/helpers/sopc_dict.c:81-112 | Stores the item in the first bucket of its attempts that is free or, when overwriting, has the key. |
| `Dictionary.Dict.Resize` | src/Common/helpers/sopc_dict.c:114-163 | Without memory nothing changes; otherwise the new table holds exactly the same items, reachable, unique if they were, and no removed ones; of several items of a key it finds the one that was in the lowest bucket. |
| `Dictionary.ResizeFindsOldIff` | src/Common/helpers/sopc_dict.c:114-163 | After the insertion of a shadowed key, a resize finds the old value, without any removal, if and only if the old item is in a lower bucket than the new one. |
| `Dictionary.ResizeExample` | src/Common/helpers/sopc_dict.c:81-163 | A key with hash 15 in 16 buckets, behind a removed item: found in bucket 2, inserted in bucket 15. |
| `Dictionary.Dict.Reserve` | src/Common/helpers/sopc_dict.c:249-256 | Room for the given number of items at half occupation, with the same items. |
| `Dictionary.Dict.MaybeResize` | src/Common/helpers/sopc_dict.c:267-286 | Resizes only when half of the table would be busy before an insertion, or less than two fifths are items after a removal, and another size fits; afterwards an insertion has room at half occupation and a table above the initial size is neither too sparse nor too large for its items. |
| `Dictionary.Dict.Insert` | src/Common/helpers/sopc_dict.c:288-303 | Succeeds exactly for a key that is not reserved when memory suffices; the key is found; without duplicates it is a map update, and keys stay unique if and only if the key is not shadowed or the table is resized. |
| `Dictionary.Dict.Remove` | src/Common/helpers/sopc_dict.c:372-392 | Without duplicates it is the removal from a map, through tombstones and shrinking. |
| `NodeIdHash.FoldHighTwice` | samples/ClientServer/benchmarks/bench_nodeid_dict.c:300-308 | Folding the high bits of a word into the low ones is its own inverse. |
| `NodeIdHash.FactorsCancel` | samples/ClientServer/benchmarks/bench_nodeid_dict.c:300-308 | Multiplication by each factor of the mixer modulo 2^64 is undone by its inverse. |
| `NodeIdHash.Mix64Bijective` | samples/ClientServer/benchmarks/bench_nodeid_dict.c:300-308 | The mixer is a bijection on 64-bit words, with an explicit inverse on both sides. |
| `NodeIdHash.NumericHashInjective` | samples/ClientServer/benchmarks/bench_nodeid_dict.c:310-321 | Distinct numeric NodeIds never have the same hash. |
| `NodeIdHash.SizeExactIff` | samples/ClientServer/benchmarks/bench_nodeid_dict.c:135-157 | The announced size is the number of bytes of the encoding if and only if no part of the id is null. |
| `NodeIdHash.WritesFitIff` | samples/ClientServer/benchmarks/bench_nodeid_dict.c:159-210 | What the encoder writes fits in every buffer that it accepts, except, exactly, a null text in 6 bytes. |
| `NodeIdHash.AnnouncedSizeTooSmallIff` | samples/ClientServer/benchmarks/bench_nodeid_dict.c:212-234 | A buffer of the announced size is too small if and only if the id is a null String or ByteString. |
| `NodeIdHash.NullTextExample` | samples/ClientServer/benchmarks/bench_nodeid_dict.c:135-157 | The null string: size 6 is announced and 7 bytes are written. |
| `NodeIdHash.Append` | samples/ClientServer/benchmarks/bench_nodeid_dict.c:121-133 | Writes the data at the offset, advances it, and touches nothing else. |
| `NodeIdHash.CanonicalEncode` | samples/ClientServer/benchmarks/bench_nodeid_dict.c:159-210 | Succeeds exactly when the buffer has the announced size; then it holds the encoding and nothing behind the written bytes is changed. Null parts are included. |
| `NodeIdHash.RoundTrip` | samples/ClientServer/benchmarks/bench_nodeid_dict.c:159-210 | The encoding of every valid NodeId, null parts included, can be decoded to the NodeId. |
| `NodeIdHash.EncodeInjective` | samples/ClientServer/benchmarks/bench_nodeid_dict.c:159-210 | Different NodeIds have different encodings. |

## Left out

- XML reading and writing, XPath, printing and command lines of the scripts: input and output only. A tree starts as a graph; the order of elements in the document is not kept, except for the references of a node and the elements of a merge.
- `remove_max_monit`, `remove_methods`, `remove_max_node_mgt`, `enable_diag_flag`, `remove_node_ids_greater_than` and `--no-sanitize`: fixed edits, easy members only.
- `__merge_models` and `__merge_server_array`: version comparison and diagnostics.
- Texts of NodeIds: ids are normalised (no `ns=0;`) and trimmed; reference types are compared as texts, as in the source.
- Merge.MergeFile: takes it that the namespace indices of references and reference types are declared, because the check of the source searches them from the root and finds none.
- Merge.MergeNodes: does not model that new elements are appended in sorted order.
- Sanitize.SanitizeTree: takes it that no alias is the text of a NodeId of the tree. `SanitizeTwice` also takes it that no alias stands for another alias, which the source resolves only once.
- SubtreeLevels.LevelledRemovalIff: for graphs with paths of different lengths to a node the survivors depend on the order, and the conditions proved are one-sided: `OutsideParentSurvives` and `NoOtherAncestryRemoved`.
- Pipeline.RunMerge: takes it that ids have an equals sign and aliases none, so that they are apart.
- UnusedKinds.AllKindsNeeded: the condition is enough and not necessary; it does not follow which of the possible uses a later loop really removes.
- Unused.Pass: treats the list of instance declarations as empty for data types and reference types, where the source has a stale variable; elements missed by an iteration over a tree that shrinks are any elements.
- Alarms: reads of server variables, events and mutexes are not modelled; a step is atomic except where `TickInsideConfirm` and `TickInsideAcknowledgeIff` split it.
- ArgParse.Parser.ParseInPlace: strtol, strtof and the C values of variables are not modelled; an update names the variable and the text.
- ClientMachine: `StateMachine_SendRequest`, the return values, and a second configuration are not modelled, nor the assertion that a channel event carries the id of its channel; the outcomes of toolkit calls and allocations are parameters.
- TypeTable.TableHolds: for blocks that cross only the example `CrossedTable` is given; that they do not cross is proved for schemas without fields of a request or response type.
- TypeGen.Generator.GenHeaderTypes: takes a schema without cycles among its fields; on a cycle the source does not terminate. The C text of a declaration, optional fields and array lengths are not modelled, nor which header lines a block hides. For any list of types the exact condition for blocks in order is `PairedIff`. On the schema, `Standalone` is enough for it, and `EarlyResponse` and `NeededResponse` are enough against it; open is the case where the first name that reaches a response also reaches its request, which depends on the order of fields.
- DateTimes.ParseXmlDatetime: starts from the fields of the matched text, so the limit of Python on the digits of a number (thousands) is not modelled; fractions of a second are exact, where Python has a float.
- Probing.MinimumSize: does not model the overflow of the size beyond the memory of the machine.
- Probing.WrapAroundHarmless: covers the sum with the hash; the square of an attempt number of 2^32 or more is not modelled.
- NodeIdHash.CanonicalEncode: the one call that writes behind its buffer, a null text with 6 bytes, is excluded by its precondition; `WritesFitIff` shows that it is the only one.
- Dictionary: the functions that free keys and values, `SOPC_Dict_ForEach` and `SOPC_Dict_SetTombstoneKey` after creation; equality of keys is equality of values.
- The FNV and DJB hash functions, timing and chi-square statistics of the benchmark.
- The client and server stack, PubSub, security key service, certificates and the other generators.
