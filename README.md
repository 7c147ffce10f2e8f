# BoneFixer in Dafny

BoneFixer is a pair of Unity editor windows. Each one re-points the bone array of a broken
skinned mesh renderer ("broken") at a reference skeleton ("model"), matching bones by the
names of their game objects. Broken bones that the model lacks are deleted, and their
children move up to the deleted bone's parent. Model bones that the broken array lacks are
created under their parent, copying the model's local transform. Finally the bone array is
rewritten in the model's order.

- `BoneFixer/BoneFixer.cs` is the newer window. It keeps the diff in two fields: `removed`,
  whose entries carry a user-settable `keep` flag, and `mapping`, whose bones the user may
  override. Its creation step is a do-while loop of passes over `mapping`.
- `BoneFixer/Editor/BoneFixer.cs` is the older window. It does everything in one call,
  after a confirmation dialog. Its creation loop creates one bone per round, out of a
  `HashSet` of pending bones.

The model has six modules:

- `Wrappers`: `Option` and `Result`.
- `Dictionaries`: the `ToDictionary` helper both files define. It is a loop, specified by the
  left fold `Fold`. Lemmas give its key set, last-wins overwriting, success exactly when keys
  are distinct, and the failure being the first repeated key.
- `Ordinal`: the order `OrderBy` sorts names by, with its order laws.
- `Skinning`: the scene as an arena. The `Scene` class holds the transforms as
  `nodes: seq<Node>` (name, parent handle, alive flag, opaque local transform) and the broken
  renderer's bone array `bones: seq<Option<Handle>>`. A ghost depth map keeps the hierarchy
  acyclic. The class has the in-place operations: reparent a child, remove a bone, create a
  bone, replace the bone array. `Removal` and `RemoveAll` are the specifications these follow.
- `BoneFixer`: the newer window. Its functions are `BoneIndicesMap` and `FindRemovedAdded`.
  The `FixerWindow` class holds `removed` and `mapping`. Its `DoFix` runs the removal loop and
  the do-while creation loop (`CreateMissing` > `CreationPass` > `VisitEntry`), each proved
  against the pure pass `Pass`/`PassFrom`/`Visit`. It then replaces the bone array.
- `EditorBoneFixer`: the older window's `DoFix`. That covers the mesh check, the two lazy name
  indices, the `removed`/`added` diff, the confirm gate, the removal loop, the creation loop
  (`AddBones` with `Pick` for the inner foreach) and the index-by-index rebuild (`Rearrange`).

The model follows the code in these points:

- The `fixBones == modelBones` "nop" shortcut compares two freshly built dictionaries by
  reference. It is never true, so it is modelled as never taken.
- The older window's model-side duplicate message carries the label "broken"
  (BoneFixer/Editor/BoneFixer.cs:64). `EditorBoneFixer.ModelIndexOutcome` states this.
- The older window reads `x.gameObject.name` of every slot lazily while building the index.
  So a repeated name before the first null slot is reported as a duplicate. A null slot
  reached first is a null dereference.
- In the newer window, a missing model parent dereferences null at
  `modelBone.parent.gameObject`. The model states this as a `NullReference` failure, and
  shows it is raised exactly when an empty entry's model bone has no parent.
- Neither creation loop checks for progress. The loops are proved to terminate under a ghost
  `rank` argument: every bone still to be created has a parent name that resolves to an
  existing bone, or to a pending bone of lower rank. The rank is required only where the
  code can actually loop:
  - it is not required when `DoFix` returns before the loop (a duplicate name, different
    meshes, a declined confirmation);
  - it is not required when a bone to create has no parent. In the newer window the first
    pass then dereferences null (`ParentsNamed`). In the older window such a bone stops
    every round, so each round either throws or creates (`HasOrphan`, `LoopNeedsRank`).
- Separate lemmas show the divergence without the rank:
  - in the newer window, a pass that can resolve nothing returns the same state with
    `thereIsNull` set (`BoneFixer.StuckPassChangesNothing`);
  - a parent name the model lacks is never resolved (`BoneFixer.DanglingParentNeverResolves`);
  - in the older window, a round without a resolvable or parentless entry is `Pick`'s `Stuck`.

## Model

| member | source | states |
|---|---|---|
| Dictionaries.ToDictionary | BoneFixer/BoneFixer.cs:204-217 | the foreach loop returns the fold of the pairs from the left; with a throwing callback, the first key met twice is the failure |
| Dictionaries.FailureSticks | BoneFixer/BoneFixer.cs:209-214 | once a prefix of the enumeration has thrown, the whole enumeration throws the same key |
| Dictionaries.FoldKeys | BoneFixer/BoneFixer.cs:209-214 | a dictionary built without throwing has exactly the input keys |
| Dictionaries.FoldLastWins | BoneFixer/BoneFixer.cs:211-213 | a key holds the value of its last occurrence in the input |
| Dictionaries.FoldThrowingSucceedsIffDistinct | BoneFixer/Editor/BoneFixer.cs:138-143 | with a throwing callback, building succeeds if and only if no key repeats |
| Dictionaries.FoldIgnoringNeverFails | BoneFixer/BoneFixer.cs:211-212 | with a callback that returns, or none, building never fails |
| Dictionaries.FoldFailureIsFirstRepeat | BoneFixer/BoneFixer.cs:209-213 | a failure only happens with a throwing callback, and the key it reports is the first one that repeats an earlier key, with all keys before it distinct |
| Dictionaries.FoldValuesFromPairs | BoneFixer/BoneFixer.cs:213 | every key/value of the dictionary built is one of the input pairs |
| Ordinal.NameLeTotal | BoneFixer/BoneFixer.cs:117 | any two names are ordered one way or the other |
| Ordinal.NameLeAntisymmetric | BoneFixer/BoneFixer.cs:117 | names ordered both ways are equal |
| Ordinal.NameLeTransitive | BoneFixer/BoneFixer.cs:117 | the order is transitive |
| Skinning.SlotNames | BoneFixer/BoneFixer.cs:130-133 | the name column of a bone array has one slot per bone, null exactly where the bone is null |
| Skinning.RemovalEffect | BoneFixer/BoneFixer.cs:151-159 | after removal the bone has no children, each former child's parent is the bone's former parent, the bone is dead, every other node is unchanged, and the hierarchy stays acyclic |
| Skinning.RemoveAllEffect | BoneFixer/Editor/BoneFixer.cs:84-95 | after removing a list of bones, the hierarchy is acyclic, names and (in the model) local transforms are unchanged, exactly the listed bones are dead, and none of them has children |
| Skinning.RemoveAllStep | BoneFixer/BoneFixer.cs:148-160 | removing one more bone is one more `Removal` |
| Skinning.RemoveAllNames | BoneFixer/BoneFixer.cs:148-160 | removal renames nothing |
| Skinning.ChildMoved | BoneFixer/BoneFixer.cs:156 | moving a child of `b` under `b`'s parent removes exactly that child from `b`'s children |
| Skinning.RemovalReached | BoneFixer/BoneFixer.cs:152-159 | once all children have moved up, destroying the bone gives `Removal` |
| Skinning.Scene.constructor | BoneFixer/BoneFixer.cs:20-21 | a scene holds the given transforms and bone array |
| Skinning.Scene.RemoveBone | BoneFixer/BoneFixer.cs:151-159 | the while loop that moves the first child up until none is left, then the destroy, leaves exactly `Removal` of the old hierarchy, with the bone array unchanged |
| Skinning.Scene.SetParent | BoneFixer/BoneFixer.cs:156 | reparenting changes the parent of that one node and nothing else |
| Skinning.Scene.Spawn | BoneFixer/BoneFixer.cs:185-189 | a new game object is one new node at the end, with the given name, parent and local transform; nothing else changes |
| Skinning.Scene.SetBones | BoneFixer/BoneFixer.cs:197 | the bone array becomes the given one, and the hierarchy is unchanged |
| BoneFixer.IndexedNames | BoneFixer/BoneFixer.cs:130-133 | the pairs are exactly the non-null slots with their names and indices, in strictly increasing index order |
| BoneFixer.IndexedNamesMembership | BoneFixer/BoneFixer.cs:131-133 | (name, i) is a pair if and only if slot i holds that name |
| BoneFixer.IndexedNamesDistinct | BoneFixer/BoneFixer.cs:130-133 | the pairs have distinct names if and only if the non-null slots have distinct names |
| BoneFixer.BoneIndicesMap | BoneFixer/BoneFixer.cs:128-135 | every recorded index is a non-null slot holding that name |
| BoneFixer.BoneIndicesMapSucceedsIffUnique | BoneFixer/BoneFixer.cs:128-135 | the index succeeds if and only if no non-null name repeats |
| BoneFixer.BoneIndicesMapContents | BoneFixer/BoneFixer.cs:128-135 | with unique names, the keys are the names of the non-null slots and each maps to its slot's index |
| BoneFixer.BoneIndicesMapDuplicate | BoneFixer/BoneFixer.cs:134 | a repeated name fails with a `FixException` carrying the label `of` and a name held by two slots |
| BoneFixer.Insert | BoneFixer/BoneFixer.cs:117 | insertion adds exactly the one element |
| BoneFixer.InsertSorted | BoneFixer/BoneFixer.cs:117 | inserting a new name into a strictly sorted list keeps it strictly sorted |
| BoneFixer.SortByName | BoneFixer/BoneFixer.cs:117 | the sorted list is strictly ascending by name and a permutation of the input |
| BoneFixer.Unmatched | BoneFixer/BoneFixer.cs:115-118 | the removed entries are exactly the index's (name, index) pairs whose name the model lacks, with `keep` false, and their names are distinct |
| BoneFixer.FindRemovedAddedFails | BoneFixer/BoneFixer.cs:108-111 | the diff succeeds if and only if the broken names are unique; otherwise it fails with label "broken" and a name two slots share |
| BoneFixer.FindRemovedAddedRemoved | BoneFixer/BoneFixer.cs:111-119 | `removed` is sorted by name and holds exactly the non-null broken slots whose name the model lacks, each with its index and `keep` false |
| BoneFixer.FindRemovedAddedMapping | BoneFixer/BoneFixer.cs:120-124 | `mapping` has one entry per model bone with its name; the bone is the broken bone of that name when there is one, otherwise null |
| BoneFixer.FindRemovedAddedIsReady | BoneFixer/BoneFixer.cs:49-52 | the diff the window stores meets what DoFix needs |
| BoneFixer.ExtendsTransitive | BoneFixer/BoneFixer.cs:168-194 | creations compose across passes, including the rule that every appended node is the bone of a name that was unbound before |
| BoneFixer.AppendedResolvedTransitive | BoneFixer/BoneFixer.cs:185-191 | if each of two stages binds every node it appends to a name that was unbound before that stage, the two stages together do the same |
| BoneFixer.ExtendsReflexive | BoneFixer/BoneFixer.cs:168-194 | a state that created nothing extends itself |
| BoneFixer.FillConsistent | BoneFixer/BoneFixer.cs:190-191 | filling an empty entry and binding its name at once keeps `bonesMap` equal to the filled entries; the name was not bound before |
| BoneFixer.VisitEffect | BoneFixer/BoneFixer.cs:175-191 | a visit touches at most entry i and never rewrites a filled entry; it only raises `thereIsNull`, and raises it when entry i stays empty |
| BoneFixer.VisitCreates | BoneFixer/BoneFixer.cs:178-191 | an empty entry whose parent name is bound is filled with a new bone in the same pass, without raising `thereIsNull`; the one node appended is bound to the entry's name, which was unbound |
| BoneFixer.PassFromEffect | BoneFixer/BoneFixer.cs:172-193 | the rest of a pass only creates, keeps entries before i, and (starting from a cleared flag) ends with `thereIsNull` set exactly when some entry from i on is still empty after the pass |
| BoneFixer.PassCompletes | BoneFixer/BoneFixer.cs:194 | a pass that ends with `thereIsNull` false leaves every entry filled |
| BoneFixer.PassFromFills | BoneFixer/BoneFixer.cs:179-191 | an empty entry whose parent name is already bound is filled by the pass |
| BoneFixer.PassFromFailure | BoneFixer/BoneFixer.cs:179 | a pass fails if and only if it meets an empty entry whose model bone has no parent, and the failure is a null dereference |
| BoneFixer.NullCountDecreases | BoneFixer/BoneFixer.cs:168-194 | filling one entry, and emptying none, lowers the number of empty entries |
| BoneFixer.NullCountNotIncreasing | BoneFixer/BoneFixer.cs:168-194 | emptying no entry does not raise the number of empty entries |
| BoneFixer.ReadyEntry | BoneFixer/BoneFixer.cs:179 | while some entry is empty, under the rank some empty entry has a bound or missing parent |
| BoneFixer.PassProgresses | BoneFixer/BoneFixer.cs:168-194 | under the rank, a successful pass over a state with an empty entry fills at least one, so the loop terminates |
| BoneFixer.PassKeepsFilled | BoneFixer/BoneFixer.cs:176 | an entry empty after a pass was empty before it |
| BoneFixer.ExtendsKeepsRanked | BoneFixer/BoneFixer.cs:168-194 | creation keeps the rank condition |
| BoneFixer.StuckPassChangesNothing | BoneFixer/BoneFixer.cs:167-194 | when no empty entry's parent name is bound, a pass changes nothing but setting `thereIsNull`, so the do-while loop repeats forever |
| BoneFixer.DanglingParentNeverResolves | BoneFixer/BoneFixer.cs:179-183 | an entry whose parent name the model lacks stays empty and sets `thereIsNull` on every pass |
| BoneFixer.ModelSlots | BoneFixer/BoneFixer.cs:141 | the model's name slots are unique if and only if the model's names are |
| BoneFixer.NameCheckPasses | BoneFixer/BoneFixer.cs:140-141 | DoFix's two index checks pass if and only if both name sets are unique; a broken duplicate is reported first, with label "broken", then a model one with label "model" |
| BoneFixer.Doomed | BoneFixer/BoneFixer.cs:148-151 | every bone the removal loop destroys is in the bone array |
| BoneFixer.DoomedContains | BoneFixer/BoneFixer.cs:150-151 | the bone of every entry without `keep` is destroyed |
| BoneFixer.DoomedOnlyUnkept | BoneFixer/BoneFixer.cs:150-151 | every destroyed bone is the bone of an entry without `keep`, so a kept entry destroys nothing |
| BoneFixer.DoomedStep | BoneFixer/BoneFixer.cs:148-151 | one more entry destroys its bone unless it is kept |
| BoneFixer.SeedConsistent | BoneFixer/BoneFixer.cs:162-164 | the seeded `bonesMap` binds exactly the names of the bound entries to their bones |
| BoneFixer.RepairedFollowsModelOrder | BoneFixer/BoneFixer.cs:197 | when the mapping came from FindRemovedAdded, the new bone array names the model's bones in the model's order |
| BoneFixer.FlagIrrelevant | BoneFixer/BoneFixer.cs:170 | clearing `thereIsNull` at the top of a pass keeps the loop invariant |
| BoneFixer.PassStep | BoneFixer/BoneFixer.cs:168-194 | a successful pass keeps the loop invariant; it either ends with every entry filled or strictly lowers the number of empty entries. A pass succeeds only when every empty entry has a parent name, so the rank is only needed then |
| BoneFixer.PassFailureBlames | BoneFixer/BoneFixer.cs:179 | a failing pass is a null dereference at an entry that was empty from the start and whose model bone has no parent |
| BoneFixer.ExtendsGivesRepaired | BoneFixer/BoneFixer.cs:147-197 | removal followed by creation that fills every entry is a repair |
| BoneFixer.ExtendsFillsNewNodes | BoneFixer/BoneFixer.cs:185-191 | after the creation loop, every appended node is alive and is the new bone of an entry that was empty before |
| BoneFixer.NewBoneUnique | BoneFixer/BoneFixer.cs:185-191 | in a repair, the new bone of an entry that was empty is held by no other entry, so each appended node fills exactly one entry |
| BoneFixer.RemoveBones | BoneFixer/BoneFixer.cs:148-160 | the removal loop leaves exactly `RemoveAll` of the bones of the entries without `keep`, in list order, and leaves the bone array as it was |
| BoneFixer.FixerWindow.constructor | BoneFixer/BoneFixer.cs:23-25 | a new window starts with both lists empty |
| BoneFixer.FixerWindow.CreationPass | BoneFixer/BoneFixer.cs:170-193 | the for loop updates `mapping`, `bonesMap` and the hierarchy exactly as `Pass` does, failing where `Pass` fails; success or failure, the old nodes stay a prefix of the hierarchy and the bone array is untouched |
| BoneFixer.FixerWindow.VisitEntry | BoneFixer/BoneFixer.cs:175-191 | one iteration updates the state exactly as `Visit` does, only ever appending to the hierarchy |
| BoneFixer.FixerWindow.CreateMissing | BoneFixer/BoneFixer.cs:167-194 | the do-while loop ends with every mapping entry filled and `bonesMap` consistent, having only created bones, each appended node bound to a name that was unbound; or it fails with a null dereference at an entry that was empty and whose model bone has no parent; either way the old nodes stay a prefix and the bone array is untouched |
| BoneFixer.FixerWindow.Rebuild | BoneFixer/BoneFixer.cs:147-201 | removal, creation and rewrite give a repair, or the null dereference of a parentless empty entry; that failure leaves the bone array as it was and the hierarchy as removal left it, with the bones created before the throw appended |
| BoneFixer.FixerWindow.DoFix | BoneFixer/BoneFixer.cs:138-202 | a duplicate in either index fails first, with the scene and mapping untouched; otherwise the result is a repair (the old nodes as removal left them, every entry filled, the bone array the mapping's bone column, and every appended node alive and the new bone of an entry that was empty), or the null dereference, which leaves the bone array as it was and the hierarchy as removal left it, with the bones created before the throw appended |
| EditorBoneFixer.FirstNull | BoneFixer/Editor/BoneFixer.cs:61 | the position of the first null slot, where the lazy enumeration dereferences null |
| EditorBoneFixer.Leading | BoneFixer/Editor/BoneFixer.cs:61 | the pairs enumerated before that slot are each slot's name with its own index |
| EditorBoneFixer.PositionalFold | BoneFixer/Editor/BoneFixer.cs:61-64 | building from distinct names paired with their positions succeeds and maps each name to its position |
| EditorBoneFixer.LeadingDistinct | BoneFixer/Editor/BoneFixer.cs:61-62 | the pairs enumerated before the first null slot have distinct names if and only if the names before that slot are unique |
| EditorBoneFixer.LeadingRepeat | BoneFixer/Editor/BoneFixer.cs:61-62 | a duplicate is a name held by two slots before the first null slot |
| EditorBoneFixer.LeadingComplete | BoneFixer/Editor/BoneFixer.cs:61-62 | with no null slot and unique names, the index maps each name to its slot |
| EditorBoneFixer.BrokenIndexOutcome | BoneFixer/Editor/BoneFixer.cs:61-62 | the broken index succeeds if and only if no slot is null and the names are unique, mapping each name to its index; a duplicate before the first null slot throws with label "broken"; otherwise the null slot is dereferenced |
| EditorBoneFixer.ModelPairs | BoneFixer/Editor/BoneFixer.cs:63 | each model bone's name paired with its index |
| EditorBoneFixer.ModelIndexOutcome | BoneFixer/Editor/BoneFixer.cs:63-64 | the model index succeeds if and only if model names are unique, mapping each name to its index; a duplicate throws with the label "broken" as written |
| EditorBoneFixer.PrecheckOutcome | BoneFixer/Editor/BoneFixer.cs:61-64 | both indices pass if and only if no broken slot is null and both name sets are unique; a duplicate's label is "broken"; any other failure is the null dereference of a null slot |
| EditorBoneFixer.Removed | BoneFixer/Editor/BoneFixer.cs:66 | a broken slot before the first null slot is removed, with its index and `keep` false, if and only if the model lacks its name |
| EditorBoneFixer.RemovedWitness | BoneFixer/Editor/BoneFixer.cs:66 | a non-empty removed list means some broken name is not a model name |
| EditorBoneFixer.ConfirmIffNamesDiffer | BoneFixer/Editor/BoneFixer.cs:66-81 | the confirmation dialog is shown if and only if the broken and model name sets differ |
| EditorBoneFixer.EnumerationExists | BoneFixer/Editor/BoneFixer.cs:104 | every set has an enumeration order |
| EditorBoneFixer.Pick | BoneFixer/Editor/BoneFixer.cs:104-115 | the inner foreach, in some enumeration order of `added`: it is stuck if and only if no pending entry has a missing or bound parent; it dereferences null only at a pending entry without a parent; otherwise it stops at a pending entry whose parent name is bound |
| EditorBoneFixer.MinRank | BoneFixer/Editor/BoneFixer.cs:102-116 | a non-empty pending set has an entry of least rank |
| EditorBoneFixer.StopperExists | BoneFixer/Editor/BoneFixer.cs:102-116 | while a pending bone has no parent, or else under the rank, every round finds an entry to stop at |
| EditorBoneFixer.AddStep | BoneFixer/Editor/BoneFixer.cs:106-113 | creating a pending bone under its bound parent, binding its name and dropping it from `added` keeps the loop invariant |
| EditorBoneFixer.AddStepFrame | BoneFixer/Editor/BoneFixer.cs:108-109 | one creation keeps the old nodes and the seeded names; the created name was not bound |
| EditorBoneFixer.AddStepNames | BoneFixer/Editor/BoneFixer.cs:108-109 | after one creation, a model name is bound if and only if it is no longer pending |
| EditorBoneFixer.AddStepMade | BoneFixer/Editor/BoneFixer.cs:109-113 | every bone created so far is named as its model bone and copies its local transform, under the bone bound to its parent's name |
| EditorBoneFixer.AddStepAppended | BoneFixer/Editor/BoneFixer.cs:109-113 | after one creation, every node the loop appended is the bone `bonesMap` binds to its name, a name the seeded map did not hold |
| EditorBoneFixer.PendingStep | BoneFixer/Editor/BoneFixer.cs:108-109 | creating one pending bone keeps the rank condition |
| EditorBoneFixer.OrphanStep | BoneFixer/Editor/BoneFixer.cs:106-109 | creating a pending bone that has a parent leaves a parentless pending bone pending |
| EditorBoneFixer.AddBones | BoneFixer/Editor/BoneFixer.cs:102-116 | the while loop ends with nothing pending, every added name bound to a bone it created, and every appended node bound to its own name; or it fails with the null dereference of a pending bone without a parent; the old nodes stay a prefix and the bone array is untouched either way |
| EditorBoneFixer.FixBonesPoint | BoneFixer/Editor/BoneFixer.cs:61-62 | every broken index entry points at a non-null slot of that name |
| EditorBoneFixer.PendingInit | BoneFixer/Editor/BoneFixer.cs:97-102 | the rank condition holds before the creation loop |
| EditorBoneFixer.AddInit | BoneFixer/Editor/BoneFixer.cs:97-99 | the seeded `bonesMap` binds exactly the names both arrays share, and the loop invariant holds at the start |
| EditorBoneFixer.Finish | BoneFixer/Editor/BoneFixer.cs:119-126 | the bone array rebuilt from the final `bonesMap` is a repair of the scene |
| EditorBoneFixer.FinishShared | BoneFixer/Editor/BoneFixer.cs:97-99 | a model bone the broken array holds keeps the broken bone of its name |
| EditorBoneFixer.FinishNew | BoneFixer/Editor/BoneFixer.cs:106-113 | a model bone the broken array lacks gets a new bone named as it, with its local transform, under the bone of its parent's name |
| EditorBoneFixer.FinishAppended | BoneFixer/Editor/BoneFixer.cs:106-124 | every slot of the new array holds a bone of the scene, and every appended node carries no broken name and is the new bone of the model bone of its name |
| EditorBoneFixer.ENewBoneUnique | BoneFixer/Editor/BoneFixer.cs:106-124 | a new bone is held by one slot of the new bone array only, so each appended node fills exactly one slot |
| EditorBoneFixer.StartCreation | BoneFixer/Editor/BoneFixer.cs:97-99 | the seeded `bonesMap` is the map of shared names, the loop invariant holds for it, and either a parentless bone is pending or the rank condition holds |
| EditorBoneFixer.AllCreated | BoneFixer/Editor/BoneFixer.cs:102-116 | when nothing is pending, every model name is bound |
| EditorBoneFixer.ERepairedFollowsModelOrder | BoneFixer/Editor/BoneFixer.cs:119-126 | the repaired bone array names the model's bones in the model's order |
| EditorBoneFixer.ERepairedDropsRemoved | BoneFixer/Editor/BoneFixer.cs:84-95 | every removed bone is dead and appears nowhere in the new bone array |
| EditorBoneFixer.RemovedNotInNewArray | BoneFixer/Editor/BoneFixer.cs:119-126 | a removed bone is not in the new bone array |
| EditorBoneFixer.Rearrange | BoneFixer/Editor/BoneFixer.cs:119-124 | the index-by-index loop yields one slot per model bone, each the bone bound to that bone's name |
| EditorBoneFixer.Rebuild | BoneFixer/Editor/BoneFixer.cs:83-130 | removal, creation and the rebuild give a repair, or the null dereference of a model bone without a parent that broken lacks; that failure leaves the bone array as it was and the hierarchy as removal left it, with the bones created before the throw appended |
| EditorBoneFixer.DoFix | BoneFixer/Editor/BoneFixer.cs:54-131 | different meshes fail first; index failures follow, leaving the scene untouched; when the name sets differ, a declined confirmation returns false with the scene untouched, and false is returned only then; otherwise the result is a repair (old nodes as removal left them, the new array one bone per model bone, the broken bone of that name or a new bone under its parent's bone, and every appended node the new bone of a model bone of its name), or the null dereference in the creation loop, which leaves the bone array as it was and the hierarchy as removal left it, with the bones created before the throw appended |

## Left out

- `OnGUI`, `ShowWindow` and the per-row editing of `mapping` and `keep` are UI. `DoFix` of the newer window accepts any `removed` and `mapping` that are well formed (`ReadyFor`). So a user's edits are arbitrary inputs.
- `EditorUtility.DisplayDialog` and `SetDirty`: dialogs and persistence. The older window's confirmation answer is the `confirm` parameter. A thrown `FixException` is the `Failure` result.
- The `sharedMesh` comparison: a foreign identity check, passed as the boolean `sameMesh`. The newer window checks the mesh only in the UI (`readyToFix`), which is not modelled.
- `SetParent` keeps the world pose, and that arithmetic is floating-point engine code. Local position, rotation and scale are opaque copied values. A child moved up by a removal keeps its local transform in the model; the engine recomputes it to keep the world pose.
- Sibling order is not modelled: children are a set of parent pointers. `RemoveBone` moves the children out in an unspecified order where the source takes `GetChild(0)` each time, and a new bone's position among its siblings is left open too.
- A failed creation loop is described by the partial state it leaves (the bone array unchanged, the nodes as removal left them, bones created before the throw appended), not by which bones those appended nodes are.
- `new GameObject(name)` first appears at the scene root and is then reparented. The model creates it directly under its parent.
- `Destroy` is deferred by the engine. The model clears the node's `alive` flag, and its handle stays valid.
- `OrderBy` on strings compares with the current culture. The model uses ordinal lexicographic order on characters.
- `Dictionary` enumeration is taken to be insertion order. That holds for a dictionary that was only ever inserted into.
- `HashSet` enumeration order is left open. `Pick` works for every order of the pending set.
- A null slot in the model's bone array dereferences null in both windows. Model bones are non-null values.
- A model bone and a broken transform are different objects, so aliasing between the two hierarchies is not modelled.
- The `onDuplicate` callback is reduced to a flag: it either throws or returns.
- Non-termination of the creation loops is not expressed by the methods themselves: they terminate under a ghost rank, and lemmas describe the diverging case.
- BoneFixer.FixerWindow.DoFix: needs the ghost `rank` when both name checks pass and every empty entry has a parent name. Without it the do-while loop need not terminate. `StuckPassChangesNothing` and `DanglingParentNeverResolves` state the diverging case.
- BoneFixer.FixerWindow.CreateMissing: needs the ghost `rank` when every empty entry has a parent name, for the same reason.
- EditorBoneFixer.DoFix: needs the ghost `rank` when the meshes match, both indices build, the creation loop is reached after consent, and no bone to create lacks a parent. A round in which `Pick` is `Stuck` repeats forever.
- EditorBoneFixer.AddBones: needs the ghost `rank` while no pending bone lacks a parent, for the same reason.
