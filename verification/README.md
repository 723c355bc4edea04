# ticlo core model

A Dafny model of the core of ticlo, a dataflow runtime with a graphical
block editor. Blocks hold named properties. A block's `#is` type selects a
function that computes its outputs. The editor shows blocks on a stage and
lets the user edit the properties of several selected blocks at once.

The model covers these parts of the system:

- the reserved configuration properties of a block (`#is`, `#mode`, `#len`, …) and the read-only property;
- the Proxy view of a block as a plain key/value object, shallow and deep;
- the arithmetic functions `add`, `multiply`, `subtract`, `divide`, and the logic block `*`;
- the nested-job function that runs a saved sub-flow in a child job;
- the translation keys for type and property labels;
- the property list, which merges the property descriptors of every selected block;
- the property editor: aggregating the selected blocks' values, writes, drag-and-drop binding, and the lock and inbound markers;
- the block stage: selection by click, by ctrl-click and by rectangle, and the wire-field registry;
- dropping a block template onto the stage.

Each module matches one source file:

| module | source |
|---|---|
| `BlockConfigs` | `src/core/block/BlockConfigs.ts` |
| `BlockProxy` | `src/core/block/BlockProxy.ts` |
| `MathFunctions` | `src/core/functions/basic/Math.ts` |
| `Multiply2` | `src/logic/basic/Multiply2.ts` |
| `NestedJob` | `src/engine/nested/NestedJob.ts` |
| `I18n` | `src/core/util/i18n.ts` |
| `PropertyList` | `src/editor/property/PropertyList.tsx` |
| `PropertyEditor` | `src/editor/property/PropertyEditor.tsx` |
| `BlockStage` | `src/editor/block/BlockStage.tsx` |
| `DragDropBlock` | `src/editor/block/DragDropBlock.tsx` |

There are also four shared modules:

- `Wrappers`: `Option`;
- `Values`: JavaScript values, with nullishness and truthiness;
- `Strings`: digit search and prefix/suffix cancellation;
- `Descriptor`: the function and property descriptors.

JavaScript numbers are modelled as `real`. A JavaScript `Map` that iterates in
insertion order is modelled as a sequence of entries with distinct names.

Each call of `NestedJob.run` creates a new child `Job` and overwrites
`_nested` without destroying the previous one. `NestedJob.Run` models this as
written. `inputChanged` returns false, so an input change does not by itself
cause a new run.

Two behaviours of `comparePropDesc` are easy to miss, and the model keeps both:

- It is not symmetric, because it looks only at the first argument's shape.
- It rejects a group that has no `properties` array, even when the group is compared with itself. `PropertyList.GroupWithoutPropertiesConflicts` shows this.

The intersection of descriptor lists is stated in terms of `comparePropDesc` as written.

## Model

| member | source | states |
|---|---|---|
| BlockConfigs.ConfigGenerator | src/core/block/BlockConfigs.ts:103-114 | a property name gets a configuration class exactly when it is one of the ten reserved `#` names |
| BlockConfigs.ConfigTableBijective | src/core/block/BlockConfigs.ts:103-114 | the table pairs the ten reserved names with the ten configuration classes one to one |
| BlockConfigs.HookInjective | src/core/block/BlockConfigs.ts:21-71 | every block callback is driven by exactly one configuration class; `#input` and `#output` drive none |
| BlockConfigs.NewProperty | src/core/block/BlockConfigs.ts:5-11 | a new property of a reserved name gets its class; `#is` starts as '' (value and saved), every other property starts undefined and unbound |
| BlockConfigs.NewReadOnly | src/core/block/BlockConfigs.ts:74-78 | the read-only property holds the value it was constructed with |
| BlockConfigs.ForwardedValue | src/core/block/BlockConfigs.ts:13-19 | `#is` replaces null and undefined by '' and passes every other value through, so what it forwards is never nullish |
| BlockConfigs.ValueChanged | src/core/block/BlockConfigs.ts:21-71 | a value change calls at most one block callback, carrying the new value; it calls one exactly when the class has a hook |
| BlockConfigs.Update | src/core/block/BlockConfigs.ts:80-83 | a read-only property refuses `updateValue` and reports no change; any other property stores the forwarded value and reports whether it differs |
| BlockConfigs.Apply | src/core/block/BlockConfigs.ts:80-91 | `setValue` and `setBinding` on a read-only property leave it as it was; on any other property they store the value or the path |
| BlockConfigs.ReadOnlyNeverChanges | src/core/block/BlockConfigs.ts:74-91 | no sequence of writes changes a read-only property |
| BlockConfigs.TypeConfigNeverNullish | src/core/block/BlockConfigs.ts:7-19 | a new `#is` property never holds null or undefined, whatever is written to it |
| BlockConfigs.TypeConfigStaysNonNullish | src/core/block/BlockConfigs.ts:13-19 | a non-nullish `#is` value stays non-nullish under any sequence of writes |
| BlockProxy.GetProperty | src/core/block/BlockProxy.ts:9-10 | the lookup finds exactly the existing properties and creates none |
| BlockProxy.Get | src/core/block/BlockProxy.ts:8-14 | a read gives the property's value, or undefined when there is no property; a destroyed block reads undefined |
| BlockProxy.Set | src/core/block/BlockProxy.ts:16-20 | a write always reports success, changes only the written field, and leaves a destroyed block as it was |
| BlockProxy.SetThenGet | src/core/block/BlockProxy.ts:16-20 | after a write, reading the field gives the forwarded value, or the old value when the property is read-only |
| BlockProxy.DefinedIo | src/core/block/BlockProxy.ts:30-34 | the enumeration holds exactly the I/O names whose value is not undefined |
| BlockProxy.DefinedIoInOrder | src/core/block/BlockProxy.ts:30-34 | the enumeration is a subsequence of the property creation order |
| BlockProxy.DefinedIoDistinct | src/core/block/BlockProxy.ts:30-34 | the enumeration lists no field twice |
| BlockProxy.DefinedIoSnoc | src/core/block/BlockProxy.ts:30-34 | a property created later is enumerated after the earlier ones |
| BlockProxy.OwnKeys | src/core/block/BlockProxy.ts:22-36 | a destroyed block has no keys; otherwise the keys are the distinct I/O fields with a defined value, listed in creation order |
| BlockProxy.Has | src/core/block/BlockProxy.ts:40-43 | `in` holds exactly when the property exists and its value is not undefined |
| BlockProxy.OwnKeysAgreeWithHas | src/core/block/BlockProxy.ts:22-43 | a field is enumerated exactly when it is an I/O name that `in` reports |
| BlockProxy.IsExtensible | src/core/block/BlockProxy.ts:37-39 | the view is always extensible |
| BlockProxy.GetOwnPropertyDescriptor | src/core/block/BlockProxy.ts:5 | every field reports a writable, enumerable, configurable descriptor |
| BlockProxy.DeepGet | src/core/block/BlockProxy.ts:52-62 | the deep view wraps exactly the block-valued properties and otherwise reads like the shallow view |
| BlockProxy.ExampleKeys | src/core/block/spec/BlockProxy.spec.ts:27-36 | the test block enumerates `v2` and `v4` but not `v3`, `@v` or `~v4` |
| BlockProxy.ExampleReads | src/core/block/spec/BlockProxy.spec.ts:67-72 | through the proxy, `v2` reads 2, `@v` reads back '0', `@notExist` is undefined, `v3` is not `in` it, `v4` has an own descriptor, and the proxy is extensible |
| BlockProxy.ExampleDeepRead | src/core/block/spec/BlockProxy.spec.ts:20 | the deep proxy reads `v2` as the plain value 2 |
| BlockProxy.ExampleDestroyedReads | src/core/block/spec/BlockProxy.spec.ts:93-96 | after the block is destroyed, `'###'` is undefined, a write of `v2` is accepted but reads back undefined, and no keys are listed |
| MathFunctions.EffectiveLength | src/core/functions/basic/Math.ts:27-31 | the number of inputs read is `#len` when it is non-negative, else 2 |
| MathFunctions.FoldRun | src/core/functions/basic/Math.ts:26-45 | `add` and `multiply` output the sum or product of inputs `0..n-1` exactly when all are present and n > 0; otherwise undefined, stopping at the first missing input |
| MathFunctions.Subtract | src/core/functions/basic/Math.ts:90-98 | `subtract` is defined exactly when both inputs are, and then the output plus input 1 is input 0 |
| MathFunctions.ExampleRuns | src/editor/block/spec/Block.spec.tsx:28-66 | add 1,2 gives 3; add 5,2 gives 7; subtract 5,2 gives 3 |
| MathFunctions.DescriptorN | src/core/functions/basic/Math.ts:5-13 | the length-driven descriptor has one indexed group and the single port `output` |
| MathFunctions.Descriptor2 | src/core/functions/basic/Math.ts:14-22 | the binary descriptor has no group and the ports `0`, `1`, `output` |
| MathFunctions.Lookup | src/core/functions/basic/Math.ts:48-126 | exactly the four math types are registered, at priority 0; `add` and `multiply` use `#len` and an indexed group, `subtract` and `divide` have fixed inputs |
| Multiply2.Lookup | src/logic/basic/Multiply2.ts:19 | the block is registered only under `*` |
| Multiply2.Run | src/logic/basic/Multiply2.ts:9-17 | the output is null exactly when an input is missing, else the product |
| Multiply2.RunCommutes | src/logic/basic/Multiply2.ts:9-17 | swapping the inputs does not change the output |
| Multiply2.RegistriesDisjoint | src/logic/basic/Multiply2.ts:19 | `*` is not also one of the math function type names `add`, `multiply`, `subtract`, `divide` |
| Multiply2.AgreesWithMultiply | src/core/functions/basic/Math.ts:57-78 | with both inputs present, `*` writes the product that `multiply` outputs for two inputs |
| NestedJob.Namespace | src/engine/nested/NestedJob.ts:57-61 | the namespace exists exactly when the class name has a '/' after its first character, and it is the text before the first '/' |
| NestedJob.RegisterClass | src/engine/nested/NestedJob.ts:53-69 | the generated class captures the saved data, the mode, the priority and the namespace of its name |
| NestedJob.RegisterClassDefaults | src/engine/nested/NestedJob.ts:53-56 | without explicit settings the mode is `always` and the priority 1 |
| NestedJob.Construct | src/engine/nested/NestedJob.ts:13-17 | an instance starts with the class's settings and no child job |
| NestedJob.RegisteredClassRuns | src/engine/nested/NestedJob.ts:53-69 | an instance of a class registered with defaults has mode `always` and priority 1; running an instance of any registered class on a block makes a child job in the namespace of the class name, and loads the class's saved data into it |
| NestedJob.NamespaceExamples | src/engine/nested/NestedJob.ts:57-61 | `math/add` has namespace `math`; `add` and `/add` have none |
| NestedJob.InputChanged | src/engine/nested/NestedJob.ts:19-21 | an input change never asks for a re-run |
| NestedJob.Position | src/engine/nested/NestedJob.ts:23-41 | the position found holds the event and no earlier position does; nothing is found exactly when the event is absent |
| NestedJob.Run | src/engine/nested/NestedJob.ts:23-41 | on a block, a new child job replaces the old one and the run's events follow the protocol; on anything else nothing happens |
| NestedJob.RunProtocol | src/engine/nested/NestedJob.ts:25-39 | `#impl` is set before loading and `#input` after; the child stays queued from the start to the last step and ends unqueued; the loop runs exactly when the child has one |
| NestedJob.RunOrder | src/engine/nested/NestedJob.ts:28-39 | `#impl` is set second, the saved data loaded third and `#input` set fourth; the loop is scheduled and run next exactly when the child has one |
| NestedJob.RunQueued | src/engine/nested/NestedJob.ts:28-39 | the child is queued before every step after the first and unqueued at the end |
| NestedJob.QueuedThrough | src/engine/nested/NestedJob.ts:28-39 | with no flag change in between, the child stays queued |
| NestedJob.Destroy | src/engine/nested/NestedJob.ts:43-51 | with no child nothing happens; otherwise `#impl` is cleared exactly when the data is a live block, then the child is destroyed and dropped |
| NestedJob.RunThenDestroy | src/engine/nested/NestedJob.ts:23-51 | destroying after a run destroys exactly the job the run created |
| I18n.I18nNamespace | src/core/util/i18n.ts:16 | the translation namespace is `ticlo-` followed by the namespace, or by `block` when there is none |
| I18n.TranslateType | src/core/util/i18n.ts:12-18 | an empty type has an empty label; otherwise the label is looked up under `<type>.@name` |
| I18n.TranslateProperty | src/core/util/i18n.ts:20-33 | a property name is split at its first digit; the part before is looked up and the rest appended unchanged |
| I18n.UntranslatedPropertyIsName | src/core/util/i18n.ts:20-33 | with no translations, a property's label is its own name |
| I18n.UntranslatedTypeIsType | src/core/util/i18n.ts:12-18 | with no translations, a type's label is the type itself |
| PropertyList.GetPropDescName | src/editor/property/PropertyList.tsx:57-64 | a group is keyed `<group>#len`, a named property by its name, anything else by `@invalid` |
| PropertyList.GroupKeysInjective | src/editor/property/PropertyList.tsx:57-64 | two groups share a key exactly when they share a group name |
| PropertyList.CompareLoop | src/editor/property/PropertyList.tsx:66-85 | the loop agrees with the recursive definition: plain descriptors need equal name, type and editor; groups need equal names and equally long property arrays |
| PropertyList.CompareReflexive | src/editor/property/PropertyList.tsx:66-85 | a descriptor whose groups all have property arrays agrees with itself |
| PropertyList.GroupWithoutPropertiesConflicts | src/editor/property/PropertyList.tsx:69-71 | a group with no properties array does not agree even with itself |
| PropertyList.Populate | src/editor/property/PropertyList.tsx:124-130 | the first descriptor list fills the map; each key holds the last descriptor with that key, and the keys come in the order of their first occurrence in the list, a duplicate keeping the first one's place |
| PropertyList.FirstIndex | src/editor/property/PropertyList.tsx:124-130 | the position of the first descriptor filed under a key, or the list's length when there is none |
| PropertyList.KeyOrderStep | src/editor/property/PropertyList.tsx:126-129 | one `set` keeps the keys in first-occurrence order: an existing key stays in place, a new one, seen for the first time, goes last |
| PropertyList.SubsequenceKeepsOrder | src/editor/property/PropertyList.tsx:107-123 | deleting entries from a map in key order leaves it in key order |
| PropertyList.Intersect | src/editor/property/PropertyList.tsx:107-123 | an entry survives exactly when every descriptor in the new list with its key agrees with it and at least one has that key; the survivors keep their order and stay distinct |
| PropertyList.SameListKeepsEverything | src/editor/property/PropertyList.tsx:107-123 | merging a well-formed list with distinct keys into itself keeps every entry |
| PropertyList.IsNotEmpty | src/editor/property/PropertyList.tsx:102-104 | the merger is non-empty exactly when it has a map with an entry |
| PropertyList.Add | src/editor/property/PropertyList.tsx:106-131 | the first list populates the map with exactly the last descriptor of each key; a later list keeps exactly the entries it also declares without a conflicting descriptor, as a subsequence of the old map, so in their old order; every entry left is declared by the list just added |
| PropertyList.PopulatedEntries | src/editor/property/PropertyList.tsx:124-130 | a populated map holds an entry exactly when it is the last descriptor with its key in the list |
| PropertyList.Remove | src/editor/property/PropertyList.tsx:153-157 | removal drops exactly the named entry, keeps the rest in order, and keeps a missing map missing |
| PropertyList.MergeDescs | src/editor/property/PropertyList.tsx:192-206 | a block with no descriptor yet clears the merge; each distinct function is merged once; every entry left is declared by every selected function; with all descriptors ready, an entry is shown exactly when the first function's list has it as the last descriptor of its key, the first list of every later distinct function keeps it, and it is not `output` on a sub-block; the entries come in the order the first function's list first declares their keys |
| PropertyList.MergeMore | src/editor/property/PropertyList.tsx:214-222 | the `#more` lists of all selected blocks are merged unless one is missing; every entry left is declared by every list; with all lists present, an entry is shown exactly when the first list has it as the last descriptor of its key and every later list keeps it; the entries come in the order the first list first declares their keys |
| PropertyList.Render | src/editor/property/PropertyList.tsx:133-151 | one editor per entry that is a group or a named property, keyed by the entry's name, and no other editor |
| PropertyList.RenderIndices | src/editor/property/PropertyList.tsx:136-147 | the renderable positions of the map from a start position, strictly increasing, each renderable position present |
| PropertyList.RenderInOrder | src/editor/property/PropertyList.tsx:133-151 | the k-th editor is the one for the k-th renderable entry in map order, so editors follow the map order and none repeats |
| PropertyList.RenderFollowsIndices | src/editor/property/PropertyList.tsx:133-151 | the same for the editors of every suffix of the map |
| PropertyList.RenderInKeyOrder | src/editor/property/PropertyList.tsx:133-151 | on a map in key order, the editors' keys come in the order the list first declares them |
| PropertyList.Lookup | src/editor/property/PropertyList.tsx:112 | the map lookup finds a descriptor exactly when the key is present |
| PropertyList.PutLookup | src/editor/property/PropertyList.tsx:128 | after `set`, the key reads the new descriptor and every other key reads as before |
| PropertyList.WithoutTwice | src/editor/property/PropertyList.tsx:114-122 | deleting two sets of keys one after the other deletes their union |
| PropertyEditor.FieldPathInjective | src/editor/property/PropertyEditor.tsx:101-106 | distinct blocks give distinct paths for the same property |
| PropertyEditor.FieldsDistinct | src/editor/property/PropertyEditor.tsx:101-106 | the fields of distinct blocks are distinct |
| PropertyEditor.IsSubBlock | src/editor/property/PropertyEditor.tsx:44 | a property shows a sub-block exactly when it is bound to `~<name>.output` |
| PropertyEditor.SubBlockPathInjective | src/editor/property/PropertyEditor.tsx:44 | distinct properties have distinct sub-block paths |
| PropertyEditor.OnUpdate | src/editor/property/PropertyEditor.tsx:40-48 | an update stores the cache, and recomputes the sub-block flag only when the value or the binding path was part of the update |
| PropertyEditor.SubBlockKeys | src/editor/property/PropertyEditor.tsx:82-85 | each selected block gets the key of its `~<name>` helper |
| PropertyEditor.SubBlockKeysAreFields | src/editor/property/PropertyEditor.tsx:82-85 | the sub-block keys are the `~<name>` fields of the blocks, distinct when the blocks are |
| PropertyEditor.OnChange | src/editor/property/PropertyEditor.tsx:101-106 | a change sends one `setValue` per selected block, to that block's field |
| PropertyEditor.OnChangeSetsEveryField | src/editor/property/PropertyEditor.tsx:101-106 | after a change every selected block's field holds the value and every other field is unchanged |
| PropertyEditor.OnDragOver | src/editor/property/PropertyEditor.tsx:116-135 | a drag is accepted exactly when the property is writable, the drag carries one field or one per block, and it is not this property's own fields |
| PropertyEditor.BindAllTo | src/editor/property/PropertyEditor.tsx:140-145 | a single dragged field is bound into every selected field except itself |
| PropertyEditor.BindPairwise | src/editor/property/PropertyEditor.tsx:146-152 | dragged fields are bound into the selected fields position by position, skipping self-bindings |
| PropertyEditor.OnDrop | src/editor/property/PropertyEditor.tsx:136-156 | a drop only binds this property's fields, never a field to itself, from one dragged field or pairwise, and does nothing otherwise |
| PropertyEditor.PairwiseSelf | src/editor/property/PropertyEditor.tsx:146-152 | dropping a property's own fields onto it binds nothing |
| PropertyEditor.DropFollowsDragOver | src/editor/property/PropertyEditor.tsx:116-156 | a drop the drag-over refused does nothing; a drop it accepted on a non-empty selection binds at least one field |
| PropertyEditor.Aggregation | src/editor/property/PropertyEditor.tsx:167-202 | undefined until every block is cached; then the value and path of the first block, with flags that hold exactly when all values agree, some binding exists, all bindings agree, and all are sub-blocks |
| PropertyEditor.Row | src/editor/property/PropertyEditor.tsx:204-240 | the inbound marker shows exactly on a bound non-sub-block row, titled with the shared path or `???`; the lock button shows exactly on a locked writable row, with icon `edit` and the unlocked tooltip when unlocked, else icon `lock` and the binding tooltip when bound or the inconsistent-values tooltip; the expand icon and sub-block view follow the sub-block flag; the editor exists exactly for an editable type, locked exactly when locked and not unlocked, editable exactly when not read-only |
| PropertyEditor.ConsistentRowIsUnlocked | src/editor/property/PropertyEditor.tsx:167-240 | blocks with one equal unbound value show no lock, no inbound marker and an unlocked editor |
| BlockStage.SelectedKeys | src/editor/block/BlockStage.tsx:42-47 | the reported keys are exactly those of the selected blocks |
| BlockStage.OnSelect | src/editor/block/BlockStage.tsx:39-51 | the pending-change flag is cleared, and the selected keys are reported exactly when there is a callback |
| BlockStage.Toggle | src/editor/block/BlockStage.tsx:55-83 | ctrl-click flips only the clicked block |
| BlockStage.SelectOnly | src/editor/block/BlockStage.tsx:55-83 | a plain click on an unselected block leaves only that block selected |
| BlockStage.SelectBlock | src/editor/block/BlockStage.tsx:55-83 | an unknown key changes nothing; ctrl flips the block, reporting on deselection and deferring on selection; a plain click on a selected block changes nothing; otherwise it selects only that block and defers the report |
| BlockStage.OnDragBlockEnd | src/editor/block/BlockStage.tsx:108-115 | the deferred selection is reported when a drag ends, and only when a change is pending |
| BlockStage.RectSelection | src/editor/block/BlockStage.tsx:132-157 | a block is selected exactly when the rectangle covers it, or it was selected and shift or ctrl is held |
| BlockStage.OnDragSelectEnd | src/editor/block/BlockStage.tsx:132-157 | a rectangle selection updates every block and reports the selected keys when there is a callback |
| BlockStage.RectSelectIdempotent | src/editor/block/BlockStage.tsx:132-157 | the same rectangle twice selects the same blocks as once |
| BlockStage.ToggleTwice | src/editor/block/BlockStage.tsx:55-83 | ctrl-clicking a block twice restores the selection |
| BlockStage.ClickThenDragReportsTarget | src/editor/block/BlockStage.tsx:55-115 | clicking an unselected block and ending the drag reports just that block |
| BlockStage.OnlyOneSelected | src/editor/block/BlockStage.tsx:42-47 | a stage with one selected block reports only its key |
| BlockStage.NoneSelected | src/editor/block/BlockStage.tsx:42-47 | a stage with no selected block reports no key |
| BlockStage.ExampleSelectAll | src/editor/block/spec/Block.spec.tsx:273-285 | the test's rectangle covers both blocks |
| BlockStage.ExampleSelectOne | src/editor/block/spec/Block.spec.tsx:287-299 | the test's second rectangle leaves only `add` selected |
| BlockStage.ExampleSelectNone | src/editor/block/spec/Block.spec.tsx:301-312 | the test's small rectangle selects nothing |
| BlockStage.LinkField | src/editor/block/BlockStage.tsx:159-174 | linking adds the target to the source's set and touches no other source |
| BlockStage.UnlinkField | src/editor/block/BlockStage.tsx:176-184 | unlinking removes the target and drops a set that becomes empty |
| BlockStage.LinkThenUnlink | src/editor/block/BlockStage.tsx:159-184 | unlinking a fresh link restores the links |
| BlockStage.ChildTargets | src/editor/block/BlockStage.tsx:193-200 | the indirect targets are exactly the targets linked to paths below the key |
| BlockStage.RegisterField | src/editor/block/BlockStage.tsx:186-203 | registering records the field and gives every direct target, or else every indirect target, the new source |
| BlockStage.UnregisterField | src/editor/block/BlockStage.tsx:205-226 | only the registered field is removed; its direct targets lose their source, and indirect targets lose it only when wired to it |
| BlockStage.RegisterThenUnregister | src/editor/block/BlockStage.tsx:186-226 | unregistering a fresh registration restores the registry and notifies the same direct targets |
| DragDropBlock.OnDragBlockOver | src/editor/block/DragDropBlock.tsx:7-17 | a drag is accepted exactly when it carries block data with a `#is` |
| DragDropBlock.Width | src/editor/block/DragDropBlock.tsx:30-38 | the new block keeps the template's width when it is a number between 80 and 9999, else 150 |
| DragDropBlock.Place | src/editor/block/DragDropBlock.tsx:28-42 | the block is placed 12 up and left of the drop point and every other field of the template is kept |
| DragDropBlock.PlaceKeepsWidth | src/editor/block/DragDropBlock.tsx:28-42 | placing the result again keeps its width, and only the last placement counts |
| DragDropBlock.ProposedName | src/editor/block/DragDropBlock.tsx:26 | the dragged name is used when truthy, else the template's type |
| DragDropBlock.OnDropBlock | src/editor/block/DragDropBlock.tsx:21-82 | an accepted drop with a name and no shift creates the block directly; otherwise it prompts and creates only with a confirmed non-empty name |
| DragDropBlock.ExampleDrop | src/editor/block/DragDropBlock.tsx:21-82 | an unnamed `add` template 120 wide dropped at (300, 200) is created as `add` at (288, 188) with width 120 |

## Left out

- Listeners, subscriptions and the client connection are not modelled. Every write is returned as a request record, and every update is an argument.
- React rendering, CSS classes, component lifecycles and `UNSAFE_componentWillReceiveProps` caching are not modelled. Only the decisions a render makes are, such as which editors, icons and tooltips appear.
- `BlockProperty`, `Block` and `Job` are not part of this model. The base `onChange`, `_valueChanged` dispatch and `getProperty` creation are abstracted to the cases the configuration classes override.
- Block.getProperty on a destroyed block is not part of this model. It is taken to create nothing, so a write through the proxy has no effect, as the block proxy test expects.
- The `_ioProps` cache is modelled as the property creation order filtered by sigil. How `_initIoCache` builds it is not part of this model.
- BlockProxy.Get: values are compared structurally, not by `Object.is`, and a block reference stands for the block itself.
- PropertyEditor.Aggregation: values are compared structurally instead of with `Object.is`, so NaN and signed zeros are not distinguished, and two distinct arrays with the same items count as the same value, where the source would show "Inconsistent values".
- MathFunctions.FoldRun: inputs are numbers or missing. The `Number()` coercion of string and boolean inputs is not modelled: in the source, `add` of "1" and "2" gives 3 and an input "a" gives NaN.
- MathFunctions.Subtract: the `Number()` coercion of non-number inputs is not modelled, as for `FoldRun`.
- Multiply2.Run: the coercion that `*` applies to non-number inputs is not modelled; inputs are numbers or missing.
- BlockProxy.ExampleReads: the test's read of `'###'` on a live block, which gives the parent job, is resolved by `Block.getProperty`, which is not part of this model. The destroyed block's `'###'` read is modelled by `ExampleDestroyedReads`.
- PropertyEditor.IsSubBlock: null and undefined binding paths are both `None`.
- DragDropBlock.Width: JavaScript's coercion of a numeric string to a number is not modelled; only number values count as widths.
- MathFunctions.EffectiveLength: a fractional `#len` is not modelled; lengths are integers.
- MathFunctions.Lookup: `divide` is modelled through its registration only. Its `run` is not part of this model, because division by zero is floating point behaviour.
- NestedJob.Run: whether the child job has a loop, and the child's id, are parameters, because `Job` construction and `load` are not part of this model.
- I18n.TranslateProperty: the i18next lookup is a function parameter. Calling it with an empty `type` and an undefined `name` gives '' in the source, and `name` here, since names are always strings.
- BlockStage.RegisterField: notifications are a set of source changes, so their order and any repeats are not modelled.
- BlockStage.UnregisterField: the current source of each wire is the parameter `wireSource`, because field items are not part of this model.
- The drag store, `onDragStart`, and the block list kept by the stage's watch listener are not modelled. The dragged fields and block data are parameters.
- `deleteSelectedBlocks`, `createBlock` and `forAllPathsBetween` are not part of this model.
- BlockStage.LinkField: the notification that tells the new target its current source is not modelled, because it walks paths with `forAllPathsBetween`.
- DragDropBlock.OnDropBlock: the prompt is a parameter holding the user's answer. The asynchronous block creation is a returned record.
- Floating point is modelled as real arithmetic, so rounding, NaN and infinities are not modelled.
