# Wheel Tuner window — a Dafny model of its core

Wheel Tuner is a Kerbal Space Program editor window. It lists the wheels of
the current craft and edits their module fields. An edit can be mirrored onto
the symmetry counterparts of the edited part. The window tracks which parts
hold unrebuilt edits and can write the current values out as a ModuleManager
patch. This project models the state and the logic behind that window:

- **Host** (`host.dfy`): parts, their modules and the values those modules
  expose, as values. A `handle` stands for object identity and `None` stands
  for a null reference. Being values, parts and modules are acyclic
  snapshots: a module's `part` is a copy of its owning part, not a reference
  back to it, and the model takes two values with the same handle to be the
  same object in the same state. It also holds the symmetry group, the matching of a
  module on a counterpart, and the part's internal name.
- **Dirty** (`dirty.dfy`): the per-part dirty flags, a map from a part's
  persistent id to a flag, specified by `Marked` (set some ids, keep the rest).
- **Sync** (`sync.dfy`): what one propagating edit does. It covers `SetValue`
  writing a field and `ScaleFloatCurve` scaling a curve. It gives the
  counterparts written to, the step-by-step loop state `Run`, and the dirty
  flags afterwards.
- **LazyMaps** (`lazymaps.dfy`): the dictionaries whose reads store and return
  a default on a miss. These are the expand state and the per-module scratch
  strings and numbers.
- **WheelList** (`wheellist.dfy`): the wheel bases found on the parts, their
  ordering by title, and the selection reset on refresh.
- **Patch** (`patch.dfy`): the patch text as the sequence of lines appended to
  the string builder. It covers field lines, curve chunks, module blocks, part
  blocks and grouping by internal name.
- **Window** (`window.dfy`): the `WheelTunerWindow` class. Its fields are the
  window's dictionaries, toggle, selection and wheel list. Its methods change
  those fields step by step as the source does, and each is proved against the
  functions above.

## Model

| member | source | states |
|---|---|---|
| Host.GetSymmetryGroup | WheelTunerWindow/WheelTunerWindow.cs:593-607 | empty for a null root; otherwise the root first, then exactly its non-null counterparts in list order |
| Host.FindMatchingModuleOnPart | WheelTunerWindow/WheelTunerWindow.cs:609-633 | null for a null part or module; otherwise the first module with the same name and type, else the first with the same type; a result exists exactly when some module has the type |
| Host.FindModuleImplementing | WheelTunerWindow/WheelTunerWindow.cs:933-934 | the first module of the part implementing the kind, or none when no module does |
| Host.ModulesImplementing | WheelTunerWindow/WheelTunerWindow.cs:487 | exactly the non-null modules implementing the kind |
| Host.GetPartInternalName | WheelTunerWindow/WheelTunerWindow.cs:1083-1089 | the part-info name when non-empty, else the part's name; "" exactly for a null part or when both are missing or empty |
| Text.SortDistinct | WheelTunerWindow/WheelTunerWindow.cs:911-914 | the group keys: strictly ascending, each key of the input exactly once |
| Text.SplitJoin | WheelTunerWindow/WheelTunerWindow.cs:1010 | splitting at "\r\n" and "\n" loses nothing: rejoining the pieces with "\n" gives the text with "\r\n" normalised |
| Text.SplitTerminated | WheelTunerWindow/WheelTunerWindow.cs:1051-1065 | text written line by line with `AppendLine` splits back into those lines plus one trailing empty piece |
| Text.IntToStringRoundTrip | WheelTunerWindow/WheelTunerWindow.cs:1077 | an integer written in decimal parses back to the same integer |
| Dirty.IsDirty | WheelTunerWindow/WheelTunerWindow.cs:557-561 | a part reads as dirty only when it is non-null and has an entry, and then exactly as its stored flag |
| Dirty.IsDirtyMarked | WheelTunerWindow/WheelTunerWindow.cs:557-573 | after marking, a part reads as the flag when its id was marked, and as before otherwise |
| Dirty.MarkedTwice | WheelTunerWindow/WheelTunerWindow.cs:575-591 | marking two sets of ids in turn marks their union |
| Dirty.SymmetryScope | WheelTunerWindow/WheelTunerWindow.cs:575-591 | the ids set: none for a null root, the root's id with the toggle off, the ids of the whole symmetry group with it on |
| Dirty.SymmetryScopeFlags | WheelTunerWindow/WheelTunerWindow.cs:575-607 | the root and, with the toggle on, every group member and non-null counterpart get the flag; every part outside the group keeps its flag |
| Sync.NearlyEqual | WheelTunerWindow/WheelTunerWindow.cs:772-773 | two numbers are nearly equal exactly when they differ by less than 0.0005 in either direction; the test is symmetric |
| Sync.CounterpartTargetsExact | WheelTunerWindow/WheelTunerWindow.cs:649-655 | the loop visits exactly the group members other than the source part that have a matching module, each with that module |
| Sync.SyncTargets | WheelTunerWindow/WheelTunerWindow.cs:647-649 | no counterpart is written with the toggle off or without a source part; every one written lies in the group and is not the source part |
| Sync.ChangedModules | WheelTunerWindow/WheelTunerWindow.cs:656-661 | the modules whose write succeeded, no more of them than targets |
| Sync.ChangedConcat | WheelTunerWindow/WheelTunerWindow.cs:649-662 | the outcome over two runs of targets is that over the first followed by that over the second |
| Sync.RunOutcome | WheelTunerWindow/WheelTunerWindow.cs:643-662 | the loop's final state says whether any counterpart write succeeded, lists the modules written in order, and marks exactly their parts |
| Sync.SourceDirtyIffChanged | WheelTunerWindow/WheelTunerWindow.cs:665-666 | the source part ends up dirty exactly when some write succeeded or it was dirty already |
| Sync.ChangedCounterpartsDirty | WheelTunerWindow/WheelTunerWindow.cs:656-661 | every counterpart whose write succeeded is dirty afterwards |
| Sync.NothingChangedNothingMarked | WheelTunerWindow/WheelTunerWindow.cs:636-669 | when no write succeeds the dirty map is unchanged and nothing was written |
| Sync.CounterpartDirtyIffWritten | WheelTunerWindow/WheelTunerWindow.cs:649-662 | a counterpart ends up dirty exactly when its matched write succeeded or it was dirty before |
| LazyMaps.GetOrAdd | WheelTunerWindow/WheelTunerWindow.cs:1141-1146 | the read key is present afterwards and holds the value returned; no other entry changes |
| LazyMaps.GetOrAddHitMiss | WheelTunerWindow/WheelTunerWindow.cs:1141-1146 | a hit returns the stored value and changes nothing; a miss returns the default |
| LazyMaps.GetOrAddStable | WheelTunerWindow/WheelTunerWindow.cs:1141-1146 | a second read returns the first read's value whatever its default, and changes nothing |
| LazyMaps.GetOrAddAfterSet | WheelTunerWindow/WheelTunerWindow.cs:1141-1148 | a read after a write returns the written value |
| LazyMaps.GetOrAdd2 | WheelTunerWindow/WheelTunerWindow.cs:1154-1164 | the pair afterwards holds the value returned: the stored value on a hit, the default on a miss; every other (module, key) pair is unchanged |
| LazyMaps.Put2 | WheelTunerWindow/WheelTunerWindow.cs:1166-1172 | the pair holds the value afterwards; every other (module, key) pair is unchanged |
| LazyMaps.GetOrAdd2AfterPut2 | WheelTunerWindow/WheelTunerWindow.cs:1154-1172 | a scratch read after a scratch write returns the written value, whatever the default |
| LazyMaps.GetOrAdd2Stable | WheelTunerWindow/WheelTunerWindow.cs:1154-1164 | a second scratch read returns the first read's value whatever its default |
| WheelList.DiscoveredWheelBases | WheelTunerWindow/WheelTunerWindow.cs:483-488 | exactly the wheel-base modules of the non-null parts |
| WheelList.WithPart | WheelTunerWindow/WheelTunerWindow.cs:491 | exactly the bases that sit on a part |
| WheelList.InsertByTitle | WheelTunerWindow/WheelTunerWindow.cs:492 | inserting into a title-ordered list keeps it ordered and adds exactly the one base |
| WheelList.SortByTitle | WheelTunerWindow/WheelTunerWindow.cs:492 | the bases in ascending title order, null titles first, as a permutation of the input |
| WheelList.SelectionAfterRefresh | WheelTunerWindow/WheelTunerWindow.cs:495-496 | the selection is kept or reset to 0; it is kept whenever a listed base sits on the selected part, and a non-zero result always names a listed part |
| WheelList.SelectionAfterRefreshStable | WheelTunerWindow/WheelTunerWindow.cs:495-496 | a second refresh over the same list leaves the selection alone |
| WheelList.RefreshedList | WheelTunerWindow/WheelTunerWindow.cs:483-492 | the refreshed list is title-ordered, every entry sits on a part, and it holds exactly the wheel bases with a part found on the non-null parts, each as often as discovered |
| Patch.FieldLine | WheelTunerWindow/WheelTunerWindow.cs:1070-1081 | null exactly for a null module, an empty name or a missing field; otherwise a line starting with `@field = ` |
| Patch.FieldLineDecodes | WheelTunerWindow/WheelTunerWindow.cs:1077-1078 | the value text of a boolean is `true` or `false` as the value is; that of an int parses back to the int |
| Patch.CurveLines | WheelTunerWindow/WheelTunerWindow.cs:1051-1065 | the delete line, the `%name` line, `{`, one key line per keyframe in order, and `}` |
| Patch.BuildFloatCurvePatchChunk | WheelTunerWindow/WheelTunerWindow.cs:1042-1045 | null exactly when the module holds no animation curve under that name |
| Patch.CurveChunkLines | WheelTunerWindow/WheelTunerWindow.cs:1042-1068 | a curve chunk split back into lines gives exactly its curve lines plus one empty line |
| Patch.NonEmptyChunks | WheelTunerWindow/WheelTunerWindow.cs:1001 | exactly the chunks that are neither null nor empty |
| Patch.NonEmptyChunksAppend | WheelTunerWindow/WheelTunerWindow.cs:1001 | the filter keeps chunk order: the chunks of a joined list are those of its first half followed by those of its second |
| Patch.IndentRoundTrip | WheelTunerWindow/WheelTunerWindow.cs:1013-1014 | indentation can be undone, and a line indents to empty exactly when it is empty |
| Patch.ModuleBlockOmitted | WheelTunerWindow/WheelTunerWindow.cs:1001-1002 | a module block is omitted exactly when every chunk is null or empty |
| Patch.ModuleBlockBody | WheelTunerWindow/WheelTunerWindow.cs:1004-1019 | a non-empty block starts with the `@MODULE` header and `{`, ends with `}` and a blank line, and its body is the lines of the non-empty chunks, each indented by four spaces (empty lines stay empty) |
| Patch.AppendIndented | WheelTunerWindow/WheelTunerWindow.cs:1011-1015 | appends exactly the indented lines |
| Patch.AppendChunks | WheelTunerWindow/WheelTunerWindow.cs:1007-1016 | appends exactly the indented lines of every chunk, in order |
| Patch.AppendModuleBlock | WheelTunerWindow/WheelTunerWindow.cs:999-1020 | appends exactly the module block of the chunks |
| Patch.ModuleChunks | WheelTunerWindow/WheelTunerWindow.cs:933-983 | the field lines of the module's exported fields in order, followed by exactly one curve chunk, for the kind's curve, for steering and motor |
| Patch.AppendKindBlock | WheelTunerWindow/WheelTunerWindow.cs:933-983 | appends the block of the part's first module of the kind, and nothing when there is none |
| Patch.AppendPartBlock | WheelTunerWindow/WheelTunerWindow.cs:929-986 | appends exactly the part block: header, the seven module blocks in fixed order, footer |
| Patch.WithoutEmpty | WheelTunerWindow/WheelTunerWindow.cs:925 | exactly the non-empty names, still strictly sorted when the input was |
| Patch.GroupNames | WheelTunerWindow/WheelTunerWindow.cs:911-925 | the names that get a block: strictly ascending, exactly the non-empty internal names of the targets |
| Patch.GroupNamesMembers | WheelTunerWindow/WheelTunerWindow.cs:911-925 | a name heads a block exactly when it is non-empty and some target has it as its internal name |
| Patch.FirstWithNameFirst | WheelTunerWindow/WheelTunerWindow.cs:927 | each block is written from a target with that name, and no earlier target has it |
| Patch.AppendGroup | WheelTunerWindow/WheelTunerWindow.cs:921-987 | one pass of the group loop adds the block of a non-empty key and nothing for the empty key |
| Patch.AppendGroups | WheelTunerWindow/WheelTunerWindow.cs:916-987 | the header followed by one block per group name, in order |
| Patch.SingleTargetPatch | WheelTunerWindow/WheelTunerWindow.cs:911-987 | the patch for a single part is the header plus that part's block, or the header alone when its name is empty |
| Window.PartsOf | WheelTunerWindow/WheelTunerWindow.cs:900-902 | exactly the parts of the listed bases, no more of them than bases |
| Window.PartsOfAppend | WheelTunerWindow/WheelTunerWindow.cs:900-902 | the targets keep list order: the parts of a joined list are those of its first half followed by those of its second |
| Window.CollectParts | WheelTunerWindow/WheelTunerWindow.cs:898-903 | the all-wheels target loop collects exactly the parts of the listed bases, in list order |
| Window.FirstOnPart | WheelTunerWindow/WheelTunerWindow.cs:906 | none exactly when no listed base sits on the part; otherwise the first listed base that does |
| Window.PlaceholderIffNoSelection | WheelTunerWindow/WheelTunerWindow.cs:903-909 | the placeholder comes back exactly when a single wheel is wanted and no listed base sits on the selected part |
| Window.SelectedWheelPatch | WheelTunerWindow/WheelTunerWindow.cs:903-987 | the single-wheel patch is the header plus the block of the selected part, named by its internal name |
| Window.AllWheelsGroups | WheelTunerWindow/WheelTunerWindow.cs:896-925 | the all-wheels patch has one block per distinct non-empty internal name among the listed parts, in ascending order, no name twice |
| Window.WheelTunerWindow.constructor | WheelTunerWindow/WheelTunerWindow.cs:47-74 | a new window has symmetry on, no selection and every dictionary and the list empty |
| Window.WheelTunerWindow.OnDestroy | WheelTunerWindow/WheelTunerWindow.cs:87-94 | empties the scratch dictionaries, the expand and dirty maps and the wheel list |
| Window.WheelTunerWindow.MarkDirty | WheelTunerWindow/WheelTunerWindow.cs:563-567 | no effect for a null part; otherwise the part's flag is set to true |
| Window.WheelTunerWindow.ClearDirty | WheelTunerWindow/WheelTunerWindow.cs:569-573 | no effect for a null part; otherwise the part's flag is set to false |
| Window.WheelTunerWindow.MarkDirtyForPartAndSymmetry | WheelTunerWindow/WheelTunerWindow.cs:575-582 | the flags of the root's symmetry scope are set to true, all others kept |
| Window.WheelTunerWindow.ClearDirtyForPartAndSymmetry | WheelTunerWindow/WheelTunerWindow.cs:584-591 | the flags of the root's symmetry scope are set to false, all others kept |
| Window.WheelTunerWindow.SetGroupFlags | WheelTunerWindow/WheelTunerWindow.cs:580-581 | the symmetry loop sets the flag of every group member |
| Window.WheelTunerWindow.Propagate | WheelTunerWindow/WheelTunerWindow.cs:636-669 | returns whether any write succeeded and lists the written modules; the dirty map becomes the one `DirtyAfter` describes |
| Window.WheelTunerWindow.WriteCounterparts | WheelTunerWindow/WheelTunerWindow.cs:647-662 | the counterpart loop reports whether a counterpart write succeeded, lists those modules, and marks exactly their parts |
| Window.WheelTunerWindow.VisitMember | WheelTunerWindow/WheelTunerWindow.cs:651-661 | one pass of that loop advances the loop state by exactly one group member |
| Window.WheelTunerWindow.SetValue | WheelTunerWindow/WheelTunerWindow.cs:636-669 | false with no effect for a null module; otherwise the write propagated to the symmetry group as `Propagate` states |
| Window.WheelTunerWindow.ScaleFloatCurve | WheelTunerWindow/WheelTunerWindow.cs:806-840 | false with no effect for a null module or a scale nearly 1; otherwise the scaling propagated as `Propagate` states |
| Window.WheelTunerWindow.GetExpanded | WheelTunerWindow/WheelTunerWindow.cs:1141-1146 | behaves as `GetOrAdd` with default false |
| Window.WheelTunerWindow.SetExpanded | WheelTunerWindow/WheelTunerWindow.cs:1148 | stores the expand state for the part |
| Window.WheelTunerWindow.GetTempString | WheelTunerWindow/WheelTunerWindow.cs:1154-1164 | behaves as `GetOrAdd2` on the module's hash code (0 for null) |
| Window.WheelTunerWindow.SetTempString | WheelTunerWindow/WheelTunerWindow.cs:1166-1172 | behaves as `Put2` on the module's hash code |
| Window.WheelTunerWindow.GetTempFloat | WheelTunerWindow/WheelTunerWindow.cs:1174-1184 | behaves as `GetOrAdd2` on the module's hash code (0 for null) |
| Window.WheelTunerWindow.SetTempFloat | WheelTunerWindow/WheelTunerWindow.cs:1186-1192 | behaves as `Put2` on the module's hash code |
| Window.WheelTunerWindow.RefreshWheelList | WheelTunerWindow/WheelTunerWindow.cs:472-503 | with no parts the list is emptied and the selection kept; otherwise the title-ordered wheel bases of the parts, with the selection reset unless it names a listed part |
| Window.WheelTunerWindow.BuildModuleManagerPatch | WheelTunerWindow/WheelTunerWindow.cs:892-997 | the placeholder when a single wheel is wanted and none is selected; otherwise the header and one block per distinct non-empty internal name, in ascending order |

## Left out

- Drawing the window (IMGUI layout, sliders, text fields, curve preview), the
  toolbar button and its icons, the periodic auto-refresh driven by the clock,
  and the window id taken from the clock. They are UI and I/O.
- `GetCurrentParts` is host I/O. `RefreshWheelList` receives its result as a
  parameter.
- `RebuildWheel` and `InvokeIfExists` call into the game through reflection
  and are not modelled.
- FieldCardPanel.cs and RegisterToolbar.cs are not part of this model.
- The reflection helpers `SafeGet`, `SafeSet` and `Coerce` are abstracted.
  A field read is a lookup in the module's `fields`. A write succeeds exactly
  when the name is non-empty and in the module's `writable` set, whatever the
  value, because type coercion is not modelled.
- Window.WheelTunerWindow.SetValue: the "changed" report follows the code, a
  successful reflective write. It is not a comparison of the old and new
  values. The module values on the host are not updated in the model. The
  written modules are returned as a log instead.
- Window.WheelTunerWindow.ScaleFloatCurve: the keyframe arithmetic (value and
  tangents multiplied by the scale) is not modelled. Only which curves get
  scaled and the dirty flags are. Success means the curve field holds an
  animation curve, found either directly or through an inner field.
- Sync.NearlyEqual: the comparison is stated on exact reals. The single-precision
  rounding of `Mathf.Abs(a - b) < 0.0005f` is not modelled.
- Floating-point formatting (`0.###`, `0.######`, invariant culture) is not
  modelled. Float field values and keyframe numbers carry their
  already-formatted text.
- A module object that is not a `PartModule` is modelled as a module without a
  part. Such a module is written but never propagated and never marked.
- The line terminator that `AppendLine` adds and the final text concatenation
  are not modelled. The patch is the sequence of appended lines. The
  placeholder text's trailing newline is part of that terminator.
- WheelList.SortByTitle: titles are ordered by ordinal character order. The
  culture-sensitive default string comparer of `OrderBy` is not modelled. The
  stability of `OrderBy` (equal titles keep their order) is not stated.
- Patch.GroupNames: group keys are ordered by ordinal character order, not by
  the culture-sensitive default comparer.
- The `catch` paths are not modelled: the failure text of the patch builder,
  and the emptied list and log message of the refresh. The model has no
  exceptions.
- Window.WheelTunerWindow.BuildModuleManagerPatch: the `p == null` skip after
  `FirstOrDefault` on a group is not modelled, because a group is never empty.
- Logging through `Debug.Log` is not modelled.
