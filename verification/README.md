# Greenhouse: lifecycle, propagation, values, routing, mirroring, access

A Dafny model of the parts of Greenhouse that carry state or do string reasoning, with proofs of what they keep
over whole runs. `dafny verify dfyconfig.toml` checks the project.

| file | what it models |
|---|---|
| `Options.dfy`, `StringOps.dfy` | optional values, results, and the string operations that several components share |
| `Conditions.dfy` | status condition lists and what a history of calls leaves in them |
| `TeamRoleBinding.dfy` | the per-cluster propagation status of a TeamRoleBinding |
| `Lifecycle.dfy` | the API server, one reconcile pass as a function, and the pass as the source runs it on objects |
| `LifecycleRuns.dfy`, `StaleReleases.dfy` | all runs of passes and user edits: finalizer safety, progress of deletion, suspension; exactly when safety fails |
| `Propagation.dfy`, `Propagator.dfy` | tracked propagation of labels and annotations; the loops on the destination's maps |
| `Expressions.dfy` | `${...}` placeholders replaced one after the other, against replacing them all at once |
| `ExactValues.dfy`, `ExactBodies.dfy`, `ExactSubstitution.dfy` | exactly which values, bodies, templates and orders the loop of replacements is right for |
| `HelmValues.dfy` | the recursive merge of value maps |
| `OptionValues.dfy`, `Sorting.dfy` | layered option lists, the template command's value chain, the checksum buffer |
| `ExposedUrl.dfy`, `ServiceProxy.dfy` | exposed host names, route tables over runs of passes, request and redirect rewriting |
| `OciMirror.dfy` | image rewrites, replication targets, and the replication record over repeated passes |
| `Authorization.dfy` | group claims derived from teams, and the authorization decision on them |

## Conventions

- The clock, the network, Kubernetes calls, callbacks and map iteration order are inputs or nondeterministic choices.
- In `Lifecycle.dfy` a status patch is a JSON merge patch against the copy taken after the Get, so under section 2 of
  RFC 7396 a condition list that differs replaces the stored list as a whole. An update of finalizers is refused when
  the stored object has another resource version. User edits also happen between a pass's Get and its write.
- Callbacks and users are taken to leave the Delete and Suspended conditions and the cleanup finalizer to the
  controller (`LifecycleRuns.ForeignInput`, `ForeignEdit`).
- The Get of a pass sees all earlier writes of the controller itself, though the client it goes through may be a cache.
- JSON of the tracking annotation is a pair of functions whose round trip is the identity (`Propagation.Faithful`).

## Where the code differs from what one would expect

- A pass that suspends an object which is being deleted and no longer has the cleanup finalizer patches by name only. If
  that object goes away and is created again while the pass runs, the new object inherits the true Deleted condition and
  is later released without any cleanup (`StaleReleases.StaleReleaseHappens`). So the finalizer is safe in all runs
  exactly for the kinds that cannot be suspended (`StaleReleases.SafetyExactly`). For the others the store tells before a
  pass whether it can go wrong (`StaleReleases.ExposedExactly`); a run without such a store is safe
  (`StaleReleases.NeverExposedSafety`).
- `syncTargetAnnotations` treats an empty source value as absent when it deletes, but not when it writes. One call is
  "drop what was tracked, lay over what is selected" exactly when no tracked key is selected with an empty value
  (`Propagation.AnnotationOverlayExactly`), and a second call changes nothing exactly when every key selected with an
  empty value was tracked before (`Propagation.ApplyTwice`). Otherwise it undoes the first
  (`Propagation.EmptyValueUndone`); the third and later ones change nothing (`Propagation.SettlesAfterTwo`).
- `setOrAppendNameValue` keeps the `ValueFrom` of the first mention of a name, and `processSecretsToLiterals` runs last.
  So in the template command a cluster override of a value that the preset takes from a secret is lost
  (`OptionValues.SecretBeatsOverride`, `OptionValues.OverrideLostExactly`); `OptionValues.PrepareValues` says which value
  every name gets.
- Without an option list in the definition, `GetPluginOptionValuesForPlugin` merges the greenhouse values into the
  plugin's own slice, and so may overwrite `plugin.Spec.OptionValues` (`OptionValues.OwnListOverwritten`);
  `OptionValues.OwnListKept` says exactly when it
  does not.
- Successive `ReplaceAll` calls expand a placeholder that an earlier value brought in (`Expressions.ReinjectionBreaksIt`).
  The conditions under which the loop is the simultaneous substitution are exact: a value must hold no opening that is
  not closed at once, nor end in one (`Inert`, `ExactValues.ValueExactly`); a body must not hold one (`CleanBody`,
  `ExactBodies.BodyExactly`), or at least must not be cut (`Unnested`); and a placeholder that is not replaced last must
  have no dollar directly before it, unless its value is inert behind that dollar (`Settled`,
  `ExactSubstitution.LoopExactly`).

## Model

| member | source | states |
|---|---|---|
| `Conditions.StatusConditions.SetConditions` | api/meta/v1alpha1/conditions_types.go:97-122 | the nested loops turn the list into the one obtained by setting the conditions one by one, each stamped by its own clock reading if it has none |
| `Conditions.SetEventsEach` | api/meta/v1alpha1/conditions_types.go:97-101 | the conditions are set in the order given, each with its own clock reading |
| `Conditions.StatusConditions.SetCondition` | api/meta/v1alpha1/conditions_types.go:99-120 | one round, field by field: the first entry of the type becomes the new condition, with its old time if the status is the same; if there is none the condition is appended, stamped by the clock if it has no time |
| `Conditions.StatusConditions.GetConditionByType` | api/meta/v1alpha1/conditions_types.go:125-135 | returns the first entry of the type by position, or none |
| `Conditions.StatusConditions.RemoveCondition` | api/v1alpha1/catalog_types.go:243-247 | removes every entry of the type and keeps the others in order |
| `Conditions.RemoveEach` | api/v1alpha1/catalog_types.go:243-247 | removal goes entry by entry: it drops those of the type and keeps the others in order |
| `Conditions.SetLookup` | api/meta/v1alpha1/conditions_types.go:103-120 | what a lookup of any type finds after one set: other types untouched, an absent type appended, an existing one revised |
| `Conditions.RemoveLookup` | api/v1alpha1/catalog_types.go:243-247 | what a lookup of any type finds after a removal |
| `Conditions.HistoryUnique` | api/meta/v1alpha1/conditions_types.go:85-91 | after every history of sets and removals from the empty list there is at most one entry per type |
| `Conditions.HistoryLookup` | api/meta/v1alpha1/conditions_types.go:93-122 | after every history a type is present exactly when the history ends in an unbroken block of sets of one status; the entry is the last condition set, stamped by the first call of that block |
| `TeamRoleBinding.TeamRoleBinding.SetPropagationStatus` | api/v1alpha2/teamrolebinding_types.go:108-126 | field by field: the first entry of the cluster becomes the new RBACReady condition, keeping its time if the status is the same, or one is appended with the second clock reading |
| `TeamRoleBinding.TeamRoleBinding.RemovePropagationStatus` | api/v1alpha2/teamrolebinding_types.go:129-134 | removes the entries of the cluster and no others |
| `TeamRoleBinding.RemoveSnoc` | api/v1alpha2/teamrolebinding_types.go:129-134 | removal goes entry by entry and keeps the others in order |
| `TeamRoleBinding.HistoryUnique` | api/v1alpha2/teamrolebinding_types.go:108-134 | cluster names stay unique over every history |
| `TeamRoleBinding.SameAsSetConditions` | api/v1alpha2/teamrolebinding_types.go:108-134 | per cluster every history leaves exactly the condition and transition time that SetConditions would have left, although the entry is overwritten unconditionally |
| `TeamRoleBinding.ApplyOther` | api/v1alpha2/teamrolebinding_types.go:110-113 | a call leaves the entries of other clusters alone |
| `Lifecycle.RuntimeObject.SetCondition` | api/v1alpha1/plugin_types.go:313-315 | setting a condition changes nothing of the object but its condition list, as SetConditions does |
| `Lifecycle.RuntimeObject.RemoveCondition` | api/v1alpha1/plugin_types.go:328-332 | removing a condition changes nothing but the list |
| `Lifecycle.Controller.PatchStatusOf` | pkg/lifecycle/reconcile.go:247-257 | the status patch sends only the status fields that differ from the copy in the context, lands on whatever object has the name now, and fails if there is none |
| `Lifecycle.Controller.UpdateFinalizers` | pkg/lifecycle/reconcile.go:260-273 | a finalizer update is stored only if the object is still at the version that was read; a deleting object goes away with its last finalizer |
| `Lifecycle.Controller.Reconcile` | pkg/lifecycle/reconcile.go:88-154 | one pass on an object in memory, with its early returns, callbacks and final write, computes the store and report of the specification function |
| `LifecycleRuns.CallExactly` | pkg/lifecycle/reconcile.go:96-143 | which callback a pass makes, for every object and kind, told by finalizers, deletion mark, annotations and Delete condition of the object read |
| `LifecycleRuns.NothingRead` | pkg/lifecycle/reconcile.go:90-92 | a pass that reads no object makes no callback and no write; only a failing read is an error |
| `LifecycleRuns.UndisturbedPass` | pkg/lifecycle/reconcile.go:96-165 | what an undisturbed pass leaves: the finalizer added or taken off, the status of a callback persisted, its error returned, everything else of the object as it was |
| `LifecycleRuns.CallbackWritesStored` | pkg/lifecycle/reconcile.go:109-257 | an undisturbed pass stores every condition its callback wrote but for the one it writes itself |
| `LifecycleRuns.EditsContinue` | pkg/lifecycle/reconcile.go:90-94 | what user edits during a pass can do to the object that was read: it stays if it has the cleanup finalizer, and keeps finalizer, Delete and Suspended conditions |
| `LifecycleRuns.DeleteDecides` | pkg/lifecycle/reconcile.go:202-226 | a delete pass computes the true Deleted condition exactly when EnsureDeleted returned Success |
| `LifecycleRuns.CreateKeepsDelete` | pkg/lifecycle/reconcile.go:185-199 | a create pass keeps the Delete condition and computes no Suspended condition |
| `LifecycleRuns.SuspendKeepsDelete` | pkg/lifecycle/reconcile.go:109-125 | a suspension pass keeps the Delete condition |
| `LifecycleRuns.FalseClaimExactly` | pkg/lifecycle/reconcile.go:109-257 | a pass marks an object Deleted that neither was marked before nor was cleaned up by this pass if and only if it is a stale suspension patch |
| `LifecycleRuns.DeleteShown` | pkg/lifecycle/reconcile.go:145-226 | a persisted delete pass shows the verdict in status, reason and message of the Delete condition and the reconcile annotation in the status, whatever users did meanwhile |
| `LifecycleRuns.CreateShown` | pkg/lifecycle/reconcile.go:145-244 | a persisted create pass shows the verdict in the Ready condition (True, False or Unknown, with reason and message) if and only if it had conditions to send or users left that verdict standing; it stamps the annotation in any case |
| `LifecycleRuns.SuspendShown` | pkg/lifecycle/reconcile.go:109-125 | a persisted suspension pass shows its outcome in the Suspended condition if and only if its patch lands on the object that was read or had conditions to send |
| `LifecycleRuns.ClaimsAreTrue` | pkg/lifecycle/reconcile.go:127-165 | in every run without a stale suspension patch a stored true Deleted condition stems from a persisted successful cleanup of that very object |
| `LifecycleRuns.ReleaseNeedsClaim` | pkg/lifecycle/reconcile.go:127-137 | only an unsuspended pass that reads a deletion mark and the true Deleted condition takes the finalizer off |
| `LifecycleRuns.FinalizerSafety` | pkg/lifecycle/reconcile.go:127-257 | in every run without a stale suspension patch, whatever else users do and whichever callbacks and writes fail, the finalizer comes off an object that was not marked Deleted at the start only after an earlier pass whose EnsureDeleted returned Success for it and whose patch was persisted |
| `StaleReleases.StaleReleaseHappens` | pkg/lifecycle/reconcile.go:109-257 | for every suspendable kind a concrete run with a stale suspension patch in which an object is released that no pass cleaned up |
| `StaleReleases.SafetyExactly` | pkg/lifecycle/reconcile.go:109-257 | for a kind of objects, every release in every run follows a persisted successful cleanup of that object if and only if the kind cannot be suspended |
| `StaleReleases.ExposedExactly` | pkg/lifecycle/reconcile.go:109-257 | a pass that starts from a store can mark an object Deleted falsely if and only if the store holds a suspended deleting object with the true Deleted condition and without the cleanup finalizer |
| `StaleReleases.NeverExposedSafety` | pkg/lifecycle/reconcile.go:109-257 | in every run, of any kind, in which no pass starts from such a store, the finalizer comes off only after a persisted successful cleanup |
| `LifecycleRuns.RankFalls` | pkg/lifecycle/reconcile.go:109-273 | no step raises the deletion measure (2, 1, 0) of a deleting object, and an unsuspended pass with EnsureDeleted success that reports no API error lowers it |
| `LifecycleRuns.RunRank` | pkg/lifecycle/reconcile.go:109-273 | over any run the measure never rises and falls with every such pass until it is 0, so two of them anywhere release the object |
| `LifecycleRuns.SuspensionFreezes` | pkg/lifecycle/reconcile.go:109-125 | as long as passes find the object suspended, even while deleting and with or without the finalizer, EnsureCreated and EnsureDeleted are not called, no object is released and the measure of a finalized one is unchanged |
| `LifecycleRuns.FinalizerComesFirst` | pkg/lifecycle/reconcile.go:96-142 | in every run EnsureCreated and EnsureDeleted are called for an object only after an earlier pass has stored the finalizer on it; EnsureCreated exactly if the pass reads no deletion mark |
| `LifecycleRuns.SuspendedShown` | pkg/lifecycle/reconcile.go:109-191 | only a persisted suspension pass makes a Suspended condition appear, and every persisted create pass leaves none |
| `LifecycleRuns.ResumeClearsSuspended` | pkg/lifecycle/reconcile.go:109-191 | in every run a stored Suspended condition means a persisted suspension pass with no persisted create pass since |
| `Propagation.DeclarationRoundTrip` | pkg/lifecycle/propagation.go:140-170 | a comma-separated list of keys declares exactly those keys, in order |
| `Propagation.DeclarationPadded` | pkg/lifecycle/propagation.go:140-170 | any spaces around the keys are trimmed and empty entries skipped |
| `Propagation.DeclaresExactly` | pkg/lifecycle/propagation.go:221-248 | a declared key that ends in slash and star stands for exactly the keys that go on behind that slash, any other key for itself |
| `Propagation.SelectsExactly` | pkg/lifecycle/propagation.go:221-248 | a key is selected exactly when some declared key stands for it |
| `Propagation.AppliesExactly` | pkg/lifecycle/propagation.go:51-318 | what a call leaves under every label and annotation and in the tracking annotation, told by the declared keys, the tracked keys and what was there |
| `Propagation.AnnotationOverlayExactly` | pkg/lifecycle/propagation.go:264-279 | for annotations, one call is dropping the tracked keys and laying the selected ones over if and only if no tracked key is selected with an empty value |
| `Propagation.TrackedAfter` | pkg/lifecycle/propagation.go:81-318 | what is read back as tracked after a call is what the call applied |
| `Propagation.ApplyTwice` | pkg/lifecycle/propagation.go:47-89 | a second call leaves labels and tracked key sets alone, and the annotations if and only if every key selected with an empty value was tracked before the first |
| `Propagation.EmptyValueUndone` | pkg/lifecycle/propagation.go:47-279 | for every plain key a source and an empty destination on which the second call deletes the annotation that the first one wrote |
| `Propagation.SettlesAfterTwo` | pkg/lifecycle/propagation.go:47-89 | from the second call with the same source on nothing changes any more |
| `Propagation.FaithfulCodec` | pkg/lifecycle/propagation.go:283-308 | an encoding of the tracked keys whose decoding is its inverse exists |
| `Propagation.TrackedInHistory` | pkg/lifecycle/propagation.go:81-318 | after any sequence of calls the tracked keys are exactly those the last source selects |
| `Propagation.LabelHistory` | pkg/lifecycle/propagation.go:51-318 | after any sequence of calls on an untracked destination a label is the last source's if selected by it, absent if only an earlier source selected it, and the original otherwise |
| `Propagation.AnnotationHistory` | pkg/lifecycle/propagation.go:51-279 | the same for annotations, with the exact fate of a key selected with an empty value by two calls in a row |
| `Propagators.KeysToPropagate` | pkg/lifecycle/propagation.go:140-170 | the parsing loop yields the declared keys |
| `Propagators.SelectsSplit` | pkg/lifecycle/propagation.go:221-230 | a key is selected exactly when it is one of the exact keys or has one of the wildcard prefixes |
| `Propagators.Propagator.ContainsLabelToPropagate` | pkg/lifecycle/propagation.go:174-202 | true exactly when some source label is selected |
| `Propagators.Propagator.ContainsAnnotationToPropagate` | pkg/lifecycle/propagation.go:206-213 | true exactly when some declared annotation is present |
| `Propagators.Propagator.CopySelected` | pkg/lifecycle/propagation.go:217-250 | the two copying loops, in any map order, overlay exactly the selected labels and list exactly their keys |
| `Propagators.Propagator.CopyLabels` | pkg/lifecycle/propagation.go:95-365 | every label of the source that a given key stands for is copied, and no other label changes, also when source and destination are one object |
| `Propagators.Propagator.ApplyLabels` | pkg/lifecycle/propagation.go:118-327 | both branches drop the tracked labels and overlay the selected ones |
| `Propagators.Propagator.ApplyAnnotations` | pkg/lifecycle/propagation.go:129-336 | both branches overlay the selected annotations and delete the tracked ones that are undeclared, missing or empty |
| `Propagators.Propagator.Apply` | pkg/lifecycle/propagation.go:51-89 | label by label: copied exactly when a declared key stands for it, dropped when only tracked, else untouched; annotations and tracking as in `Propagation.Applies`; whatever the order of map iteration, also when source and destination are one object |
| `Expressions.RenderScan` | pkg/cel/expression_evaluator.go:20-38 | splitting a template into characters and leftmost placeholders loses nothing |
| `Expressions.MatchExactly` | pkg/cel/expression_evaluator.go:20-22 | the expression matches exactly where the text goes on with an opening, a non-empty body without closing brace and a closing brace, and finds that body |
| `Expressions.ScanRender` | pkg/cel/expression_evaluator.go:20-38 | scanning the text of a sequence of characters and placeholders gives that sequence back if and only if bodies are legal and a plain opening is closed at once or never |
| `Expressions.ReplaceExactly` | pkg/cel/expression_evaluator.go:64 | what one replacement does to the text of any template, token by token: it hits that placeholder and cuts every placeholder that ends in it |
| `Expressions.ReplaceOne` | pkg/cel/expression_evaluator.go:64 | if no other placeholder ends in it, replacing a placeholder's text hits exactly its occurrences |
| `Expressions.SequentialIsSimultaneous` | pkg/cel/expression_evaluator.go:49-65 | the loop of replacements, over any bodies in any order and with repeats, is one simultaneous substitution if no placeholder still there ends in the one being replaced and every value but that of the last entry is inert where it is put |
| `Expressions.AnyOrder` | pkg/cel/expression_evaluator.go:38-65 | under that condition any processing order of the matches of a text gives the simultaneous substitution |
| `Expressions.SimultaneousSplit` | pkg/cel/expression_evaluator.go:38-65 | replacing all at once, read from the left: text in front of a placeholder stays, the placeholder becomes its value, the rest is treated alike |
| `Expressions.NothingLeft` | pkg/cel/expression_evaluator.go:38-65 | after the loop over all matches no placeholder is left, if none is cut and all values are inert where they are put |
| `Expressions.ReplaceMatches` | pkg/cel/expression_evaluator.go:49-65 | the loop stops at the first placeholder that does not evaluate, and otherwise puts the evaluated values in, in match order, for every function that holds these values |
| `Expressions.ReinjectionBreaksIt` | pkg/cel/expression_evaluator.go:49-65 | a template and values for which the loop and the simultaneous substitution differ |
| `Expressions.EvaluateExpression` | pkg/cel/expression_evaluator.go:33-68 | fails exactly on the empty text or a placeholder that does not evaluate; otherwise the evaluated values replace the placeholders one after the other, and all at once if no placeholder is cut and values are inert where they are put |
| `ExactValues.ValueExactly` | pkg/cel/expression_evaluator.go:49-65 | a value is inert if and only if the loop over the matches is right on every clean template without a dollar directly before a placeholder, the other values being inert; it is inert behind a dollar if and only if that holds on every clean template |
| `ExactBodies.BodyExactly` | pkg/cel/expression_evaluator.go:20-65 | a body is clean if and only if the loop over the matches is right on every template whose other bodies are clean and without a dollar before a placeholder, for all inert values |
| `ExactBodies.NestBreaks` | pkg/cel/expression_evaluator.go:49-65 | an order in which a placeholder is cut by one that it ends in goes wrong for some values that are inert even behind a dollar |
| `ExactSubstitution.OrderExactly` | pkg/cel/expression_evaluator.go:49-65 | for any template and order: if no placeholder is cut and only the one replaced last has a dollar directly before it, the loop is right for all inert values; if it is, none is cut and none with a dollar before it comes before a clean body; if the body replaced last is clean, the first condition is necessary and sufficient |
| `ExactSubstitution.LoopExactly` | pkg/cel/expression_evaluator.go:38-65 | the same for any text and the order in which the source finds its matches |
| `ExactSubstitution.TemplateExactly` | pkg/cel/expression_evaluator.go:38-65 | a text has clean bodies and no dollar before a placeholder if and only if replacing any bodies in any order is right for all inert values; it has clean bodies if and only if that holds for all values that are inert behind a dollar |
| `ExactSubstitution.DollarHarmless` | pkg/cel/expression_evaluator.go:38-65 | a text with a dollar before a placeholder that is not replaced last, on which the loop is right for all inert values |
| `ExactSubstitution.DollarHarmful` | pkg/cel/expression_evaluator.go:38-65 | a text without any clean body on which such a dollar makes the loop wrong for an inert value |
| `HelmValues.MergeExact` | internal/helm/helm.go:266-281 | the merged value at every path: right leaves win, maps at the same path have the keys of both, a right map replaces a left leaf, and what the right map neither defines nor cuts comes from the left |
| `HelmValues.MergeIntoCover` | internal/helm/helm.go:266-281 | merging leaves the right map unchanged exactly when it covers the left one |
| `HelmValues.MergeLaws` | internal/helm/helm.go:266-281 | the empty map is an identity and a repeated right operand is absorbed |
| `HelmValues.MergeAssociative` | internal/helm/helm.go:266-281 | three maps associate if and only if, wherever the middle one has a leaf between two maps, the right map covers the left one |
| `HelmValues.NoClashAssociates` | internal/helm/helm.go:266-281 | in particular when no path has a leaf in the middle map and maps in both outer ones |
| `HelmValues.MergeMaps` | internal/helm/helm.go:266-281 | the recursive loop over the right map, in any key order, computes the merge |
| `HelmValues.MergeChartAndPluginOptionValues` | internal/helm/helm.go:297-304 | option values are merged over the chart's values |
| `HelmValues.GetValuesForHelmChart` | internal/helm/helm.go:112-294 | the route that copies the chart's values first renders with the same values as the one that does not |
| `OptionValues.SetOrAppendNameValue` | internal/helm/values.go:160-168 | replaces nothing but the value of the first entry of that name, in the shared array, or appends there or in a new array; what the shared array holds afterwards |
| `OptionValues.MergePluginOptionValues` | internal/helm/utils.go:49-57 | sets the values one after the other; the list merged into sees exactly those set before an append left its array |
| `OptionValues.OwnListKept` | internal/helm/utils.go:49-57 | a merge leaves the list it is given alone if and only if no name of it is last set, while the array is shared, to another value than its first entry has |
| `OptionValues.OwnListOverwritten` | internal/helm/values.go:27-33 | a plugin that sets a greenhouse value itself has it overwritten in its own list |
| `OptionValues.MergePluginAndPluginOptionValueSlice` | internal/helm/utils.go:25-46 | a sorted permutation of the defaults overlaid with the values in an array of its own, or the given slice itself if there is no option list |
| `OptionValues.DefaultsEach` | internal/helm/utils.go:37-41 | option by option, a default becomes one value under the option's name |
| `OptionValues.MergeDistinct` | internal/helm/utils.go:49-57 | merging yields distinct names exactly when the list merged into has them |
| `OptionValues.FindMerge` | internal/helm/utils.go:49-57 | the entry of a name after a merge depends only on its entry before and the values merged |
| `OptionValues.LayeringMeaning` | internal/helm/values.go:160-168 | through any number of layers the value of a name is that of its last mention and the rest of its entry that of its first |
| `OptionValues.GetPluginOptionValuesForPlugin` | internal/helm/values.go:21-35 | defaults, plugin values and greenhouse values: distinct names, each entry layered in that order; the plugin's own list is untouched with an option list, and otherwise holds what was merged while its array was shared |
| `OptionValues.ProcessSecretsToLiterals` | internal/cmd/plugin_template.go:299-312 | entry by entry, a value from a secret becomes the JSON of secret name, slash and key, and the others stay |
| `OptionValues.GetClusterSpecificOverrides` | internal/cmd/plugin_template.go:290-297 | the overrides of the first entry for the cluster by position, none if there is none |
| `OptionValues.PrepareValues` | internal/cmd/plugin_template.go:180-207 | through defaults, greenhouse, preset and override layers names stay distinct, and each gets the value of its last mention unless its first mention refers to a secret |
| `OptionValues.LayeredRendered` | internal/cmd/plugin_template.go:180-207 | a name without secrets is rendered with the value of its last mention in the highest of the layers overrides, preset, greenhouse, defaults that mentions it |
| `OptionValues.OverrideLostExactly` | internal/cmd/plugin_template.go:180-207 | the last value of a name is not the one rendered if and only if its first mention takes it from a secret with another literal |
| `OptionValues.SecretBeatsOverride` | internal/cmd/plugin_template.go:193-203 | layers in which the cluster override of a value taken from a secret is lost |
| `OptionValues.ResolvePluginOptionValueFrom` | internal/helm/helm.go:306-328 | option by option, a value from a secret gets the JSON of what the secret holds and everything else stays, on a fresh copy; fails exactly when a secret is missing |
| `OptionValues.ChecksumIgnoresOrder` | internal/helm/helm.go:388-419 | for distinct names every permutation of the options gives the same checksum input |
| `OptionValues.PayloadExactly` | internal/helm/helm.go:402-414 | what is hashed of an option: its value, else its expression, else the parts of its external reference |
| `OptionValues.BufferEach` | internal/helm/helm.go:399-416 | the buffer goes option by option: the name, then what is hashed of it |
| `OptionValues.ChecksumChanges` | internal/helm/helm.go:388-419 | changing one option under the same name changes the checksum input exactly when what is hashed of it changes |
| `OptionValues.ChecksumBuffer` | internal/helm/helm.go:390-419 | for distinct names the buffer is determined by the options whatever the unstable sort does, and the plugin's list is unchanged |
| `Sorting.SortCanonical` | internal/helm/helm.go:395-398 | every sorted permutation of a list with distinct keys is the same list |
| `Sorting.LessExactly` | internal/helm/helm.go:396-398 | the order of names: a proper beginning comes first, else the smaller character where the two first differ |
| `ExposedUrl.ClusterRoundTrip` | internal/common/url.go:18-46 | the host of a generated URL parses back to its cluster if and only if the name has no dot, no double dash, no final dash and no protocol in front; then its first label fits 63 octets exactly for names of at most 54 characters |
| `ExposedUrl.UrlParts` | internal/common/url.go:21-30 | the parts of a generated URL by position: https, cluster, dashes and hash up to the first dot, namespace up to the next, domain |
| `ExposedUrl.ExtractExactly` | internal/common/url.go:33-46 | a host yields a cluster exactly when the cluster stands in front of the first two dashes, these lie before the first dot, and there is a dot but no protocol |
| `ServiceProxy.TableKeys` | cmd/service-proxy/proxy.go:140-309 | a URL is routed exactly when a plugin of the cluster that is not being deleted exposes it as a service |
| `ServiceProxy.TableValue` | cmd/service-proxy/proxy.go:140-161 | it is routed as the last such plugin says |
| `ServiceProxy.RouteIs` | cmd/service-proxy/proxy.go:150-161 | a route goes to the API server's scheme and host on the path that addresses the service, and carries its name and namespace |
| `ServiceProxy.RunTables` | cmd/service-proxy/proxy.go:93-166 | after any run a cluster's table is the one of its last pass that did not fail; failed passes and other clusters change nothing, a deleted secret removes exactly its own |
| `ServiceProxy.StepExactly` | cmd/service-proxy/proxy.go:93-166 | what one pass does to every cluster's table, told by the secret, the connection and the plugin list it meets |
| `ServiceProxy.ProxyManager.PluginsForCluster` | cmd/service-proxy/proxy.go:293-309 | the plugins of the cluster that are not being deleted, in order |
| `ServiceProxy.FilteredTable` | cmd/service-proxy/proxy.go:136-309 | filtering first and indexing afterwards gives the table of the whole list |
| `ServiceProxy.ProxyManager.Reconcile` | cmd/service-proxy/proxy.go:93-166 | a pass, with its services in any order, makes the specified change to the cluster map and touches no other cluster; with a debug host the new table holds under each replaced URL a service of the last plugin that files one there |
| `ServiceProxy.ProxyManager.RewriteRequest` | cmd/service-proxy/proxy.go:214-268 | the outgoing request, or none for an unknown host or route |
| `ServiceProxy.RewriteExactly` | cmd/service-proxy/proxy.go:230-262 | the outgoing scheme, host, cluster and path, told by the route filed under https and the host; no request without one |
| `ServiceProxy.StripNothing` | cmd/service-proxy/proxy.go:91-278 | stripping leaves a text alone exactly when it holds no API server proxy segment |
| `ServiceProxy.MatchBackend` | cmd/service-proxy/proxy.go:91-158 | the expression matches every backend path up to and including the slash after it |
| `ServiceProxy.MatchIsBackend` | cmd/service-proxy/proxy.go:91 | whatever the expression matches is a backend path and the slash after it |
| `ServiceProxy.BackendPathInjective` | cmd/service-proxy/proxy.go:152-158 | services whose names hold no colon or slash share a backend path if and only if they agree in namespace, name, port and use of https |
| `ServiceProxy.BackendReads` | cmd/service-proxy/proxy.go:152-158 | a backend path by position: the namespace up to the next slash, then the service name, with https in front for that protocol, and the port in decimal notation |
| `ServiceProxy.LocationRoundTrip` | cmd/service-proxy/proxy.go:245-282 | a redirect to a path behind the backend path, with a front that takes no slash from it, loses exactly the backend path if and only if neither the front nor the path holds a further proxy segment |
| `ServiceProxy.OriginHoldsNone` | cmd/service-proxy/proxy.go:91-282 | a scheme and host are such a front and hold no proxy segment |
| `ServiceProxy.FirstPathTaken` | cmd/service-proxy/proxy.go:91-282 | of two backend paths that follow each other directly only the first is taken off |
| `ServiceProxy.EndToEnd` | cmd/service-proxy/proxy.go:93-282 | after any run, a request to a generated host goes to the API server's host on the path that addresses namespace, name and port of the service, followed by its own path, and a redirect there reaches the client as that path, also with the API server's scheme and host in front |
| `OciMirror.BuildReplicationRef` | internal/ocimirror/image_mirror.go:86-101 | the mirror loop, in any map order, yields the primary-mirror reference |
| `OciMirror.EnsureImageReplicated` | internal/ocimirror/image_mirror.go:67-83 | fetches exactly the image's target if it has one, and reports a failure exactly when that fetch fails |
| `OciMirror.TargetExactly` | internal/ocimirror/image_mirror.go:67-195 | what is fetched for an image, by registry, repository and tag of its reference |
| `OciMirror.TargetKeepsTag` | internal/ocimirror/image_mirror.go:183-195 | what is fetched for an upstream image lies on the primary mirror under the mirror's path with the image's own repository and tag |
| `OciMirror.RewriteThenReplicate` | internal/ocimirror/image_mirror.go:77-195 | rewriting and then replicating fetches the same reference as replicating the original if and only if the base domain is not itself an upstream key |
| `OciMirror.BuildImageTransformations` | internal/ocimirror/image_mirror.go:106-131 | one transform per original, each from a mirrored image, and one for every mirrored image |
| `OciMirror.TransformExactly` | internal/ocimirror/image_mirror.go:106-195 | an image has a transform if and only if its mirrored reference is not empty, and it is the image's own |
| `OciMirror.TransformApplied` | internal/ocimirror/image_mirror.go:106-131 | a transform applied to its image gives the mirror's domain and path with the same repository and tag, and replicating that fetches what the image itself would, if and only if the domain is no upstream key |
| `OciMirror.ExtractUniqueOCIRefs` | internal/ocimirror/ociref.go:18-33 | the matches, strictly sorted and without duplicates |
| `OciMirror.UnionExactly` | internal/ocimirror/image_mirror.go:139-149 | the references of all manifest sets together |
| `OciMirror.ReplicateOCIArtifacts` | internal/ocimirror/image_mirror.go:136-180 | the record is strictly sorted and holds exactly what was on record or fetched with success among the references found; every reference found is exactly one of recorded, reported as an error, or not mirrored |
| `OciMirror.RecordProvenance` | internal/ocimirror/image_mirror.go:136-180 | over repeated passes a reference is on record if and only if some pass fetched it with success and every later one found it; none of those fetched it again |
| `Authorization.LabelClaimIsSupport` | internal/dex/connector.go:146-152 | a label claim reads as a support-group claim for a team exactly when it comes from the support-group label of that team |
| `Authorization.ClaimIsSupport` | internal/dex/connector.go:130-179 | a user has the support-group claim of a team exactly through a mapped team with the label, or a kept upstream group of that very text |
| `Authorization.ClaimsExactly` | internal/dex/connector.go:130-179 | who gets which claim, read off teams, labels, admin group and upstream groups |
| `Authorization.GetGroups` | internal/dex/connector.go:130-179 | claim by claim, the index and append loops yield exactly: the organization, what teams mapped to upstream groups give, the admin role for members of the admin group, kept upstream groups; they fail exactly when a read fails |
| `Authorization.GetSupportGroups` | cmd/authz/authorization.go:95-136 | for a service account its owner, for everyone else exactly the names behind the claim prefix, with the reason for refusing an unknown or unowned account and a user without claims |
| `Authorization.AccountExactly` | cmd/authz/authorization.go:218-228 | the user names that stand for a service account, by concatenation |
| `Authorization.RefusalReasons` | cmd/authz/authorization.go:138-216 | which check refuses a request and with which reason |
| `Authorization.IdentityRefused` | cmd/authz/authorization.go:95-136 | why an identity is refused before the resource is looked at |
| `Authorization.UserAccess` | cmd/authz/authorization.go:95-216 | with claims from the same teams, a user that is no service account may access a resource exactly when its owner exists, carries the support-group label with the value true, and its identity provider group is among the user's upstream groups |
| `Authorization.AccountAccess` | cmd/authz/authorization.go:99-228 | a service account may access exactly the resources of its own owner, if that is a support group |

## Left out

- Kubernetes, Helm, Flux, crane, CEL and Dex library code, YAML and JSON syntax, SHA-256 and reference parsing: parameters or results of the modelled functions.
- Several controllers working on the same object at once: one pass runs at a time, as controller-runtime guarantees.
- `ctrl.Result`, requeue delays, logging and metrics: they carry no state.
- Unknown fields of an object's status: a status is its condition list and `lastReconciledAt`.
- `strvals.ParseJSON` in `ConvertFlatValuesToHelmValues`: the converted map, or its failure, is an input of the merge.
- Slices that start inside their array: every slice here starts at the first element, as in the modelled code.
- `GetGreenhouseValues` and `ConvertToPluginOptionValues`: they only build the layers, which are arbitrary lists here.
- Injectivity of the option checksum: names and values are concatenated without separators, so it does not hold.
- LifecycleRuns.FinalizerSafety: for runs without a stale suspension patch, because with one the property is false; `StaleReleases` has the exact conditions.
- LifecycleRuns.ClaimsAreTrue: likewise; `LifecycleRuns.FalseClaimExactly` says which passes make a false claim.
- Authorization.UserAccess: team names are distinct and label keys hold no colon, as Kubernetes guarantees.
- ServiceProxy.ProxyManager.Reconcile: with a debug host, which of two services of one plugin counts when their replaced URLs coincide is left open, as map iteration order decides it.
- OciMirror.ReplicateOCIArtifacts: the matches of the image pattern are an input; the pattern never matches an empty reference.
- Expressions.AnyOrder: for one given template and one given choice of all values the condition is sufficient; that it is exact is stated uniformly, over the values, bodies, templates and orders that share the rest, since two different replacements may happen to give the same text.
- ExactSubstitution.LoopExactly: an if and only if for texts whose last match has a clean body; for the others a necessary and a sufficient condition, between which both happens (`DollarHarmless`, `DollarHarmful`), depending on whether the text around the dollars can be completed to a body.
- ServiceProxy.LocationRoundTrip: not for fronts that end in a proxy segment without its last slash, which take that of the backend path; `ServiceProxy.FirstPathTaken` shows what happens there.
- `validateRegistryMirrorConfig`, the SCIM client, artifact download, RBAC tables, builders and command line plumbing: short checks or I/O.
