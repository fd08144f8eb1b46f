# TAAppCore navigation and review-request core, in Dafny

This project models three parts of the TAAppCore Swift package and proves properties about them.

- **Step navigation.** `NavigationPathManager` keeps three things: the runtime navigation path, an ordered table of predefined steps, and a table of custom (runtime-pushed) steps. It also keeps a set of predefined steps whose removal is deferred, and an optional completion binding.
  - `updateViews(with:)` reconciles a newly declared step list with the user's current position.
  - `nextStep()` pushes the step after the current one, or marks the flow completed.
  - The `path` observer drops custom steps that were left behind and runs the deferred-removal pass.

  A step is identified by a `NavigationStepIdentifier`: a kind (declaration site, or an explicit id), the type of its view, and its optional source location. Its custom `==` and `hash(into:)` are modelled and proved consistent. Views are a type parameter. Runtime types become `TypeToken` values.
- **Step builders.** `OnboardingFlowBuilder` and `JourneyBuilder` are result builders. They build a list of elements stamped with their source locations. Their equality ignores the view.
- **Review prompts.**
  - `ReviewRequestStore` keeps a last-prompt date and two counters in a user-defaults domain, modelled as an in-memory map.
  - `ReviewRequestStrategy` values are predicates over the store: `always`, `never`, `after(days:launches:events:)` and `all(_:)`.
  - `ReviewRequester` counts launches and events, and prompts only when its strategy agrees. Its analytics events and the system request are recorded in an effect log.

Files and modules:

| file | module | models |
|---|---|---|
| `wrappers.dfy` | `Wrappers` | `Option`, `Result`, `Outcome` |
| `ordered_dictionary.dfy` | `OrderedDictionary` | the operations of swift-collections' `OrderedDictionary` that the manager uses |
| `step_identifier.dfy` | `StepIdentifier` | `NavigationStepIdentifier.swift` |
| `navigation_path_manager.dfy` | `Navigation` | `NavigationPathManager.swift` (class `NavigationPathManager`) |
| `result_builder.dfy` | `ResultBuilder` | `flatMap`, which both builders' `buildBlock` use |
| `onboarding_flow_builder.dfy` | `OnboardingFlowBuilder` | `OnboardingFlowBuilder.swift` |
| `journey_builder.dfy` | `JourneyBuilder` | `JourneyBuilder.swift` |
| `review_request_store.dfy` | `ReviewRequestStore` | `ReviewRequestStore.swift` (class `ReviewRequestStore`) |
| `review_request_strategy.dfy` | `ReviewRequestStrategy` | `ReviewRequestStrategy.swift` |
| `review_requester.dfy` | `ReviewRequester` | `ReviewRequester.swift` (class `ReviewRequester`) |

How the model is built:

- **Imperative code stays imperative.** The manager, the store and the requester are classes whose methods update their fields.
- **Each loop of the manager is proved against a specification function:**
  - `Reconcile` and `InsertNew` specify `updateViews`;
  - `PendingRemovalPass` specifies `reapplyPendingRemovalsIfNeeded`;
  - `CompleteWhenEmpty` and `MarkCompleted` specify the completion binding;
  - `NextKey` specifies `nextStep`.

  Lemmas then state what those functions guarantee.
- **Swift's `preconditionFailure` on a duplicate identifier** is modelled as an error result: `Failure`/`Fail` carrying the offending identifier.

## Model

| member | source | states |
|---|---|---|
| `StepIdentifier.IsCustom` | Sources/TAAppCore/Navigation/NavigationStepIdentifier.swift:66 | a step is custom iff it has no source location |
| `StepIdentifier.HashableEquals` | Sources/TAAppCore/Navigation/NavigationStepIdentifier.swift:124-131 | `equals`: same dynamic type and equal payload (final types only; see Left out) |
| `StepIdentifier.KindEquals` | Sources/TAAppCore/Navigation/NavigationStepIdentifier.swift:44-53 | two site kinds are equal, two id kinds compare their ids, mixed kinds differ (see `KindEqualsCases`) |
| `StepIdentifier.Equals` | Sources/TAAppCore/Navigation/NavigationStepIdentifier.swift:88-101 | kinds, view types and source locations all agree (see `EqualsIsStructural`) |
| `StepIdentifier.HashInputs` | Sources/TAAppCore/Navigation/NavigationStepIdentifier.swift:103-117 | the values `hash(into:)` combines, in order: view type, then the location or the id's type and value |
| `StepIdentifier.Hash` | Sources/TAAppCore/Navigation/NavigationStepIdentifier.swift:103-117 | the hash value is the hasher applied to `HashInputs` (see `HashConsistentWithEquals`) |
| `StepIdentifier.FromElement` | Sources/TAAppCore/Navigation/NavigationStepIdentifier.swift:70-82 | view type and source location are copied; the kind is the `NavigationStepIdentifiable` id if present, else the `Identifiable` id, else the declaration site |
| `StepIdentifier.CustomIffNoSourceLocation` | Sources/TAAppCore/Navigation/NavigationStepIdentifier.swift:66 | a step is custom exactly when it was created without a source location |
| `StepIdentifier.KindEqualsCases` | Sources/TAAppCore/Navigation/NavigationStepIdentifier.swift:44-53 | two declaration-site kinds are equal; two id kinds are equal iff the ids have the same dynamic type and equal values (`Hashable.equals`, lines 124-131); mixed kinds are never equal |
| `StepIdentifier.EqualsIsStructural` | Sources/TAAppCore/Navigation/NavigationStepIdentifier.swift:88-101 | identifier `==` holds iff kind, view type and source location (file, line, column) all agree, or both locations are absent |
| `StepIdentifier.EqualsIsEquivalence` | Sources/TAAppCore/Navigation/NavigationStepIdentifier.swift:88-101 | identifier `==` is reflexive, symmetric and transitive |
| `StepIdentifier.HashConsistentWithEquals` | Sources/TAAppCore/Navigation/NavigationStepIdentifier.swift:103-117 | equal identifiers feed the hasher the same values, so their hashes agree for every hasher |
| `StepIdentifier.ExplicitIdDoesNotOverrideLocation` | Sources/TAAppCore/Navigation/NavigationStepIdentifier.swift:88-117 | two steps with the same explicit id and view type but different locations are unequal, though they always hash alike |
| `StepIdentifier.DeclarationSiteIdentity` | Sources/TAAppCore/Navigation/NavigationStepIdentifier.swift:70-101 | two steps without ids are the same step iff their view types and declaration sites agree |
| `OrderedDictionary.FirstIndex` | Sources/TAAppCore/Navigation/NavigationPathManager.swift:113 | `firstIndex(of:)` is absent iff the key does not occur; otherwise it is the position of the key's first occurrence |
| `OrderedDictionary.FirstIndexUnique` | Sources/TAAppCore/Navigation/NavigationPathManager.swift:113 | in a duplicate-free key list, `firstIndex(of: keys[i])` is `i` |
| `OrderedDictionary.OrderedDict.Get` | Sources/TAAppCore/Navigation/NavigationPathManager.swift:195 | a lookup succeeds exactly for the keys of the table and returns the value stored for the key |
| `OrderedDictionary.OrderedDict.FirstKey` | Sources/TAAppCore/Navigation/NavigationPathManager.swift:187-189 | `elements.first?.key` is absent iff the table is empty, else the first key |
| `OrderedDictionary.OrderedDict.Assign` | Sources/TAAppCore/Navigation/NavigationPathManager.swift:123 | subscript assignment keeps keys distinct, replaces the value of a present key in place, and appends a new key at the end |
| `OrderedDictionary.OrderedDict.RemoveValue` | Sources/TAAppCore/Navigation/NavigationPathManager.swift:103 | `removeValue(forKey:)` removes the key, keeps the others in order and keeps their values |
| `OrderedDictionary.OrderedDict.RemoveAll` | Sources/TAAppCore/Navigation/NavigationPathManager.swift:145-151 | removing a set of keys keeps the remaining keys in order with their values |
| `OrderedDictionary.RemoveAllTwice` | Sources/TAAppCore/Navigation/NavigationPathManager.swift:145-151 | removing two sets one after the other equals removing their union |
| `OrderedDictionary.RemoveSuffixIsPrefix` | Sources/TAAppCore/Navigation/NavigationPathManager.swift:101-103 | removing every key from position `n` on leaves exactly the first `n` entries |
| `Navigation.LastNonCustomIndex` | Sources/TAAppCore/Navigation/NavigationPathManager.swift:180 | `last(where: { !$0.isCustom })`: the result is a non-custom step with only custom steps after it; none iff every step is custom |
| `Navigation.CurrentStep` | Sources/TAAppCore/Navigation/NavigationPathManager.swift:179-184 | `currentStep`: the last non-custom path step, else the first predefined key (its properties are `CurrentStepIsLastNonCustom`) |
| `Navigation.CurrentStepIsLastNonCustom` | Sources/TAAppCore/Navigation/NavigationPathManager.swift:179-189 | the current step is the last non-custom step of the path; if there is none, the first predefined key, or none for an empty table |
| `Navigation.CurrentIndex` | Sources/TAAppCore/Navigation/NavigationPathManager.swift:141-143 | the current step's index in the table; none iff there is no current step or it is not a predefined key |
| `Navigation.PendingRemovalPass` | Sources/TAAppCore/Navigation/NavigationPathManager.swift:140-152 | the deferred-removal pass keeps the table duplicate-free |
| `Navigation.PendingRemovalPassEffect` | Sources/TAAppCore/Navigation/NavigationPathManager.swift:140-152 | the pass keeps every key at or before the current one in order; a key leaves the table iff it is pending and after the current one; the pending set only shrinks; no pending key is left after the current one |
| `Navigation.PendingRemovalPassIdempotent` | Sources/TAAppCore/Navigation/NavigationPathManager.swift:140-152 | a second pass at the same position changes nothing |
| `Navigation.AfterIffLaterIndex` | Sources/TAAppCore/Navigation/NavigationPathManager.swift:146-147 | in a duplicate-free table a key lies after position `i` iff its `firstIndex` exceeds `i` |
| `Navigation.RemoveAfterKeepsPrefix` | Sources/TAAppCore/Navigation/NavigationPathManager.swift:145-151 | removing keys that lie after position `i` leaves positions up to `i` untouched |
| `Navigation.DoomedGrows` | Sources/TAAppCore/Navigation/NavigationPathManager.swift:145-151 | the set of visited pending keys that lie after the current step grows by the visited key exactly when that key lies after it |
| `Navigation.ReapplyStart` | Sources/TAAppCore/Navigation/NavigationPathManager.swift:145-151 | before the loop over the pending set nothing is visited or removed |
| `Navigation.ReapplyAdvance` | Sources/TAAppCore/Navigation/NavigationPathManager.swift:145-151 | one iteration removes the visited key from table and pending set exactly when its index is past the current one, keeping the loop's progress statement |
| `Navigation.ReapplyVisitLater` | Sources/TAAppCore/Navigation/NavigationPathManager.swift:146-149 | a visited key that lay after the current step is still found after it and is removed |
| `Navigation.ReapplyVisitEarlier` | Sources/TAAppCore/Navigation/NavigationPathManager.swift:146-149 | a visited key that did not lie after the current step is not found after it and stays |
| `Navigation.ReapplyDone` | Sources/TAAppCore/Navigation/NavigationPathManager.swift:145-151 | once every pending key is visited, the state is `PendingRemovalPass` of the state before the loop |
| `Navigation.ReapplyStep` | Sources/TAAppCore/Navigation/NavigationPathManager.swift:146-149 | during the pass, a key's index in the shrinking table exceeds the current index iff it did in the original table |
| `Navigation.Identifiers` | Sources/TAAppCore/Navigation/NavigationPathManager.swift:99 | `newIdentifiers` lists the identifier of every element, in order |
| `Navigation.DeclaresIffListed` | Sources/TAAppCore/Navigation/NavigationPathManager.swift:105 | `newIdentifiers.contains(k)` iff some declared element has identifier `k` |
| `Navigation.InsertNew` | Sources/TAAppCore/Navigation/NavigationPathManager.swift:111-124 | on success the insertion loop keeps the table duplicate-free and keeps the existing keys as a prefix in order (views: `InsertNewKeepsViews`, `InsertNewStoresFirstDeclaredView`) |
| `Navigation.InsertNewCoversDeclared` | Sources/TAAppCore/Navigation/NavigationPathManager.swift:111-124 | on success every declared identifier is in the table |
| `Navigation.InsertNewAppendsDeclared` | Sources/TAAppCore/Navigation/NavigationPathManager.swift:111-124 | on success every appended key was declared |
| `Navigation.InsertNewKeepsViews` | Sources/TAAppCore/Navigation/NavigationPathManager.swift:111-124 | on success the views of the keys already present are untouched |
| `Navigation.InsertNewStoresFirstDeclaredView` | Sources/TAAppCore/Navigation/NavigationPathManager.swift:110-123 | on success an identifier not yet in the table is stored with the view of the first element declaring it; later repeats do not replace it |
| `Navigation.TailFirstDeclarations` | Sources/TAAppCore/Navigation/NavigationPathManager.swift:110-123 | a first declaration after the head, of an identifier missing from the table, stays a first declaration of the rest, missing from the table once the head is handled |
| `Navigation.InsertNewFailureIsDuplicate` | Sources/TAAppCore/Navigation/NavigationPathManager.swift:113-118 | a failure names an identifier that was declared |
| `Navigation.LaterKeyRedeclaredFails` | Sources/TAAppCore/Navigation/NavigationPathManager.swift:113-118 | redeclaring a key that sits after the current index always fails (`preconditionFailure`) |
| `Navigation.RepeatedNewIdentifierFails` | Sources/TAAppCore/Navigation/NavigationPathManager.swift:111-124 | when the table reaches past the current index, an identifier declared twice and new to the table fails |
| `Navigation.DistinctIdentifiersNeverConflict` | Sources/TAAppCore/Navigation/NavigationPathManager.swift:111-124 | pairwise distinct declared identifiers never fail when no key lies after the current index |
| `Navigation.NewKeysMembers` | Sources/TAAppCore/Navigation/NavigationPathManager.swift:111-124 | the keys the insertion loop appends are exactly the declared identifiers missing from the table |
| `Navigation.NewKeysOfFresh` | Sources/TAAppCore/Navigation/NavigationPathManager.swift:111-124 | pairwise distinct identifiers, none present, are all new and keep their order |
| `Navigation.InsertNewAppendsInOrder` | Sources/TAAppCore/Navigation/NavigationPathManager.swift:111-124 | on success the table is the old keys followed by the declared identifiers not yet present, each once, in the order of their first declaration |
| `Navigation.InsertNewFreshInOrder` | Sources/TAAppCore/Navigation/NavigationPathManager.swift:111-124 | pairwise distinct identifiers, none in the table, are all accepted and appended in declaration order |
| `Navigation.NewKeysStep` | Sources/TAAppCore/Navigation/NavigationPathManager.swift:111-124 | handling one identifier moves it from the new keys to the keys built so far |
| `Navigation.InsertNewStep` | Sources/TAAppCore/Navigation/NavigationPathManager.swift:112-122 | an iteration that does not trip adds the identifier if it is missing and goes on with the rest |
| `Navigation.ConflictFirst` | Sources/TAAppCore/Navigation/NavigationPathManager.swift:113-116 | the first identifier trips the check iff it is already in the table after the current index |
| `Navigation.ConflictShift` | Sources/TAAppCore/Navigation/NavigationPathManager.swift:111-124 | a conflict at a later identifier is a conflict of the rest once the first is handled |
| `Navigation.ConflictsAfterFirst` | Sources/TAAppCore/Navigation/NavigationPathManager.swift:111-124 | when the first identifier passes, the conflicts and the first conflict are those of the rest |
| `Navigation.InsertNewFailsAtFirstConflict` | Sources/TAAppCore/Navigation/NavigationPathManager.swift:111-124 | the insertion loop fails iff some identifier is found after the current index in the keys built before it, and names the first such identifier |
| `Navigation.EmptyTableConflict` | Sources/TAAppCore/Navigation/NavigationPathManager.swift:94-124 | on an empty table with index 0, an identifier conflicts iff it repeats an earlier identifier other than the first |
| `Navigation.EmptyTableConflicts` | Sources/TAAppCore/Navigation/NavigationPathManager.swift:94-124 | the same for every index, and for the first conflict |
| `Navigation.EmptyTableFailsIffLaterRepeat` | Sources/TAAppCore/Navigation/NavigationPathManager.swift:94-124 | on an empty table the first configuration fails iff an identifier other than the first is declared twice, and names the first such repeat |
| `Navigation.RepeatOfFirstStepAcceptedOnEmptyTable` | Sources/TAAppCore/Navigation/NavigationPathManager.swift:94-124 | on an empty table, a declaration whose only repeats are of its first identifier is accepted, and the table lists each identifier once, in declaration order |
| `Navigation.RepeatOfLaterStepRejectedOnEmptyTable` | Sources/TAAppCore/Navigation/NavigationPathManager.swift:94-124 | on an empty table, any repeat of an identifier other than the first fails, naming that repeat or an earlier one |
| `Navigation.Retired` | Sources/TAAppCore/Navigation/NavigationPathManager.swift:104-107 | a key is retired iff it is kept and not in `newIdentifiers` |
| `Navigation.DropNext` | Sources/TAAppCore/Navigation/NavigationPathManager.swift:102-108 | one iteration of the first loop keeps the table duplicate-free |
| `Navigation.DropLoop` | Sources/TAAppCore/Navigation/NavigationPathManager.swift:101-109 | the first loop of `updateViews` keeps the table duplicate-free at every iteration |
| `Navigation.DropEntry` | Sources/TAAppCore/Navigation/NavigationPathManager.swift:101-109 | before the first loop nothing is deleted or made pending |
| `Navigation.DropAdvance` | Sources/TAAppCore/Navigation/NavigationPathManager.swift:102-108 | one more iteration of the first loop takes the direct statement at `index` to the one at `index + 1` |
| `Navigation.DropStep` | Sources/TAAppCore/Navigation/NavigationPathManager.swift:102-103 | an iteration past the current index deletes its key and retires nothing |
| `Navigation.KeepStep` | Sources/TAAppCore/Navigation/NavigationPathManager.swift:104-107 | an iteration at or before the current index deletes nothing and makes its key pending iff `newIdentifiers` does not list it |
| `Navigation.DropExit` | Sources/TAAppCore/Navigation/NavigationPathManager.swift:101-109 | after the last iteration the direct statement is `DropAfter` |
| `Navigation.DropLoopSoFar` | Sources/TAAppCore/Navigation/NavigationPathManager.swift:101-109 | after `index` iterations, the keys from the kept count up to `index` are deleted and the unlisted kept keys among the first `index` are pending |
| `Navigation.DropLoopResult` | Sources/TAAppCore/Navigation/NavigationPathManager.swift:101-109 | the whole first loop leaves the first `min(current+1, count)` keys, and adds exactly the unlisted ones among them to the pending set |
| `Navigation.DropAfter` | Sources/TAAppCore/Navigation/NavigationPathManager.swift:101-109 | the first loop's result keeps the table duplicate-free |
| `Navigation.InsertInto` | Sources/TAAppCore/Navigation/NavigationPathManager.swift:111-124 | the second loop's result keeps the table duplicate-free |
| `Navigation.Reconcile` | Sources/TAAppCore/Navigation/NavigationPathManager.swift:94-124 | the two loops of `updateViews`, from the current index (0 by default), keep the table duplicate-free |
| `Navigation.ReconcileParts` | Sources/TAAppCore/Navigation/NavigationPathManager.swift:94-124 | a successful `updateViews` is the insertion loop run on the kept prefix, with the unlisted kept keys added to the pending set |
| `Navigation.KeptCount` | Sources/TAAppCore/Navigation/NavigationPathManager.swift:101-104 | no more keys are kept than the table has |
| `Navigation.ReconcileKeepsUpToCurrent` | Sources/TAAppCore/Navigation/NavigationPathManager.swift:94-124 | on success the keys at or before the current index stay first, in order, and every declared identifier is in the table |
| `Navigation.ReconcileDropsLaterKeys` | Sources/TAAppCore/Navigation/NavigationPathManager.swift:101-124 | on success a key after the current index survives iff it is declared again |
| `Navigation.LaterKeyReinsertedIffDeclared` | Sources/TAAppCore/Navigation/NavigationPathManager.swift:101-124 | a key after the kept prefix is in the table after insertion iff it is declared |
| `Navigation.ReconcileDefersUndeclared` | Sources/TAAppCore/Navigation/NavigationPathManager.swift:101-109 | on success a kept key that is no longer declared stays in the table and becomes pending; nothing else joins the pending set |
| `Navigation.ReconcileViews` | Sources/TAAppCore/Navigation/NavigationPathManager.swift:94-124 | on success a key at or before the current index keeps its old view even if redeclared, and any other declared identifier (new, or a later key declared again) gets the view of its first declaring element |
| `Navigation.NextKey` | Sources/TAAppCore/Navigation/NavigationPathManager.swift:157-164 | `nextStep`'s target is the key right after the current step; it is absent iff there is no current step, the current step is not predefined, or it is the last key |
| `Navigation.NextKeyFollowsCurrent` | Sources/TAAppCore/Navigation/NavigationPathManager.swift:158-163 | in a duplicate-free table, if the current step is `keys[i]` the target is `keys[i+1]`, or none when `i` is last |
| `Navigation.AppendDropsNoCustom` | Sources/TAAppCore/Navigation/NavigationPathManager.swift:45-47 | appending a step to the path leaves no custom step behind |
| `Navigation.MarkCompleted` | Sources/TAAppCore/Navigation/NavigationPathManager.swift:160 | `isCompleted?.wrappedValue = true` sets a present binding to true and leaves an absent one absent |
| `Navigation.CompleteWhenEmpty` | Sources/TAAppCore/Navigation/NavigationPathManager.swift:133-137 | the binding only ever changes to true, does so when the table is empty, and never changes while steps remain |
| `Navigation.EmptySteps` | Sources/TAAppCore/Navigation/NavigationPathManager.swift:55 | the initial table is empty and well formed |
| `Navigation.NavigationPathManager.constructor` | Sources/TAAppCore/Navigation/NavigationPathManager.swift:41-57 | a new manager has an empty path, empty tables, no pending removals and the given binding |
| `Navigation.NavigationPathManager.Create` | Sources/TAAppCore/Navigation/NavigationPathManager.swift:62-72 | `init` then `configure`: fails iff reconciling with an empty table fails; on success the state is the reconciled table after the pass, and the binding is updated |
| `Navigation.NavigationPathManager.ReapplyPendingRemovalsIfNeeded` | Sources/TAAppCore/Navigation/NavigationPathManager.swift:140-152 | the loop over the pending set leaves exactly `PendingRemovalPass` of the old state |
| `Navigation.NavigationPathManager.RemovePendingAfter` | Sources/TAAppCore/Navigation/NavigationPathManager.swift:145-151 | the loop over the pending set at a known current index leaves exactly `PendingRemovalPass` of the old state |
| `Navigation.NavigationPathManager.UpdateIsCompleteBinding` | Sources/TAAppCore/Navigation/NavigationPathManager.swift:133-137 | the binding becomes `CompleteWhenEmpty` of the old binding |
| `Navigation.NavigationPathManager.UpdateViews` | Sources/TAAppCore/Navigation/NavigationPathManager.swift:75-128 | fails iff `Reconcile` fails, naming the same identifier and leaving the binding as it was; on success the table is `Reconcile`'s result after the pass, and the binding is updated |
| `Navigation.NavigationPathManager.ApplyDeclaration` | Sources/TAAppCore/Navigation/NavigationPathManager.swift:94-124 | the two loops together compute `Reconcile` of the old state, or its failure |
| `Navigation.NavigationPathManager.DropStepsAfter` | Sources/TAAppCore/Navigation/NavigationPathManager.swift:101-109 | the first loop leaves exactly `DropAfter` of the old state: the first `min(current+1, count)` entries, with the unlisted ones among them added to the pending set |
| `Navigation.NavigationPathManager.InsertDeclared` | Sources/TAAppCore/Navigation/NavigationPathManager.swift:111-124 | the second loop computes `InsertInto` of the old state (`InsertNew` on the table, pending set untouched), or its failure |
| `Navigation.NavigationPathManager.SetPath` | Sources/TAAppCore/Navigation/NavigationPathManager.swift:41-50 | assigning an equal path changes nothing else; otherwise exactly the custom steps left behind lose their views and the pass runs for the new position |
| `Navigation.NavigationPathManager.NextStep` | Sources/TAAppCore/Navigation/NavigationPathManager.swift:157-164 | with no target, the path and tables stay as they were and the binding is set to true; otherwise exactly the target is appended, no custom step is dropped, and the pass runs |
| `Navigation.NavigationPathManager.PushStep` | Sources/TAAppCore/Navigation/NavigationPathManager.swift:163 | `path.append`: exactly the step is appended, no custom step is dropped, and the removal pass runs from the new current index |
| `Navigation.NavigationPathManager.FirstStepFlowView` | Sources/TAAppCore/Navigation/NavigationPathManager.swift:171-176 | the view stored for the first key, present iff the table is non-empty (`None` is the empty view) |
| `Navigation.NavigationPathManager.ViewFor` | Sources/TAAppCore/Navigation/NavigationPathManager.swift:192-202 | a custom identifier is looked up only among custom steps, any other only among predefined steps |
| `ResultBuilder.Flatten` | Sources/TAAppCore/Navigation/Onboarding/OnboardingFlowBuilder.swift:78-80 | `flatMap { $0 }` has the sum of the children's lengths |
| `ResultBuilder.FlattenAppend` | Sources/TAAppCore/Navigation/Onboarding/OnboardingFlowBuilder.swift:78-80 | flattening distributes over concatenation of children |
| `ResultBuilder.TotalLengthAppend` | Sources/TAAppCore/Navigation/Onboarding/OnboardingFlowBuilder.swift:78-80 | total length distributes over concatenation of children |
| `ResultBuilder.FlattenSingleton` | Sources/TAAppCore/Navigation/Onboarding/OnboardingFlowBuilder.swift:78-80 | a single child is its own flattening |
| `ResultBuilder.FlattenDropsEmpty` | Sources/TAAppCore/Navigation/Onboarding/OnboardingFlowBuilder.swift:78-87 | an empty child leaves no trace |
| `ResultBuilder.FlattenIndex` | Sources/TAAppCore/Navigation/Onboarding/OnboardingFlowBuilder.swift:78-80 | element `j` of child `i` sits at the combined length of the earlier children plus `j` |
| `ResultBuilder.FlattenMembership` | Sources/TAAppCore/Navigation/Onboarding/OnboardingFlowBuilder.swift:78-80 | an element is in the block iff it is in some child |
| `OnboardingFlowBuilder.BuildExpression` | Sources/TAAppCore/Navigation/Onboarding/OnboardingFlowBuilder.swift:68-75 | one element carrying the view and the given file, line and column |
| `OnboardingFlowBuilder.BuildBlock` | Sources/TAAppCore/Navigation/Onboarding/OnboardingFlowBuilder.swift:78-80 | the block's length is the sum of the children's lengths |
| `OnboardingFlowBuilder.BuildOptional` | Sources/TAAppCore/Navigation/Onboarding/OnboardingFlowBuilder.swift:83-87 | `nil` gives no element; a present branch is kept as is |
| `OnboardingFlowBuilder.BuildArray` | Sources/TAAppCore/Navigation/Onboarding/OnboardingFlowBuilder.swift:105-107 | `for` loops always fail with "Unavailable" |
| `OnboardingFlowBuilder.BuildFinalResult` | Sources/TAAppCore/Navigation/Onboarding/OnboardingFlowBuilder.swift:110-112 | the wrapper holds exactly the elements |
| `OnboardingFlowBuilder.Locations` | Sources/TAAppCore/Navigation/Onboarding/OnboardingFlowBuilder.swift:116-128 | the declaration sites of the elements, position by position |
| `OnboardingFlowBuilder.BuildEitherFirst` | Sources/TAAppCore/Navigation/Onboarding/OnboardingFlowBuilder.swift:90-92 | `buildEither(first:)` returns its input (see `PassThroughBuilders`) |
| `OnboardingFlowBuilder.BuildEitherSecond` | Sources/TAAppCore/Navigation/Onboarding/OnboardingFlowBuilder.swift:95-97 | `buildEither(second:)` returns its input (see `PassThroughBuilders`) |
| `OnboardingFlowBuilder.BuildLimitedAvailability` | Sources/TAAppCore/Navigation/Onboarding/OnboardingFlowBuilder.swift:100-102 | `buildLimitedAvailability` returns its input (see `PassThroughBuilders`) |
| `OnboardingFlowBuilder.ElementEquals` | Sources/TAAppCore/Navigation/Onboarding/OnboardingFlowBuilder.swift:116-122 | element `==` compares file, line and column, not the view (see `ElementEqualityIsLocation`) |
| `OnboardingFlowBuilder.WrapperEquals` | Sources/TAAppCore/Navigation/Onboarding/OnboardingFlowBuilder.swift:124-128 | wrapper `==` compares the element arrays position by position (see `WrapperEqualityIsLocations`) |
| `OnboardingFlowBuilder.PassThroughBuilders` | Sources/TAAppCore/Navigation/Onboarding/OnboardingFlowBuilder.swift:90-112 | the either, limited-availability and final-result builders return their elements unchanged |
| `OnboardingFlowBuilder.BlockPreservesOrder` | Sources/TAAppCore/Navigation/Onboarding/OnboardingFlowBuilder.swift:78-80 | element `j` of child `i` sits after all earlier children's elements |
| `OnboardingFlowBuilder.BlockOfTwo` | Sources/TAAppCore/Navigation/Onboarding/OnboardingFlowBuilder.swift:78-80 | a block of two children is their concatenation |
| `OnboardingFlowBuilder.AbsentOptionalVanishes` | Sources/TAAppCore/Navigation/Onboarding/OnboardingFlowBuilder.swift:78-87 | an `if` whose condition is false contributes nothing to its block |
| `OnboardingFlowBuilder.ElementEqualityIsLocation` | Sources/TAAppCore/Navigation/Onboarding/OnboardingFlowBuilder.swift:116-122 | element `==` holds iff the declaration sites agree; it is reflexive and symmetric, and ignores the view |
| `OnboardingFlowBuilder.WrapperEqualityIsLocations` | Sources/TAAppCore/Navigation/Onboarding/OnboardingFlowBuilder.swift:124-128 | wrapper `==` holds iff both list the same declaration sites in the same order |
| `OnboardingFlowBuilder.ToStepElement` | Sources/TAAppCore/Navigation/Onboarding/OnboardingFlowBuilder.swift:46-53 | the element as the manager sees it carries its view and its declaration site |
| `OnboardingFlowBuilder.StepElements` | Sources/TAAppCore/Navigation/Onboarding/OnboardingFlowBuilder.swift:44-60 | the wrapper's elements as the manager receives them, position by position |
| `OnboardingFlowBuilder.DistinctSitesDistinctIdentifiers` | Sources/TAAppCore/Navigation/Onboarding/OnboardingFlowBuilder.swift:46-53 | a built step is never custom; steps declared at different sites get different identifiers |
| `OnboardingFlowBuilder.DistinctSitesConfigureCleanly` | Sources/TAAppCore/Navigation/Onboarding/OnboardingFlowBuilder.swift:68-75 | a flow whose steps were declared at pairwise different sites configures a fresh manager without a duplicate failure |
| `JourneyBuilder.BuildExpression` | Sources/TAAppCore/Navigation/JourneyBuilder.swift:65-72 | one element carrying the view and the given file, line and column |
| `JourneyBuilder.BuildBlock` | Sources/TAAppCore/Navigation/JourneyBuilder.swift:75-77 | the block's length is the sum of the children's lengths |
| `JourneyBuilder.BuildOptional` | Sources/TAAppCore/Navigation/JourneyBuilder.swift:80-83 | `nil` gives no element; a present branch is kept as is |
| `JourneyBuilder.BuildArray` | Sources/TAAppCore/Navigation/JourneyBuilder.swift:101-103 | `for` loops always fail with "Unavailable" |
| `JourneyBuilder.BuildFinalResult` | Sources/TAAppCore/Navigation/JourneyBuilder.swift:106-108 | the wrapper holds exactly the elements |
| `JourneyBuilder.Locations` | Sources/TAAppCore/Navigation/JourneyBuilder.swift:112-124 | the declaration sites of the elements, position by position |
| `JourneyBuilder.BuildEitherFirst` | Sources/TAAppCore/Navigation/JourneyBuilder.swift:86-88 | `buildEither(first:)` returns its input (see `PassThroughBuilders`) |
| `JourneyBuilder.BuildEitherSecond` | Sources/TAAppCore/Navigation/JourneyBuilder.swift:91-93 | `buildEither(second:)` returns its input (see `PassThroughBuilders`) |
| `JourneyBuilder.BuildLimitedAvailability` | Sources/TAAppCore/Navigation/JourneyBuilder.swift:96-98 | `buildLimitedAvailability` returns its input (see `PassThroughBuilders`) |
| `JourneyBuilder.ElementEquals` | Sources/TAAppCore/Navigation/JourneyBuilder.swift:112-118 | element `==` compares file, line and column, not the view (see `ElementEqualityIsLocation`) |
| `JourneyBuilder.WrapperEquals` | Sources/TAAppCore/Navigation/JourneyBuilder.swift:120-124 | wrapper `==` compares the element arrays position by position (see `WrapperEqualityIsLocations`) |
| `JourneyBuilder.PassThroughBuilders` | Sources/TAAppCore/Navigation/JourneyBuilder.swift:86-108 | the either, limited-availability and final-result builders return their elements unchanged |
| `JourneyBuilder.BlockPreservesOrder` | Sources/TAAppCore/Navigation/JourneyBuilder.swift:75-77 | element `j` of child `i` sits after all earlier children's elements |
| `JourneyBuilder.BlockOfTwo` | Sources/TAAppCore/Navigation/JourneyBuilder.swift:75-77 | a block of two children is their concatenation |
| `JourneyBuilder.AbsentOptionalVanishes` | Sources/TAAppCore/Navigation/JourneyBuilder.swift:75-83 | an `if` whose condition is false contributes nothing to its block |
| `JourneyBuilder.ElementEqualityIsLocation` | Sources/TAAppCore/Navigation/JourneyBuilder.swift:112-118 | element `==` holds iff the declaration sites agree; it is reflexive and symmetric, and ignores the view |
| `JourneyBuilder.WrapperEqualityIsLocations` | Sources/TAAppCore/Navigation/JourneyBuilder.swift:120-124 | wrapper `==` holds iff both list the same declaration sites in the same order |
| `ReviewRequestStore.IntegerFor` | Sources/TAAppCore/ReviewRequest/ReviewRequestStore.swift:36 | `integer(forKey:)` is the stored integer, or 0 when the key is absent |
| `ReviewRequestStore.DateFor` | Sources/TAAppCore/ReviewRequest/ReviewRequestStore.swift:31 | `object(forKey:) as? Date` is present iff a date is stored under the key |
| `ReviewRequestStore.SnapshotOf` | Sources/TAAppCore/ReviewRequest/ReviewRequestStore.swift:30-43 | the three values are read under their three keys |
| `ReviewRequestStore.WriteDate` | Sources/TAAppCore/ReviewRequest/ReviewRequestStore.swift:32 | setting a date stores it; setting `nil` removes the key (see `WriteDateIsolated`) |
| `ReviewRequestStore.KeysDistinct` | Sources/TAAppCore/ReviewRequest/ReviewRequestStore.swift:14-21 | the three keys are pairwise different and all start with `reviewRequester.` |
| `ReviewRequestStore.FreshSnapshot` | Sources/TAAppCore/ReviewRequest/ReviewRequestStore.swift:30-43 | an empty domain reads as no prompt date and both counters at 0 |
| `ReviewRequestStore.WriteLaunchesIsolated` | Sources/TAAppCore/ReviewRequest/ReviewRequestStore.swift:35-38 | writing the launch counter changes no other value |
| `ReviewRequestStore.WriteEventsIsolated` | Sources/TAAppCore/ReviewRequest/ReviewRequestStore.swift:40-43 | writing the event counter changes no other value |
| `ReviewRequestStore.WriteDateIsolated` | Sources/TAAppCore/ReviewRequest/ReviewRequestStore.swift:30-33 | writing (or clearing) the prompt date changes no other value |
| `ReviewRequestStore.Step` | Sources/TAAppCore/ReviewRequest/ReviewRequestStore.swift:46-53 | a launch or event adds exactly 1 to its counter and keeps the date; a prompt sets the date to now and both counters to 0 |
| `ReviewRequestStore.CountersOnlyResetByPrompt` | Sources/TAAppCore/ReviewRequest/ReviewRequestStore.swift:46-53 | without a prompt the date stays, the counters never decrease, and each grows by exactly the number of its operations |
| `ReviewRequestStore.PromptForgetsHistory` | Sources/TAAppCore/ReviewRequest/ReviewRequestStore.swift:49-53 | after a prompt, the values depend only on the operations that followed it |
| `ReviewRequestStore.ReviewRequestStore.constructor` | Sources/TAAppCore/ReviewRequest/ReviewRequestStore.swift:25-27 | the store reads the given defaults domain |
| `ReviewRequestStore.ReviewRequestStore.LastPromptDate` | Sources/TAAppCore/ReviewRequest/ReviewRequestStore.swift:30-31 | the getter reads the stored date |
| `ReviewRequestStore.ReviewRequestStore.LaunchesSincePrompt` | Sources/TAAppCore/ReviewRequest/ReviewRequestStore.swift:35-36 | the getter reads the launch counter |
| `ReviewRequestStore.ReviewRequestStore.EventsSincePrompt` | Sources/TAAppCore/ReviewRequest/ReviewRequestStore.swift:40-41 | the getter reads the event counter |
| `ReviewRequestStore.ReviewRequestStore.SetLastPromptDate` | Sources/TAAppCore/ReviewRequest/ReviewRequestStore.swift:32 | the setter writes the date, or removes it for `nil`, and nothing else changes |
| `ReviewRequestStore.ReviewRequestStore.SetLaunchesSincePrompt` | Sources/TAAppCore/ReviewRequest/ReviewRequestStore.swift:37 | the setter writes the launch counter and nothing else changes |
| `ReviewRequestStore.ReviewRequestStore.SetEventsSincePrompt` | Sources/TAAppCore/ReviewRequest/ReviewRequestStore.swift:42 | the setter writes the event counter and nothing else changes |
| `ReviewRequestStore.ReviewRequestStore.RecordLaunch` | Sources/TAAppCore/ReviewRequest/ReviewRequestStore.swift:46 | the new values are `Step(old, RecordLaunch)` |
| `ReviewRequestStore.ReviewRequestStore.RecordEvent` | Sources/TAAppCore/ReviewRequest/ReviewRequestStore.swift:47 | the new values are `Step(old, RecordEvent)` |
| `ReviewRequestStore.ReviewRequestStore.RecordPromptShown` | Sources/TAAppCore/ReviewRequest/ReviewRequestStore.swift:49-53 | the new values are `Step(old, RecordPromptShown(now))` |
| `ReviewRequestStrategy.AlwaysAndNever` | Sources/TAAppCore/ReviewRequest/ReviewRequestStrategy.swift:29-30 | `always` agrees to every request, `never` to none |
| `ReviewRequestStrategy.AnyReviewRequestStrategy.ShouldRequestReview` | Sources/TAAppCore/ReviewRequest/ReviewRequestStrategy.swift:22-24 | a strategy decides by calling its closure |
| `ReviewRequestStrategy.Always` | Sources/TAAppCore/ReviewRequest/ReviewRequestStrategy.swift:29 | `always` agrees to every request (see `AlwaysAndNever`) |
| `ReviewRequestStrategy.Never` | Sources/TAAppCore/ReviewRequest/ReviewRequestStrategy.swift:30 | `never` agrees to none (see `AlwaysAndNever`) |
| `ReviewRequestStrategy.DayCondition` | Sources/TAAppCore/ReviewRequest/ReviewRequestStrategy.swift:34-37 | `dayOK` |
| `ReviewRequestStrategy.LaunchCondition` | Sources/TAAppCore/ReviewRequest/ReviewRequestStrategy.swift:38 | `launchOK` |
| `ReviewRequestStrategy.EventCondition` | Sources/TAAppCore/ReviewRequest/ReviewRequestStrategy.swift:39 | `eventOK` |
| `ReviewRequestStrategy.After` | Sources/TAAppCore/ReviewRequest/ReviewRequestStrategy.swift:32-42 | `after` is the conjunction of the three conditions (see `AfterConditions`) |
| `ReviewRequestStrategy.All` | Sources/TAAppCore/ReviewRequest/ReviewRequestStrategy.swift:44-48 | `all` agrees iff every strategy does (see `AllIffEvery`) |
| `ReviewRequestStrategy.AllSatisfy` | Sources/TAAppCore/ReviewRequest/ReviewRequestStrategy.swift:46 | `allSatisfy`, one strategy at a time (see `AllSatisfyIffEvery`) |
| `ReviewRequestStrategy.AfterConditions` | Sources/TAAppCore/ReviewRequest/ReviewRequestStrategy.swift:32-42 | `after` agrees iff (days ≤ 0, or no prompt yet, or at least `days` whole days have passed, counting 0 when the calendar gives none) and the launch threshold is 0 or reached and the event threshold is 0 or reached |
| `ReviewRequestStrategy.AfterDefaultsAlwaysHold` | Sources/TAAppCore/ReviewRequest/ReviewRequestStrategy.swift:32 | `after()` with its default zeros agrees to every request |
| `ReviewRequestStrategy.AfterMonotone` | Sources/TAAppCore/ReviewRequest/ReviewRequestStrategy.swift:34-40 | more launches, more events and more elapsed days never turn agreement into refusal |
| `ReviewRequestStrategy.AllIffEvery` | Sources/TAAppCore/ReviewRequest/ReviewRequestStrategy.swift:44-48 | `all` agrees iff every one of its strategies does |
| `ReviewRequestStrategy.AllSatisfyIffEvery` | Sources/TAAppCore/ReviewRequest/ReviewRequestStrategy.swift:46 | `allSatisfy` holds iff the predicate holds at every index |
| `ReviewRequestStrategy.AllEmptyAndSingle` | Sources/TAAppCore/ReviewRequest/ReviewRequestStrategy.swift:44-48 | `all([])` always agrees; `all([s])` behaves as `s` |
| `ReviewRequestStrategy.AllOfConcatenation` | Sources/TAAppCore/ReviewRequest/ReviewRequestStrategy.swift:44-48 | `all(a + b)` agrees iff `all(a)` and `all(b)` both do |
| `ReviewRequestStrategy.NeverVetoesAll` | Sources/TAAppCore/ReviewRequest/ReviewRequestStrategy.swift:30-48 | `never` anywhere inside `all` refuses every request |
| `ReviewRequester.DefaultStrategy` | Sources/TAAppCore/ReviewRequest/ReviewRequester.swift:24 | the default strategy is `after(days: 120, launches: 15, events: 5)` (see `DefaultStrategyThresholds`) |
| `ReviewRequester.PromptEffects` | Sources/TAAppCore/ReviewRequest/ReviewRequester.swift:48-54 | with analytics, the trigger event comes first and the shown event last; the system request happens iff a foreground scene is active |
| `ReviewRequester.DefaultStrategyThresholds` | Sources/TAAppCore/ReviewRequest/ReviewRequester.swift:24 | the default strategy agrees iff there were at least 15 launches and 5 events, and either no prompt yet or at least 120 days since it |
| `ReviewRequester.DefaultStrategyThrottles` | Sources/TAAppCore/ReviewRequest/ReviewRequester.swift:24 | after a prompt, the default strategy refuses until 15 launches have been recorded |
| `ReviewRequester.ReviewRequester.constructor` | Sources/TAAppCore/ReviewRequest/ReviewRequester.swift:22-30 | the requester keeps its store, strategy (default `after(120, 15, 5)`) and analytics, with an empty effect log |
| `ReviewRequester.ReviewRequester.ApplicationDidLaunch` | Sources/TAAppCore/ReviewRequest/ReviewRequester.swift:35-37 | records one launch and emits nothing; no prompt is attempted, whatever its doc comment says |
| `ReviewRequester.ReviewRequester.RecordPositiveEvent` | Sources/TAAppCore/ReviewRequest/ReviewRequester.swift:40-42 | records one positive event and emits nothing |
| `ReviewRequester.ReviewRequester.RequestIfAppropriate` | Sources/TAAppCore/ReviewRequest/ReviewRequester.swift:45-56 | if the strategy refuses, the store and log are unchanged; otherwise `PromptEffects` are emitted in order and the store records the prompt at `now` |
| `ReviewRequester.ReviewRequester.PerformSystemRequest` | Sources/TAAppCore/ReviewRequest/ReviewRequester.swift:59-63 | a review is requested iff a foreground-active window scene exists |

## Left out

- **SwiftUI views and environment wiring.** `Journey.swift`, `OnboardingFlow.swift`, `OnboardingJourney.swift` and `NavigationFlow.swift` only render, and connect `onChange` to `updateViews`. `NavigationStepIdentifiable.swift` is view-modifier plumbing; its effect is the optional explicit id of a `StepElement`.
- **View payloads and runtime types.** `any View`, `AnyView` and `EmptyView` become the type parameter `V`. `view(for:)` and `firstStepFlowView` return `None` where the source returns an empty view. `type(of:)` and `ObjectIdentifier` become `TypeToken`, and an `any Hashable` value becomes its dynamic type plus a payload.
- **`StepIdentifier.KindEqualsCases`:** ids are compared only when their dynamic types are identical. In the source, `other as? Self` also accepts an instance of a subclass of a non-final class id type, while `hash(into:)` combines the exact dynamic type, so two such ids can be equal yet hash differently. The model leaves that case out, and `HashConsistentWithEquals` holds only for it.
- **`ReviewRequester.ReviewRequester.RequestIfAppropriate`:** strategies receive a read-only `Snapshot` of the store, so they are assumed free of side effects. In the source a custom closure receives the `ReviewRequestStore` object itself and may change it, so a refusal leaving the store unchanged holds only for side-effect-free strategies, such as the built-in ones.
- **Swift's `Hasher`.** It is any function of the combined inputs; only consistency with `==` is proved.
- **Observation and actor isolation.** `@MainActor`, `@Published` and `ObservableObject` are not modelled; the model is sequential. `Binding<Bool>?` is an `Option<bool>` field.
- **`currentStepInThePath`.** It is `path.count` and is not modelled separately.
- **Custom steps.** No shown operation of the manager inserts a custom step; `customSteps` is only read and pruned.
- **`Navigation.NavigationPathManager.UpdateViews`:** after a duplicate failure, the tables are left unspecified, because the source stops the process with `preconditionFailure`.
- **`ReapplyPendingRemovalsIfNeeded`** iterates the pending set in an unspecified order. The model picks any element; the proved result does not depend on the order.
- **`UserDefaults` persistence.** The defaults domain is an in-memory map. `.standard` and the suite-name lookup are not modelled. Neither is `integer(forKey:)` converting stored strings or other number types (a non-integer object reads as 0).
- **Clock and calendar.** `Date()` and `Calendar.current` day counting are the `Clock` value given to strategies (`now`, `dayCount`). `recordPromptShown` takes `now` as a parameter.
- **`ReviewRequestStore.ReviewRequestStore.RecordLaunch`:** does not model the trap of Swift's `Int` overflow on `+= 1`; counters are unbounded.
- **`ReviewRequestStore.ReviewRequestStore.RecordEvent`:** does not model the trap of Swift's `Int` overflow on `+= 1`; counters are unbounded.
- **StoreKit and UIKit.** `SKStoreReviewController.requestReview(in:)` and the scene lookup are an effect `SystemRequest`, guarded by a `foregroundScene` input. Whether the system actually shows a prompt is outside the model. So `REVIEW_PROMPT_SHOWN` is tracked, and the store is reset, even when no scene was found; `PromptEffects` states this.
- **Analytics.** `TAAnalytics.track` is the effect `Track(event)`. Its `strategy_type` parameter (a description string) is not modelled.
- **`buildArray`.** It calls `fatalError("Unavailable")`; this is modelled as a `Failure("Unavailable")` result.
- **`buildEither` and `buildLimitedAvailability`.** These are identity functions without their own contracts; `PassThroughBuilders` states that they return their input.
- **Other files.** `FirebaseFunctionAttribution.swift` (a network call) and `Package.swift` (the build manifest) are not part of this model.
