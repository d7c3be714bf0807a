# Verified model of the MochiPort daemon's protocols

This project models the parts of the daemon, its AI gateway and its generators whose correctness
does not show in any one function, and proves what they promise for every run and every input.

* **Protocols.** The admission gate that closes the daemon for a restart
  (`LifecycleAdmission.dfy`), the per-conversation inbound workers of the Telegram bridge
  (`TelegramInboundWorkers.dfy`) and the thread lifecycle intents (`ThreadLifecycle.dfy`) are
  systems of interleaved steps. One atomic operation, one channel operation or one locked region
  is one step, so a run is any interleaving of any number of participants. Beside each system
  stands a class with the source's fields, whose methods are tied to the functions that the steps
  are made of.
* **Parsers and compilers.** The streaming decoder of tool input (`CustomToolInput.dfy`) is a loop
  proved equal to a scan, and the scan equal to a grammar of tokens. The generator of TypeScript
  guards (`ClientContracts.dfy`) is a compiler between three languages: JSON Schema with its
  validity, guard expressions with their evaluation, and JSON values. `GuardCompleteness.dfy` says
  which valid values the validators of a whole schema reject, and `GuardLimits.dfy` where the
  rejected ones come from.
* **The AI gateway.** Provider choice (`ProviderSelection.dfy`), circuit breaker and sticky
  sessions (`RoutingState.dfy`), scoped opaque content (`EncryptedContent.dfy`) and the merge of
  the model catalogue (`Catalog.dfy`).
* **Canonicalising loops.** Restored conversation bindings (`PersistedBindings.dfy`), account ids
  (`AccountIds.dfy`) and the dependency worklist (`LicenseDependencies.dfy`).

`Text.dfy`, `Splitting.dfy`, `Decimals.dfy`, `Json.dfy`, `Sums.dfy`, `Sequences.dfy` and `Wrappers.dfy`
hold what these share.
`dafny verify dfyconfig.toml` checks everything.

## Where the code does less than its documentation says

Each of these has a counterexample lemma and a lemma that says exactly when the code does meet
the promise.

* `collapse_nullable_anyof` says that `anyOf: [X, null]` and the collapsed form both mean
  "nullable X". The collapsed form loses null (`NullableUnionRejected`, `NullableUnionExact`).
* `normalize_enum` says that both enum forms describe the same contract. They differ when a
  constant is repeated (`RepeatedConstantDiffers`, `ConstantUnionExact`, and with sibling keywords
  `NormalizeEnumExact`).
* A guard checks only the first non-null entry of a type list (`FirstKindOnlyRejected`,
  `TypeListExact`), applies `additionalProperties` to declared properties as well
  (`DeclaredPropertyRejected`, `DeclaredPropertyExact`), rejects null for a nullable object
  definition (`NullableDefinitionRejected`, `NullableDefinitionExact`) and reads a missing property
  from `Object.prototype` (`PrototypeNameRejected`, `PrototypeNameExact`). For nested fragments
  `GuardTakesExact` says exactly which are affected, and for whole schemas `ValidRejectedExactly`
  which valid values are rejected.
* Merging the catalogue again with the same overlay can change it when the overlay repeats a slug
  (`DuplicateOverlayMergesTwice`, `MergeAgainExact`).
* Preparing a request twice differs from preparing it once, and foreign content can leave, when
  a restored payload is itself marked (`MarkedPayloadLeaves`, `IdempotentExactly`,
  `NoForeignContentLeaves`).
* The binding question of a superseded lifecycle generation can be answered yes for a deleted
  thread (`SupersededAnswerMayBeYes`, from any state with a waiting question
  `SupersededAnswerIsYes`). The refusal lasts exactly until an operation of a newer generation
  prunes the tombstone (`DeletionLastsExactly`), not only while the generation is the latest.
* The streamed input of a tool call need not be monotone when the finished object gives its input twice
  (`RepeatedInputBreaksStreaming`, `MonotoneStreamExactly`).

The admission gate alone does not make several concurrent drains safe
(`UnserialisedDrainsAreUnsafe`); with the mutex `lifecycle_control`, which the source holds
around every drain, it is (`CommittedShutdownIsFinal`).

## Model

| member | source | states |
|---|---|---|
| `LifecycleAdmissions.PermitsCountAdmissions` | src/app_state.rs:112-127 | in every run the counter is exactly the number of admissions between increment and decrement, granted or about to fail, so it never underflows |
| `LifecycleAdmissions.CommittedShutdownIsFinal` | src/app_state.rs:169-178 | once a shutdown is committed no permit is outstanding, and no continuation of the run grants one or leaves the committed state |
| `LifecycleAdmissions.ObservedMeansDrained` | src/app_state.rs:140-148 | the drain wait returns only over a draining gate behind which nothing is granted, even if failing admissions make the counter positive again; the commit then wins |
| `LifecycleAdmissions.NoLostWakeup` | src/app_state.rs:191-198 | while the waiter is registered and the counter is zero, some releaser stands between its decrement and its notification |
| `LifecycleAdmissions.DrainTerminates` | src/app_state.rs:140-148 | any run of admissions and of the waiter is bounded by a rank of the state, and where nothing can move any more the waiter has observed zero |
| `LifecycleAdmissions.WaiterNeverStuck` | src/app_state.rs:140-148 | in every state of the invariant with a waiting drain some admission or the waiter can move |
| `LifecycleAdmissions.GuardDropIsNoOp` | src/web/manage.rs:333-352 | the guard of a drain that was cancelled or committed deliberately changes nothing when it drops |
| `LifecycleAdmissions.DrainingHasOwner` | src/web/manage.rs:461-467 | a draining gate has exactly one owner, whose guard has not dropped yet |
| `LifecycleAdmissions.UnserialisedDrainsAreUnsafe` | src/app_state.rs:273-275 | without the mutex that serialises drains a committed shutdown can coexist with a granted permit |
| `LifecycleAdmissions.LifecycleAdmission.TryAdmit` | src/app_state.rs:112-127 | whatever others do between the two checks, a permit exactly when the gate is open at both; a refusal after the increment gives its count back with the notification a drain may wait for |
| `LifecycleAdmissions.StepsHaveEffects` | src/app_state.rs:112-198 | every step of the system changes the cells by at most one of the operations that the method allows in between |
| `LifecycleAdmissions.LifecycleAdmission.ReleasePermit` | src/app_state.rs:191-198 | the decrement that reaches zero notifies, every other one does not |
| `LifecycleAdmissions.LifecycleAdmission.PollWaiter` | src/app_state.rs:140-148 | one turn of the wait: done on zero, otherwise the stored notification is taken or the waiter registers |
| `LifecycleAdmissions.LifecycleAdmission.BeginDraining` | src/app_state.rs:129-138 | wins exactly from the active state and is the compare-exchange of the step system |
| `LifecycleAdmissions.LifecycleAdmission.CommitShutdown` | src/app_state.rs:169-178 | wins exactly from the draining state |
| `LifecycleAdmissions.LifecycleAdmission.CancelDraining` | src/app_state.rs:180-189 | wins exactly from the draining state |
| `TelegramInboundWorkers.HandledInOrderExactlyOnce` | src/bridge.rs:434-459 | for a conversation without crashes, handled, in-progress and queued messages together are exactly the accepted ones in order, across all worker generations |
| `TelegramInboundWorkers.CrashesOnlyLose` | src/bridge.rs:540-596 | with crashes, handled followed by pending messages are still a subsequence of the accepted ones: nothing is reordered or handled twice |
| `TelegramInboundWorkers.OneLiveWorkerPerConversation` | src/bridge.rs:442-459 | two live workers never serve the same conversation |
| `TelegramInboundWorkers.RetiresOnlyWhenEmpty` | src/bridge.rs:553-571 | an idle worker that times out ends and leaves the registry exactly when its queue is empty, otherwise it handles the oldest message |
| `TelegramInboundWorkers.SendOutcome` | src/bridge.rs:438-525 | an attempt finds a dead worker only the first time; otherwise it is concluded, as full exactly when 32 messages are queued, and a second attempt always succeeds |
| `TelegramInboundWorkers.EveryArrivalConcluded` | src/bridge.rs:473-524 | every arrival ends accepted or rejected because its queue was full, in order of arrival; none is lost as closed |
| `TelegramInboundWorkers.QueuesDrain` | src/bridge.rs:549-595 | workers left alone stop after boundedly many steps, with every accepted message of a conversation without crashes handled and its entry gone |
| `TelegramInboundWorkers.Bridge.SendLocked` | src/bridge.rs:442-459 | the locked region of one attempt is the send step of the system |
| `TelegramInboundWorkers.Bridge.RetireIdle` | src/bridge.rs:553-572 | the locked region of an idle worker is the retire step of the system |
| `TelegramInboundWorkers.Bridge.WorkerTurn` | src/bridge.rs:549-595 | each turn of a worker is a step of the system when that step is enabled and nothing otherwise |
| `TelegramInboundWorkers.Bridge.Dispatch` | src/bridge.rs:434-525 | whatever the workers do meanwhile, a dispatch ends with its message accepted or its queue full, and keeps every invariant |
| `ThreadLifecycle.IntentsNeverAhead` | src/app_state.rs:719-728 | no stored intent belongs to a generation above the latest announced one, although the maximum is raised before the lock is taken |
| `ThreadLifecycle.DeletionLastsExactly` | src/app_state.rs:810-872 | after any step that commits a deletion, the binding question for the pair is refused at every moment of a run if and only if no step of the run is a raising operation that prunes the tombstone without writing the thread |
| `ThreadLifecycle.KeptStep` | src/app_state.rs:810-848 | one step turns the refusal into a yes exactly when it is such an operation |
| `ThreadLifecycle.TombstoneHoldsUntilSuperseded` | src/app_state.rs:714-872 | raising the latest generation does not end the refusal; it lasts until an operation of a newer generation takes the lock |
| `ThreadLifecycle.TombstoneForbidsBinding` | src/app_state.rs:851-872 | in particular, after a deletion was committed the question is never answered yes while the generation is the latest |
| `ThreadLifecycle.SupersededAnswerIsYes` | src/app_state.rs:851-872 | wherever a binding question waits for the lock, a start of any other thread in a new generation leads to a state that answers it yes |
| `ThreadLifecycle.StartNeverRevives` | src/app_state.rs:712-754 | a start never changes an intent observed before in its generation and reports active exactly when that intent is active |
| `ThreadLifecycle.RevisionsIncrease` | src/app_state.rs:837-848 | committed revisions are positive and strictly increase, hence are unique |
| `ThreadLifecycle.RevisionCasIsExact` | src/app_state.rs:820-849 | an observation that expects a revision read earlier commits if and only if nothing was committed for that thread and generation since and the pair is not deleted already |
| `ThreadLifecycle.SupersededAnswerMayBeYes` | src/app_state.rs:856-871 | a run in which a deleted thread is answered yes that way |
| `ThreadLifecycle.LifecycleIntents.ObserveStarted` | src/app_state.rs:714-754 | refused as stale, or the raise, any steps of other operations, and then the locked half on what they left |
| `ThreadLifecycle.LifecycleIntents.ObserveLifecycle` | src/app_state.rs:803-849 | refused as stale, or the raise, any steps of other operations, and then the locked half on what they left |
| `ThreadLifecycle.LifecycleIntents.Revision` | src/app_state.rs:767-785 | the stale check, any steps of other operations, and then the locked read |
| `ThreadLifecycle.LifecycleIntents.AllowsTopicBinding` | src/app_state.rs:851-872 | the stale check, any steps of other operations, and then the locked read |
| `ThreadLifecycle.StepsHaveEffects` | src/app_state.rs:714-849 | every step of the system has the effect of at most one of the other operations' steps that the methods allow in between |
| `CustomToolInput.ParseJsonStringPrefix` | src/ai_gateway/custom_tool_input.rs:49-94 | the loop computes the recursive scan of the text after the opening quote |
| `CustomToolInput.ScanIsExact` | src/ai_gateway/custom_tool_input.rs:49-113 | the scan closes, stays open or fails exactly when the text is accepted tokens and then a quote, the end, or an incomplete or invalid escape |
| `CustomToolInput.RoundTrip` | src/ai_gateway/custom_tool_input.rs:49-94 | every escaping of a string that is legal under section 7 of RFC 8259 is parsed to that string, with the remainder untouched |
| `CustomToolInput.FullyEscapedRoundTrip` | src/ai_gateway/custom_tool_input.rs:96-118 | every string has an escaping made only of hexadecimal escapes and surrogate pairs, and it round-trips |
| `CustomToolInput.SurrogatesBijective` | src/ai_gateway/custom_tool_input.rs:99-109 | the surrogate formula is a bijection between pairs and U+10000..U+10FFFF |
| `CustomToolInput.ShiftOrIsSum` | src/ai_gateway/custom_tool_input.rs:108 | the shift and or of the formula is the sum the model uses |
| `CustomToolInput.GrowingBuffer` | src/ai_gateway/custom_tool_input.rs:35-47 | on a grown buffer a closed answer is final, an open one grows by what the new text spells, and it is withdrawn exactly when the new text runs into a bad escape |
| `CustomToolInput.StreamingMonotone` | src/ai_gateway/custom_tool_input.rs:35-47 | answers on buffers that extend each other extend each other |
| `CustomToolInput.OnlyEscapesWithdraw` | src/ai_gateway/custom_tool_input.rs:35-47 | an answer disappears only because the added text holds an incomplete or invalid escape |
| `CustomToolInput.FirstMemberAnswers` | src/ai_gateway/custom_tool_input.rs:35-47 | on an object whose first member is a string, the prefix parser answers that member if its key is `input`, whatever follows |
| `CustomToolInput.MonotoneStreamExactly` | src/ai_gateway/custom_tool_input.rs:20-47 | over the buffers that grow into an object of strings, later answers extend earlier ones exactly when there is no input, when the first member is another one, or when the last input extends the first value |
| `CustomToolInput.ParsesAgreeExactly` | src/ai_gateway/custom_tool_input.rs:20-33 | on an object of strings the complete parse, which is tried first, and the prefix parser agree exactly when there is no input or the last one repeats the value of a first member that is one |
| `CustomToolInput.RepeatedInputStreams` | src/ai_gateway/custom_tool_input.rs:20-33 | for an input given twice the growing buffer shows the first value and the finished object the last |
| `CustomToolInput.RepeatedInputBreaksStreaming` | src/ai_gateway/custom_tool_input.rs:20-33 | two such answers of which the later does not extend the earlier |
| `ClientContracts.CheckMeansShape` | scripts/generate-client-contracts.py:446-489 | the guard of a fragment, under any expression and any nesting of shadowing `entry` parameters, evaluates to the fragment's direct meaning |
| `ClientContracts.ProgramMeans` | scripts/generate-client-contracts.py:492-514 | every validator of the program, recursive references included, evaluates to what its definition directly means |
| `ClientContracts.ValidatorsTotal` | scripts/generate-client-contracts.py:492-514 | a validator run on any JSON value ends without failing and answers what the definitions mean |
| `ClientContracts.AcceptsStable` | scripts/generate-client-contracts.py:446-455 | that answer does not depend on how many nested calls are permitted once they cover the value's depth |
| `GuardCompleteness.ValidRejectedExactly` | scripts/generate-client-contracts.py:391-514 | for definitions that refer to each other, whatever else the schema holds, an emitted validator run on a valid value answers false exactly when, somewhere along the references, a null stands under a union whose other branch does not admit it, a checked property is missing that is found on `Object.prototype`, or a definition that is no enum has a value that is no object |
| `GuardCompleteness.DefinitionExact` | scripts/generate-client-contracts.py:492-514 | one level of that: a valid value of a definition is accepted exactly when none of its properties is lost, given what holds of the referenced definitions |
| `GuardCompleteness.FragmentExact` | scripts/generate-client-contracts.py:446-489 | a valid value of a supported fragment has the shape that the guard checks exactly when nothing inside it is lost |
| `GuardCompleteness.ValidHasShape` | scripts/generate-client-contracts.py:446-489 | a value valid for a supported fragment has the shape the guard checks, when the definitions it refers to are supported |
| `GuardCompleteness.ValidNeverRejected` | scripts/generate-client-contracts.py:446-514 | where a definition and those that it refers to are supported, every value that is valid under the schema passes the emitted validator |
| `GuardCompleteness.SupportedSchemaNeverRejects` | scripts/generate-client-contracts.py:446-514 | the same for every validator of a schema that is supported as a whole |
| `GuardLimits.GuardTakesExact` | scripts/generate-client-contracts.py:446-489 | for fragments of nested types, items, properties and additional properties, the guard of one takes every value valid for the other exactly when a syntactic inclusion holds; for one fragment twice this says when its guard rejects nothing valid |
| `GuardLimits.TypeListExact` | scripts/generate-client-contracts.py:457-487 | where the elements are taken, the guard of a type list takes every valid value exactly when its first non-null kind covers the others |
| `GuardLimits.FirstKindOnlyRejected` | scripts/generate-client-contracts.py:457-466 | an integer is valid for text or integers and is rejected |
| `GuardLimits.NormalizeEnumExact` | scripts/generate-client-contracts.py:391-412 | for every definition that is rewritten, sibling keywords included, the valid values stay exactly when each constant that the rest of the definition allows matches one branch and is allowed by the replaced keywords |
| `GuardLimits.ConstantUnionExact` | scripts/generate-client-contracts.py:391-412 | for the union alone, exactly when no constant is repeated |
| `GuardLimits.RepeatedConstantDiffers` | scripts/generate-client-contracts.py:391-412 | a constant written twice is valid for the enum and not for the union |
| `ClientContracts.CollectEnum` | scripts/generate-client-contracts.py:399-412 | the loop gives up unless every branch is a string constant and otherwise lists the constants in order |
| `ClientContracts.EmitObjectValidator` | scripts/generate-client-contracts.py:500-513 | the loop over the properties builds the conjunction whose meaning is proved |
| `GuardLimits.NullableUnionRejected` | scripts/generate-client-contracts.py:107-135 | null is valid for an optional string written as a union and its guard rejects it |
| `GuardLimits.NullableUnionExact` | scripts/generate-client-contracts.py:107-135 | for `anyOf` and `oneOf` in either order, only null can be lost, and it is lost exactly when the union allows it and the remaining branch does not admit it; only the definitions that this branch refers to have to be supported |
| `GuardLimits.PrototypeNameRejected` | scripts/generate-client-contracts.py:506-512 | the empty object is valid and rejected when an optional string property is called `constructor` |
| `GuardLimits.PrototypeNameExact` | scripts/generate-client-contracts.py:500-513 | for any emitted object definition that refers to supported ones, itself supported or not, a valid value is accepted exactly when it is an object each of whose properties is missing where that is admitted, or is not a null that only a union allows |
| `GuardLimits.NullableDefinitionRejected` | scripts/generate-client-contracts.py:500-505 | null is valid for a nullable object definition and its validator rejects it |
| `GuardLimits.NullableDefinitionExact` | scripts/generate-client-contracts.py:500-513 | an emitted object definition accepts every valid value exactly when its types are given and name no other kind, when nothing else is unsupported |
| `GuardLimits.ValidatorsCompleteAlways` | scripts/generate-client-contracts.py:492-514 | the validators of a supported set accept all valid values of any depth and no inherited function, whatever other definitions the schema has |
| `GuardLimits.DeclaredPropertyRejected` | scripts/generate-client-contracts.py:476-483 | a declared text property beside integer `additionalProperties` is valid and rejected |
| `GuardLimits.DeclaredPropertyExact` | scripts/generate-client-contracts.py:476-483 | an object fragment with both keywords takes every valid object exactly when the additional schema's guard takes what is valid for each declared property and for itself |
| `ProviderSelection.SelectedIsMaximum` | src/ai_gateway/config.rs:305-319 | the chosen provider is a candidate that no candidate ranks above, and there is one exactly when there are candidates |
| `ProviderSelection.AtMostTotal` | src/ai_gateway/config.rs:310-318 | any two providers are comparable |
| `ProviderSelection.AtMostTransitive` | src/ai_gateway/config.rs:310-318 | the comparison is transitive |
| `ProviderSelection.TiesShareRoute` | src/ai_gateway/config.rs:310-318 | providers that tie have the same route id and weight |
| `ProviderSelection.SelectionIsStable` | src/ai_gateway/config.rs:305-319 | reordering, repeating or removing providers other than the chosen one leaves the chosen route |
| `ProviderSelection.NewProviderOnlyWinsItself` | src/ai_gateway/config.rs:305-319 | a provider added anywhere either wins itself or leaves the chosen route |
| `ProviderSelection.WeightThenRoute` | src/ai_gateway/config.rs:301-319 | the heaviest win; among them the session's score decides, and without a session the greatest route id |
| `RoutingState.BlacklistedExactly` | src/ai_gateway/routing_state.rs:42-64 | after any history a route is blacklisted exactly when three failures followed its last success and its last failure is less than 30 seconds ago |
| `RoutingState.OtherRoutesIrrelevant` | src/ai_gateway/routing_state.rs:49-64 | events of other routes and of sessions never change that |
| `RoutingState.BindingExactly` | src/ai_gateway/routing_state.rs:67-92 | for a clock that does not go back, a session is bound to the route of its last binding for 30 minutes, evictions or not |
| `RoutingState.EvictionInvisible` | src/ai_gateway/routing_state.rs:88-92 | leaving out all evictions changes no answer of a later clock |
| `RoutingState.EvictionVisibleToEarlierClock` | src/ai_gateway/routing_state.rs:67-92 | an answer for a clock before an eviction can differ |
| `RoutingState.GatewayRoutingState.IsBlacklisted` | src/ai_gateway/routing_state.rs:42-47 | the query on the object answers by its history of failures and successes |
| `RoutingState.GatewayRoutingState.RecordFailure` | src/ai_gateway/routing_state.rs:58-64 | keeps the maps in step with the history extended by the failure |
| `RoutingState.GatewayRoutingState.RecordSuccess` | src/ai_gateway/routing_state.rs:50-55 | keeps the maps in step with the history extended by the success |
| `RoutingState.GatewayRoutingState.RouteOf` | src/ai_gateway/routing_state.rs:67-75 | the query on the object answers by the last binding of the session |
| `RoutingState.GatewayRoutingState.BindSession` | src/ai_gateway/routing_state.rs:78-86 | keeps the maps in step with the history extended by the binding |
| `RoutingState.GatewayRoutingState.Evict` | src/ai_gateway/routing_state.rs:89-92 | keeps the maps in step with the history extended by the eviction |
| `EncryptedContent.RoundTrip` | src/ai_gateway/encrypted_content.rs:63-78 | an unmarked payload, colons included, is restored by its own scope and foreign to every other one |
| `EncryptedContent.DecodeExact` | src/ai_gateway/encrypted_content.rs:111-130 | a text matches a scope with some payload exactly when it is the envelope of that scope around that payload |
| `EncryptedContent.AnthropicRoundTrip` | src/ai_gateway/encrypted_content.rs:80-109 | the block kind and the payload are restored by the issuing scope and by no other |
| `EncryptedContent.ResponseRoundTrip` | src/ai_gateway/encrypted_content.rs:133-159 | what a response carries out is decoded to its content and to the kind given by its summary, and encoding again changes nothing |
| `EncryptedContent.ItemsKeepOrder` | src/ai_gateway/encrypted_content.rs:192-201 | the kept items appear in their order, each at the number of kept items before it |
| `EncryptedContent.StatsAddUp` | src/ai_gateway/encrypted_content.rs:192-264 | decoded, filtered and preserved add up to the private items with string content, and dropped plus remaining to all items |
| `EncryptedContent.NoForeignContentLeaves` | src/ai_gateway/encrypted_content.rs:243-264 | no foreign payload remains exactly when no restored payload is itself foreign |
| `EncryptedContent.IdempotentExactly` | src/ai_gateway/encrypted_content.rs:161-168 | preparing twice is preparing once exactly when no restored payload is marked |
| `EncryptedContent.NestedRestored` | src/ai_gateway/encrypted_content.rs:243-251 | any content, marked or not, is restored from an envelope around it, so that condition is about real requests |
| `EncryptedContent.MarkedPayloadLeaves` | src/ai_gateway/encrypted_content.rs:243-264 | a foreign envelope inside the reader's own one leaves with the request, and a second preparation drops the item |
| `EncryptedContent.RequestPreparesItems` | src/ai_gateway/encrypted_content.rs:179-215 | a request's items, as an array or as a single object, are prepared and the rest of the request is untouched |
| `EncryptedContent.RequestIdempotentExactly` | src/ai_gateway/encrypted_content.rs:161-215 | the same condition decides whether preparing a whole request twice changes it |
| `EncryptedContent.Request.PrepareBody` | src/ai_gateway/encrypted_content.rs:179-215 | editing the request in place gives the prepared request and its statistics |
| `Catalog.MergeCatalogWithOfficial` | src/ai_gateway/catalog.rs:627-674 | the two loops compute the merge whose properties follow |
| `Catalog.FindFirst` | src/ai_gateway/catalog.rs:646-650 | the first entry with the slug, case ignored |
| `Catalog.MergedLookup` | src/ai_gateway/catalog.rs:627-674 | a slug is found in the merge as its completed official entry, not at all when it was retired, and as embedded otherwise |
| `Catalog.SurvivesExactly` | src/ai_gateway/catalog.rs:654-672 | an embedded slug survives exactly when it is in the overlay or was never official |
| `Catalog.LocalInstructionsSurvive` | src/ai_gateway/catalog.rs:694-712 | an overlay entry takes over the embedded base instructions exactly when it has none, and is unchanged otherwise |
| `Catalog.MergedOrder` | src/ai_gateway/catalog.rs:636-673 | the slugs are those of the overlay in order, then the surviving embedded ones in order |
| `Catalog.MergedUnique` | src/ai_gateway/catalog.rs:638-672 | slugs that are unique up to case on both sides are unique in the merge |
| `Catalog.MergeAgainExact` | src/ai_gateway/catalog.rs:627-674 | merging the result again changes nothing exactly when every overlay entry is completed alike from the embedded list and from the overlay |
| `Catalog.UniqueOverlayMergesOnce` | src/ai_gateway/catalog.rs:627-674 | an overlay without repeated slugs always meets that condition |
| `Catalog.DuplicateOverlayMergesTwice` | src/ai_gateway/catalog.rs:640-653 | an overlay with a repeated slug that fails it |
| `PersistedBindings.PersistedState.RestoreImBindings` | src/app_state.rs:963-1006 | the bindings become exactly the valid claims that are least for their thread, topic states get the same keys and generation 0, routes match the bindings, and the change flag is exact |
| `PersistedBindings.SortedKeys` | src/app_state.rs:969-970 | the keys in strictly ascending order |
| `PersistedBindings.RestoredOneToOne` | src/app_state.rs:984-986 | no two restored conversations share a thread |
| `PersistedBindings.LeastClaimantWins` | src/app_state.rs:977-989 | every thread that some valid conversation claims is restored, for the least of its valid claimants |
| `PersistedBindings.InvalidNeverClaims` | src/app_state.rs:981-983 | a binding that is not valid has no influence on the result |
| `PersistedBindings.UnchangedIffClean` | src/app_state.rs:1001-1002 | a restore reports no change exactly for states with valid, trimmed, unique claims and matching topic states of generation 0 |
| `PersistedBindings.SecondRestoreChangesNothing` | src/app_state.rs:963-1006 | a restored state is such a state, so a second restore reports no change |
| `PersistedBindings.RestoredRoutesServed` | src/app_state.rs:1008-1037 | a restored thread leads to an active account and a chat it serves, and a topic only to a project group |
| `PersistedBindings.TelegramKeysExact` | src/im/runtime.rs:3025-3047 | a key is a Telegram route with these parts exactly when it is built from a colon-free account id and a chat id |
| `PersistedBindings.MessageTargetRoundTrip` | src/types.rs:225-240 | the chat and a positive topic written into a target are read back; other topics are lost |
| `Decimals.SignedRoundTrip` | src/types.rs:238 | a 64-bit number written in decimal is parsed back to itself |
| `AccountIds.NormalizeAccountIds` | src/config.rs:918-948 | the in-place loop gives the normalised list, and returns true exactly when something changed |
| `AccountIds.AppConfig.NormalizeImAccountIds` | src/config.rs:485-518 | all four account lists are normalised with their own fallbacks and the result says whether any changed |
| `AccountIds.ExplicitOnlyTrimmed` | src/config.rs:934-945 | explicit ids are only trimmed, order and length stay, and nothing but ids changes |
| `AccountIds.BlankIdsDistinct` | src/config.rs:924-946 | a blank account gets an id that differs from every other account's, explicit ids later in the list included |
| `AccountIds.NormalisationIsFixpoint` | src/config.rs:918-948 | normalising a normalised list changes nothing |
| `AccountIds.SourceFallbacksGood` | src/config.rs:486-517 | the fallbacks of all four lists are trimmed and not empty, as the fixpoint needs |
| `AccountIds.SearchIsBounded` | src/config.rs:950-961 | the suffix search finds a free id within one more candidate than there are used ids |
| `AccountIds.UniqueAccountId` | src/config.rs:950-961 | the search loop ends and returns the first free id |
| `LicenseDependencies.DependencyIds` | packaging/generate-third-party-licenses.py:49-70 | the worklist ends on every graph and returns exactly the ids reachable over one or more edges, without the root |
| `LicenseDependencies.NothingOpen` | packaging/generate-third-party-licenses.py:63-68 | when nothing is pending, the collected ids are exactly the reachable ones |

## Left out

* HTTP, websockets, polling, SQLite logs, file and TOML input and output, launchd, the user
  interfaces and the licence text itself: effects and libraries.
* Atomics are sequentially consistent steps, and `Notify` is one stored permit with a queue of
  waiters; weaker memory orders are not modelled.
* Concurrent drains are excluded by the hypothesis `serialised`, which stands for the mutex
  `lifecycle_control`. The time limits of a drain are the step `GiveUp`, which may happen at any time.
* The permit counter and the lifecycle revision counter are unbounded; the source wraps at the machine word.
* Worker ids are unbounded; the source saturates them at the largest 64-bit number.
* The end of a bridge generation, which aborts all workers, messages of other platforms and the
  notices sent to users. A crash of a worker may happen at any time.
* The exact-width hash behind `hrw_score` and its rounding: the score is an arbitrary function of
  session and route id. The footprint of a scope is an arbitrary string without a colon.
* The complete JSON parse that the tool input decoder tries before the prefix parser: it is an arbitrary
  function, assumed to read the object in question as JSON maps are read and no unfinished part of it. Byte offsets are character
  positions; every slice the source takes ends next to ASCII.
* Unicode case folding; `casefold` order in `sorted_properties` is taken as the given order.
* Property names in `ClientContracts` are identifiers other than `__proto__`; descriptions, formats,
  defaults, further schema keywords, the difference between a type name and a list of one, and
  the Swift and TypeScript type declarations are not modelled. Enums of other values than strings,
  and empty enums, get no validator.
* `remote_client_key`, the last route and the logging of `bind_route`; the former is a hash of the route.
* The generated account id suffix is unbounded; the source counts in 32 bits.
- GuardCompleteness.ValidRejectedExactly: asks that the kinds in each fragment are covered by the one that is checked, that no fragment has both properties and a schema for the others, and that unions with null have no sibling keyword that the guard reads; the lemmas of `GuardLimits` are about the first two.
- GuardLimits.GuardTakesExact: is about fragments of types, items, properties and additional properties; references and value restrictions make completeness depend on whether other schemas can be met.
- GuardLimits.NullableUnionExact: the sibling keywords of the union are any that the guard does not read.
