# Verified models of the maintenance appliance

This project models the parts of the local code maintainer that hold real
algorithms or protocols, and proves what they promise: over all inputs where
the source is a computation, over all runs, crashes and retries where it is a
protocol.

`dafny verify dfyconfig.toml` checks everything.

## What is modelled

- **Scoped configuration** (`Registry`, `EffectiveConfig`, `Drafts`,
  `RegistryService`, `ScopeLists`, `ListDrafts`, `ScopeHistory`, `ScopeExamples`,
  `ExportImport`, `Reimport`; rules in `RegistryRules`, `Precedence`, `ConfigRules`,
  `DraftRules`, `HistoryRules` and `ImportRules`).
  Values live in ranked scopes and `Resolve` picks a winner. A draft is checked
  incrementally, against values predicted without applying it. The check is
  proved to agree with the whole configuration after the draft, and so is the
  prediction. What a draft or a rollback at one scope does to any list of scopes with
  that scope in it is characterised exactly. Rollback, snapshots and the export and import of a scope are
  proved to round-trip. The repository is a map per scope: a configured change
  puts its key, any other deletes it, and a scope is changed only at the version
  its caller names.
- **Structural diff** (`JsonDiff`, `DiffOrder`). The differ is proved against an interpreter
  of JSON Patch (RFC 6902, sections 4.1 to 4.3) over JSON Pointer (RFC 6901,
  sections 3 and 4).
- **Capability configuration** (`DottedKeys`, `OverwrittenKeys`,
  `CapabilityConfig`, `CapabilityOrder`, `CapabilityRules`). Flattening to dotted keys, defaults,
  validation and rebuilding of the nested document, over every order in which
  maps may be walked.
- **Forge inventory** (`ForgeInventory`, `CompleteInventory`, `InventoryRules`). Chains of resumed
  calls over a fixed server, with rate limits and refusing endpoints.
- **Crash protocols** (`Restore` with `OriginalDatabase` and `RestoreRules`;
  `Publication` with `PullRequests`, `DraftPullRequests`, `PublishingProgram`,
  `PublicationRules` and `GitNames`; `WorktreeCommits` with `CommitRules`). A call
  is a list of atomic steps; a crash may follow any of them,
  and the call is then made again. Methods run on a machine that stops after a
  number of steps, and are proved to do exactly the steps of the model.
- **Login limiter** (`LoginLimiter`), **evidence** (`Evidence`, `EvidenceRules`,
  `Corrections`), **context packets** (`ContextPacket`, `PacketOrder`), **job
  workflow** (`JobStates`) and **golden approvals** (`GoldenApprovals`).

The modules named rules, with `Precedence`, `DiffOrder`, `DraftPullRequests` and
`PacketOrder`, say what the others decide in the terms of the stored values, files
and requests, with the source's own numbers and texts.

`Ordering`, `Documents` and `Texts` hold what these share: the order of
`sort.Strings` and of record sorts, decoded JSON, and white space and lengths of
strings.

## What the proofs found

Where the code keeps a promise only under a condition, a lemma says exactly when
it does, and an input on which it does not is given where one is short enough.

- A diff entry drops a null value when it is encoded
  (internal/config/diff.go:13-17). The operations, read strictly by RFC 6902, give
  the new document exactly when both roots are objects (or the documents are
  equal) and no null is introduced. A replaced root is written with path `"/"`,
  which names the key `""`, so it never gives the new root.
- A draft is checked against its own scope on top of the system scope, so an
  accepted one can break a project (`SystemDraftCanBreakProject`), and scopes that
  are each consistent on the system scope need not be together
  (`ChainsDoNotMakeList`). A valid draft keeps the consistent configuration of any
  list of scopes consistent exactly when the same check, made on the list's values
  with the changed keys no higher scope stores, reports nothing
  (`DraftKeepsListIff`). Without changes at the system scope every scope stays
  consistent, with its past states, over any run.
- Rollback checks neither values nor dependencies again. Any list of scopes has
  afterwards what it has with the target state and the present secrets in place
  (`RollbackReinstates`), so it is consistent exactly when that is: an accepted
  rollback can leave a chain inconsistent (`RollbackCanBreakChain`), a rollback of
  the system scope another scope's chain, and one to a value the registry no longer
  accepts leaves a chain that does not resolve (`UnacceptedStopsChain`). The service
  asks for recent reauthentication only when a secret would be cleared; that every
  rollback needs it (docs/configuration.md:43) is enforced by its HTTP handler
  (internal/api/config_registry.go:425-430).
- Normalising a normalised capability configuration gives it back exactly when
  no field key lies under another; otherwise it is refused.
- A field key may be spelled both nested and dotted, and then the result can
  depend on the order of map iteration. An accepted configuration is the only
  possible answer exactly when no key that shows in the document is spelled with
  two values, every spelled value is allowed, and the suppression pack's texts fit
  together whichever are taken (`OrderMattersIff`); where no field key lies under another, exactly when no key
  is spelled with two values.
- An inventory whose first page of an endpoint is asked for at less than one
  hundred loses the entries between that page and the next of one hundred. A
  call loses nothing exactly when no listed entry lies between the cut its room
  makes and the end of a page of one hundred (`Fits`), and a finished chain is
  complete exactly when that holds of each call. Room for the first pages of all
  endpoints, known beforehand, is enough. The chain reaches `Done` exactly when the
  last endpoint answers.
- A restore sets the database in place aside under a name with the second the
  clock reads. Over all attempts and crashes a copy of the original is left
  exactly when no later set-aside that found a database used the second of the
  first (`OriginalKeptIff`). Two attempts in one second lose it, and so does one
  uninterrupted attempt on a bundle that names the database twice.
- The look-up for an existing pull request sees the newest ten from the branch. A
  call opens one exactly when none of those carries the job's marker and the forge
  takes it (`OpensIff`). Whatever the forge accepts and others do, the program opens
  at most one more pull request for a job than were released, unless a look-up
  overlooks a standing one behind ten others; an overlooked one gets a second beside
  it (`OverlookedGetsSecond`).
- In any five minutes a key sees at most `2k + 7` failures with `k` attempts
  between check and record, or `2k + 8` with both ends counted: nine and ten for
  one attempt at a time. Runs that reach both numbers exist.
- A commit is recognised by a substring of its message. An operation whose name
  begins another's is therefore answered with the other's commit. Among commits
  the program made, that is the only confusion.
- A finding that is newly introduced cannot be corrected to pre-existing or resolved
  (docs/intelligence.md:19), but it can in two corrections: to changed or
  indeterminate first, and then away (`TwoCorrectionsClassifyAway`). It is classified
  away exactly when it already counts as something else (`ClassifiedAwayIff`), which
  takes such a first correction (`DetourFirst`). Only the newest five hundred
  corrections of a project are looked at, so a correction is forgotten behind five
  hundred others (`Forgotten`), and the next one of the same finding does not begin
  where it ended (`ConsecutiveJoin`).
- A result is pushed for a job name of any accepted form, but a pull request can
  be opened only while the name has at most 116 characters and it and the default
  branch are free of `..` (`KeyUsableIff`). Otherwise the call ends with the branch
  pushed and no pull request.

## Model

| member | source | states |
|---|---|---|
| JsonDiff.UnescapeUndoesEscape | internal/config/diff.go:76-78 | undoing `~1` then `~0` gives every token back |
| JsonDiff.ParseUndoesRender | internal/config/diff.go:36-66 | a rendered pointer is read back as the keys it was built from |
| JsonDiff.DiffRendersEdits | internal/config/diff.go:36-74 | the string paths are the rendered key paths of a structural edit list |
| JsonDiff.OperationLog.DiffKey | internal/config/diff.go:50-66 | the operations of one key, appended to the shared list |
| JsonDiff.OperationLog.DiffValue | internal/config/diff.go:36-74 | the recursive differ appends exactly the operations the specification lists |
| JsonDiff.Diff | internal/config/diff.go:19-34 | the entry point returns the operations from the root |
| JsonDiff.EditsMeanAfter | internal/config/diff.go:36-74 | applying the edits in order turns any document into the other |
| JsonDiff.EditsWriteNull | internal/config/diff.go:13-17 | an edit writes null exactly when the new document introduces one |
| JsonDiff.PatchMeansAfter | internal/config/diff.go:19-74 | for either reading of a missing value, the encoded operations give the new document exactly under the stated condition |
| JsonDiff.RootReplacementMissesRoot | internal/config/diff.go:68-73 | a replaced root never yields the new root, by either reading |
| JsonDiff.EmptyExactlyWhenEqual | internal/config/diff.go:36-74 | the list is empty exactly when the documents are equal |
| JsonDiff.PathsPrefixFree | internal/config/diff.go:43-73 | no operation's pointer is a prefix of another's |
| DiffOrder.EditsAreDifferences | internal/config/diff.go:36-74 | there is an edit for each place where the two documents differ, said of the documents, and for no other |
| DiffOrder.DiffReportsDifferences | internal/config/diff.go:19-74 | for two objects the operations are exactly those differences, each once, in the order of the keys that lead there |
| Registry.ResolveValue | internal/config/registry.go:397-473 | the resolving loop computes the specified resolution |
| Registry.AdmitValue | internal/config/registry.go:405-446 | a candidate is admitted or refused as the registry's checks say |
| Registry.ComposeValue | internal/config/registry.go:448-472 | the contributions and the winner of a ranked list |
| Registry.ResolveIgnoresOrder | internal/config/registry.go:397-473 | every permutation of the stored values resolves, or is refused, alike |
| Registry.ResolveContributions | internal/config/registry.go:448-472 | the default and all values contribute in strictly rising rank, exactly the last effective |
| Registry.ResolvePicksHighest | internal/config/registry.go:448-472 | the result is the highest-ranked scope's value, never a secret's |
| RegistryRules.ResolvesIff | internal/config/registry.go:397-446 | a setting resolves exactly when it is registered with a default it takes and is stored usably by at most one scope of each kind |
| RegistryRules.ResultShows | internal/config/registry.go:448-472 | the result hides a secret and shows the default and each stored value once, the effective one marked |
| Precedence.DecidingScopeWins | internal/config/registry.go:30-48 | the source is the job override where one is stored, else the job template, environment, project, pack or system, and the default for no value |
| Precedence.ContributionsInOrder | internal/config/registry.go:447-472 | the contributing scopes are listed in that named order, the default first |
| Precedence.EffectiveByPrecedence | internal/config/service.go:170-206 | and so for every key of the effective configuration of a list of scopes |
| EffectiveConfig.ComputeEffective | internal/config/service.go:170-206 | the effective configuration of a set of scopes, whatever order a state lists its values in |
| EffectiveConfig.TakeSnapshot | internal/config/registry.go:482-495 | a snapshot resolves every registered key, and refuses unknown ones |
| EffectiveConfig.ResolveRefed | internal/config/registry.go:397-473 | a value's own non-built-in contributions resolve to it again |
| EffectiveConfig.SnapshotIsFixpoint | internal/config/service.go:630-659 | re-resolving the contributions reproduces every value, source and contribution list |
| EffectiveConfig.SnapshotJob | internal/config/service.go:630-659 | the job snapshot is the effective configuration |
| Drafts.ValidateEntries | internal/config/service.go:208-271 | the entry loop reports and normalises as specified |
| Drafts.ReviewValidIff | internal/config/service.go:208-271 | a draft is valid exactly when each entry is accepted and no key repeats |
| Drafts.ValidatedIsNormal | internal/config/service.go:233-263 | accepted entries are permitted, canonical and distinct |
| Drafts.UntouchedHolds | internal/config/service.go:309-333 | a descriptor that is not impacted holds after a change exactly when it held before |
| Drafts.IncrementalCheckIsExact | internal/config/service.go:309-341 | checking the impacted descriptors alone is equivalent to checking all |
| Drafts.CheckRelations | internal/config/service.go:316-333 | the issues of one descriptor's dependencies and incompatibilities |
| Drafts.CheckImpacted | internal/config/service.go:309-341 | the relation issues of impacted descriptors and the cross-field rule |
| Drafts.NoContextIssue | internal/config/service.go:309-341 | no issue is reported exactly when the impacted relations and the cross-field rule hold |
| Drafts.FindFallback | internal/config/service.go:288-299 | a reset falls back to the highest contribution of another scope |
| Drafts.Predict | internal/config/service.go:278-308 | the predicted values and the changed keys of a draft |
| Drafts.ValidateInContext | internal/config/service.go:273-341 | the contextual check as a whole |
| ConfigRules.SignedDecodes | internal/config/service.go:335-338 | a written integer decodes to itself exactly when it fits in 64 bits |
| ConfigRules.CrossFieldIff | internal/config/service.go:335-338 | the output reserve is reported exactly when both budgets fit in 64 bits and the reserve is not below the input |
| ConfigRules.NoCrossField | internal/config/service.go:335-338 | nothing is reported of the budgets when one of them is no integer |
| ConfigRules.RelationIssueIff | internal/config/service.go:309-382 | which dependencies and incompatibilities are reported, said of the values as JSON |
| DraftRules.JudgeRefuses | internal/config/service.go:233-263 | what each code of a refused entry means |
| DraftRules.IssueIff | internal/config/service.go:208-271 | the issues of the entry loop, each with its entry |
| DraftRules.DraftIssues | internal/config/service.go:208-232 | what is refused before the entries are looked at |
| DraftRules.ValidDraft | internal/config/service.go:208-271 | a draft is valid exactly when it has 1 to 500 entries of distinct keys that all fit the scope and their settings |
| RegistryService.ProspectiveIsEffective | internal/config/service.go:278-308 | the prediction equals, key for key, the effective values after the draft is applied |
| RegistryService.AcceptedExactlyWhenConsistent | internal/config/service.go:273-341 | from a consistent chain, a draft is accepted exactly when the chain after it is consistent |
| RegistryService.CheckDecides | internal/config/service.go:309-341 | on a consistent configuration the issues decide the consistency of the predicted one |
| RegistryService.ChangeHits | internal/config/service.go:622-628 | a change puts its value when configured and deletes its key when not |
| RegistryService.ChangeMisses | internal/config/service.go:622-628 | a key no change names is left as it was |
| ScopeHistory.ComputeRollback | internal/config/service.go:553-620 | the rollback loop computes the specified change list |
| ScopeHistory.RollbackDecides | internal/config/service.go:565-612 | it is refused exactly for an unknown key or a secret it cannot restore or may not clear |
| ScopeHistory.RollbackNames | internal/config/service.go:565-612 | it names exactly the keys that differ |
| ScopeHistory.RollbackNoOpIff | internal/config/service.go:613-615 | the change list is empty exactly when nothing differs |
| ScopeHistory.RollbackRestores | internal/config/service.go:553-620 | applied, it yields the target's keys and non-secret values and keeps the secrets |
| ScopeHistory.RollbackReinstates | internal/config/service.go:553-620 | any list of scopes has after a rollback what it has with the target's values and the present secrets, and fails to resolve when that fails |
| ScopeHistory.RollbackKeepsListIff | internal/config/service.go:553-620 | where secrets stayed secrets, any list of scopes is consistent after a rollback exactly when it is with the target state |
| ScopeHistory.RollbackConsistentIff | internal/config/service.go:553-620 | the scope's own chain is consistent afterwards exactly when the target is on the current system scope |
| ScopeHistory.SystemRollbackKeepsScopeIff | internal/config/service.go:553-620 | after a rollback of the system scope another scope's chain is consistent exactly when it is on the target |
| ScopeHistory.UnacceptedStopsChain | internal/config/service.go:605-611 | rolling back to a value the registry no longer accepts leaves a chain that does not resolve |
| ScopeHistory.ClearDraft | internal/config/service.go:522-551 | which drafts are cleared, and with which changes |
| ScopeHistory.Service.ApplyDraft | internal/config/service.go:522-551 | a draft is applied exactly when it is decided to be, and then completely |
| ScopeHistory.Service.Rollback | internal/config/service.go:553-620 | a rollback is applied exactly when it is decided to be, and then completely |
| ScopeHistory.DraftKeepsChain | internal/config/service.go:522-551 | an accepted draft leaves the chain it was checked against consistent |
| ScopeHistory.StepKeeps | internal/config/service.go:522-620 | a draft or rollback that leaves the system scope as it is keeps a scope's chain and its past states consistent; at the system scope any does |
| ScopeHistory.RunKeepsConsistent | internal/config/service.go:522-620 | over any run that leaves the system scope as it is, every scope's chain and all its past states stay consistent |
| ScopeHistory.RunKeepsSystemConsistent | internal/config/service.go:522-620 | over any run the system configuration and all past system states stay consistent |
| DraftRules.DraftAppliedIff | internal/config/service.go:522-551 | on a consistent chain a draft is applied exactly when it is reviewed, at its version and the scope's, valid, reauthenticated if it sets a secret, and leaves the chain consistent |
| DraftRules.RunWithoutAuthority | internal/config/service.go:522-620 | over any run of drafts and rollbacks without recent reauthentication no secret is configured that was not |
| HistoryRules.RollbackAppliedIff | internal/config/service.go:553-620 | a rollback is applied exactly at the version it names, when every key may be brought back and some key differs |
| HistoryRules.RollbackUndoes | internal/config/service.go:583-615 | its changes: one for each key that is apart, a value put back, one added since deleted, a secret cleared |
| HistoryRules.EventAdvances | internal/config/service.go:522-620 | an operation changes nothing, or takes its own scope from the version it names to the next and keeps that state under its revision |
| HistoryRules.VersionCounts | internal/config/service.go:522-620 | over any run a scope's version counts the operations applied to it |
| HistoryRules.LaterBase | internal/config/service.go:535-576 | of two operations applied to a scope the later one was made for a later version |
| ScopeLists.ListEffective | internal/config/service.go:170-206 | a list of scopes resolves exactly when the values stored for each key do, and each key then has the highest scope's value or the default |
| ListDrafts.OverlaidIsEffective | internal/config/service.go:278-308 | a list's effective values after a draft at one of its scopes: a key no higher scope stores takes the entry's value or what lies below, every other keeps its own |
| ListDrafts.DraftKeepsListIff | internal/config/service.go:273-341 | a valid draft keeps a list's consistent configuration consistent exactly when the contextual check, made on the list's values and the changed keys no higher scope stores, finds nothing |
| ListDrafts.SystemDraftKeepsScopeIff | internal/config/service.go:273-341 | for a draft at the system scope and another scope's chain, the keys checked are the changed ones that scope does not store |
| ScopeExamples.SystemDraftCanBreakProject | internal/config/service.go:273-277 | an accepted system draft can leave a consistent project inconsistent |
| ScopeExamples.RollbackCanBreakChain | internal/config/service.go:553-620 | an accepted rollback can leave a consistent project inconsistent |
| ScopeExamples.ChainsDoNotMakeList | internal/config/service.go:273-281 | a pack and a project each consistent on the system scope are not consistent together |
| ExportImport.ExportScope | internal/config/export_import.go:41-75 | the export, whatever order the repository lists the scope in |
| ExportImport.SortingExport | internal/config/export_import.go:56-69 | the listing order does not show in the document |
| ExportImport.ScanValues | internal/config/export_import.go:117-147 | the import loop's issues, entries and preserved values |
| ExportImport.PreviewImport | internal/config/export_import.go:91-165 | the preview as a whole |
| ExportImport.ExportThenPreview | internal/config/export_import.go:41-165 | the preview of a scope's own export is valid exactly when 1 to 500 values travel and none is stranded, and its entries are those values |
| ExportImport.ImportableIff | internal/config/export_import.go:142-145 | nothing is stranded exactly when no stored key is exported with its value and barred from import |
| ExportImport.ImportPutsBack | internal/config/export_import.go:146-157 | applied to any state of the scope, the entries put back every value that travels and touch no other key |
| ImportRules.ExportHolds | internal/config/export_import.go:41-75 | an export holds every secret as a fact and every exportable value, in the order of the keys |
| ImportRules.ExportsIff | internal/config/export_import.go:41-85 | a scope is exported exactly when its keys are registered and what travels can be encoded |
| ImportRules.PreviewIssueIff | internal/config/export_import.go:91-165 | the issues of the preview of any document, said of the document and its values |
| ImportRules.PreviewValidIff | internal/config/export_import.go:149-165 | a preview is valid exactly when something is taken in and only three kinds of warnings are reported |
| ImportRules.PreviewHolds | internal/config/export_import.go:117-157 | what is taken in and what is preserved: the first value of each key, by what it is |
| Reimport.ValidationIsIdempotent | internal/config/service.go:208-271 | validating what validation returned accepts it and returns it unchanged |
| Reimport.ReimportIsAccepted | internal/config/export_import.go:167-180 | a scope's own export, imported into the unchanged scope, passes the contextual check when the chain is consistent, and predicts the configuration there is |
| DottedKeys.SetFits | internal/capabilities/config.go:185-196 | writing one more value at its path leaves an object that holds exactly one more value |
| DottedKeys.WritingBelowMakesObject | internal/capabilities/config.go:185-196 | writing below a path replaces whatever is there by an object |
| OverwrittenKeys.OverFits | internal/capabilities/config.go:185-196 | writing below a value already written gives up that value and holds the others and the new one |
| CapabilityConfig.FlattenConfiguration | internal/capabilities/config.go:103-132 | for every iteration order: succeeds exactly on sound input, and each spelled key then holds a value spelled for it |
| CapabilityConfig.RegisterFields | internal/capabilities/config.go:42-58 | the fields are accepted exactly when keys are distinct and defaults decode and are allowed |
| CapabilityConfig.NormalizeConfiguration | internal/capabilities/config.go:26-86 | the answer is one the specification allows for some iteration order |
| CapabilityConfig.AnsweredFrom | internal/capabilities/config.go:59-86 | a normalised document is the nesting of one allowed value for every field |
| CapabilityConfig.NestedCollectsItself | internal/capabilities/config.go:103-132 | flattening an object that holds a prefix-free set of values yields exactly those values |
| CapabilityConfig.NormalizeAgain | internal/capabilities/config.go:26-86 | a normalised document normalises to itself exactly when no field key lies under another, and is refused otherwise |
| CapabilityConfig.NormalizeIgnoresOrder | internal/capabilities/config.go:60-69 | without aliases there is only one possible answer |
| CapabilityRules.AnswerIff | internal/capabilities/config.go:26-86 | a document is a possible answer exactly when it nests, in at most 64 KiB, a configuration of the fields taken from the submitted object |
| CapabilityRules.SuppressionIff | internal/capabilities/config.go:88-101 | a suppression with a reference has a reason and an expiry, and one without has neither |
| CapabilityRules.SoundIff | internal/capabilities/config.go:103-132 | flattening reports nothing exactly when every name it meets is a field with a scalar, or has an object and a field beneath it |
| CapabilityOrder.NestedShows | internal/capabilities/config.go:72-80 | the nested document holds exactly the values of the keys that no other lies under |
| CapabilityOrder.SameDocumentIff | internal/capabilities/config.go:72-80 | two configurations of the same keys nest to the same document exactly when they agree on what shows |
| CapabilityOrder.OrderMattersIff | internal/capabilities/config.go:26-86 | an accepted configuration is the only possible answer exactly when no shown key is spelled with two values, every spelled value is allowed and the suppression texts always fit together |
| CapabilityOrder.EveryChoicePassesIff | internal/capabilities/config.go:61-71 | every choice of spelled values passes exactly when each is allowed and the suppression texts fit together whichever are taken |
| CapabilityOrder.AliasesDecideOrder | internal/capabilities/config.go:26-86 | where no field key lies under another, exactly when the input has no aliases |
| CapabilityOrder.AliasesDependOnOrder | internal/capabilities/config.go:103-115 | with an alias two different answers are possible |
| ForgeInventory.CollectInventory | internal/gitbridge/forge_inventory.go:129-190 | the endpoint loop computes the specified inventory and cursor |
| ForgeInventory.SyncForge | internal/gitbridge/manager.go:509-613 | one call resumes at the cursor and leaves the next one |
| ForgeInventory.ChainNeverGoesBack | internal/gitbridge/manager.go:579-613 | over a chain of calls the cursor never goes back |
| ForgeInventory.ChainAccounts | internal/gitbridge/forge_inventory.go:129-190 | what a chain returns and passes over is exactly what lies between its cursors |
| ForgeInventory.NothingReturnedTwice | internal/gitbridge/forge_inventory.go:129-190 | no position is returned twice, rate limits and refusals or not |
| ForgeInventory.FinishedChainIsComplete | internal/gitbridge/forge_inventory.go:129-190 | a finished chain returned or passed over every entry of the listing |
| ForgeInventory.CallAdvances | internal/gitbridge/forge_inventory.go:129-190 | a call that meets no rate limit moves the cursor strictly forward |
| ForgeInventory.EnoughCallsFinish | internal/gitbridge/forge_inventory.go:180-190 | a chain finishes once a bounded number of its calls meet no rate limit |
| ForgeInventory.NeverFinishes | internal/gitbridge/forge_inventory.go:156-158 | with a refusing last endpoint no chain finishes |
| ForgeInventory.ChainFinishesIff | internal/gitbridge/forge_inventory.go:129-190 | a long enough chain finishes exactly when the last endpoint answers |
| InventoryRules.ListingIs | internal/gitbridge/forge_inventory.go:307-375 | the listing is every kept entry of the supported endpoints once, endpoint after endpoint |
| InventoryRules.FirstPage | internal/gitbridge/forge_inventory.go:137-180 | what a call returns of the endpoint at its cursor is the asked page, of a hundred entries or of the limit |
| InventoryRules.AnswerTells | internal/gitbridge/forge_inventory.go:151-190 | which refused endpoints an answer names, when it asks to retry, and when it is done |
| InventoryRules.SyncCollects | internal/gitbridge/manager.go:579-613 | a synchronisation returns what is collected at its cursor with the room left, and finishes when that got past the last endpoint |
| CompleteInventory.CallLosesNothingIff | internal/gitbridge/forge_inventory.go:145-149 | a call passes over nothing exactly when its room cuts no page of one hundred before a listed entry |
| CompleteInventory.ChainCompleteIff | internal/gitbridge/forge_inventory.go:129-190 | a finished chain returned the whole listing in order exactly when that holds of each of its calls |
| CompleteInventory.SizesDecide | internal/gitbridge/forge_inventory.go:145-149 | where every entry is listed, the sizes of the pages and the room alone decide it |
| CompleteInventory.RoomyCallLosesNothing | internal/gitbridge/forge_inventory.go:145-149 | a call with room for the page at its cursor and the first pages ahead loses nothing |
| CompleteInventory.AmpleChainReturnsListing | internal/gitbridge/manager.go:579-613 | calls with room for all first pages, a number of them unlimited, finish and return the whole listing |
| CompleteInventory.FullPagesReturnListing | internal/gitbridge/forge_inventory.go:129-190 | where every page is asked for at one hundred, enough unlimited calls finish and return the whole listing in order |
| CompleteInventory.ShortFirstPageLosesAnEntry | internal/gitbridge/forge_inventory.go:145-149 | a short first page loses an entry for good |
| Restore.ValidateBundle | internal/backup/manager.go:247-275 | a bundle validates exactly when manifest, lengths and digests match; the report's totals |
| Restore.Volume.WriteAtomic | internal/backup/manager.go:323-347 | a file is opened, filled and renamed into place, or stopped before that |
| Restore.Volume.ApplyPending | internal/backup/manager.go:277-321 | what one start does to the disk before it finishes or is stopped, and what it answers |
| Restore.MarkerTellsCompletion | internal/backup/manager.go:277-321 | the marker is gone exactly when some attempt completed, and unchanged until then |
| Restore.RestoreIsRedone | internal/backup/manager.go:293-320 | once an attempt completes, every path has the content the bundle gives it, whatever happened before |
| Restore.CrashesDoNotShow | internal/backup/manager.go:277-321 | a run with crashes that completes leaves what one uninterrupted attempt leaves |
| Restore.OthersUntouched | internal/backup/manager.go:293-316 | paths that are not bundled never change |
| RestoreRules.ManifestFixesBundle | internal/backup/manager.go:247-275 | under injective digests two intact bundles with one manifest hash are the same, every byte of every file included |
| RestoreRules.OtherDataIntactIff | internal/backup/manager.go:255-275 | other data in the entries of an intact bundle are intact exactly when each has its entry's length and digest |
| RestoreRules.RestoreLeavesBundle | internal/backup/manager.go:277-321 | after any crashes a completed restore leaves at each path the data of the last file that goes there, no write-ahead file of the old database, and the rest as it was |
| OriginalDatabase.OriginalKept | internal/backup/manager.go:293-320 | over any attempts the original database is in its place, or under its pre-restore name, unless a later set-aside of a database read the same second |
| OriginalDatabase.OriginalKeptIff | internal/backup/manager.go:293-320 | of an original that occurs nowhere else, a copy is left exactly then |
| OriginalDatabase.OriginalSurvives | internal/backup/manager.go:293-320 | where executed set-asides read different seconds it survives, and is under a pre-restore name once an attempt completes |
| OriginalDatabase.SameStampLosesOriginal | internal/backup/manager.go:303-309 | two attempts with one stamp can lose it |
| OriginalDatabase.DatabaseTwiceLosesOriginal | internal/backup/manager.go:293-316 | one uninterrupted attempt within a second loses it when the bundle names the database twice |
| PublishingProgram.Forge.CreateDraftPullRequest | internal/gitbridge/githubapi.go:139-164 | look-up, creation and second look-up, or stopped among them |
| PublishingProgram.Forge.FindOpenPull | internal/gitbridge/githubapi.go:166-183 | the first pull request with the marker on the page the forge lists |
| PublishingProgram.Forge.Publish | internal/gitbridge/manager.go:286-349 | how far a call gets and what it leaves behind when it may be stopped anywhere and its look-up of the branch may fail |
| DraftPullRequests.RunKeepsDrafts | internal/gitbridge/githubapi.go:147-150 | over any run of calls, crashes and changes by others, every pull request the program opened is a draft |
| DraftPullRequests.OutcomeNames | internal/gitbridge/githubapi.go:139-183 | a call names an open pull request for the job, and one it opens is a draft, from the job's branch to the default branch, with the job's marker |
| Publication.OnlyApprovedResultsPushed | internal/gitbridge/manager.go:306-333 | every push sets the job's own branch, never the default branch, to the result its request names |
| Publication.DefaultBranchUntouched | internal/gitbridge/manager.go:318-333 | only others ever change the default branch |
| Publication.CallResult | internal/gitbridge/manager.go:286-349 | the outcome of an undisturbed call, in every case |
| Publication.RetryFindsSame | internal/gitbridge/githubapi.go:166-183 | a repeated call finds the same pull request and changes nothing |
| Publication.CrashesAreRetried | internal/gitbridge/manager.go:286-349 | after any crashes, and failed look-ups of a branch that is absent or right, a retry that gets through leaves what one undisturbed call leaves |
| Publication.KeyUsableIff | internal/gitbridge/githubapi.go:139-143 | for which job names and default branches a pull request can be opened |
| PublicationRules.OutcomeIff | internal/gitbridge/manager.go:286-349 | when each outcome is reached, said of the request, the branches and the pull requests |
| PublicationRules.ConflictIff | internal/gitbridge/manager.go:308-349 | when a call ends in conflict |
| PublicationRules.BranchAfter | internal/gitbridge/manager.go:318-333 | where the job's branch is afterwards, and that nothing else moves |
| PublicationRules.NewestFound | internal/gitbridge/githubapi.go:168-183 | the pull request found is the newest for the job |
| PublicationRules.CrashesAreRun | internal/gitbridge/manager.go:286-349 | calls that crash leave what the run of their steps leaves |
| PullRequests.FindsIff | internal/gitbridge/githubapi.go:166-183 | a look-up finds a marked pull request exactly when one has fewer than ten newer ones before it |
| PullRequests.OpensIff | internal/gitbridge/githubapi.go:144-164 | a call that may publish opens a pull request exactly when none of the ten newest that compete has its marker and the forge takes one, and finds one exactly when some has |
| PullRequests.PullRequestsBounded | internal/gitbridge/githubapi.go:139-183 | over any run with crashes and changes by others, on any forge, the program opened at most one more pull request for a job than were released, if no look-up overlooks a standing one behind ten others |
| PullRequests.OverlookedGetsSecond | internal/gitbridge/githubapi.go:139-164 | an overlooked pull request gets a second one beside it where the forge takes it |
| PullRequests.OneOpenAtMost | internal/gitbridge/githubapi.go:139-183 | on a forge that refuses a second one, nothing is overlooked and at most one pull request is open for the job |
| PullRequests.CrowdHidesOwn | internal/gitbridge/githubapi.go:166-183 | behind ten others without its marker the program's own pull request is overlooked |
| WorktreeCommits.Repository.Commit | internal/gitbridge/manager.go:216-256 | one call's effect and answer, when it may be stopped anywhere |
| WorktreeCommits.CommittedOnce | internal/gitbridge/manager.go:216-256 | over any run an operation is committed at most once |
| WorktreeCommits.RetryCommitsOnce | internal/gitbridge/manager.go:226-256 | a retry after a stop anywhere leaves one commit and answers with it |
| WorktreeCommits.MessageNames | internal/gitbridge/manager.go:228 | a message names an operation exactly when that name begins the one it was made for |
| WorktreeCommits.AnswerOnOtherHead | internal/gitbridge/manager.go:226-232 | on another head the answer is that head exactly when its operation's name begins with the one asked for |
| WorktreeCommits.ShorterNameIsTakenFor | internal/gitbridge/manager.go:226-232 | an operation is answered with another's commit |
| CommitRules.CommitsIff | internal/gitbridge/manager.go:216-256 | when a commit is made, on which head, and with which message |
| CommitRules.AnswersAre | internal/gitbridge/manager.go:216-256 | the answer of a call, case by case |
| CommitRules.CommitsComeFromCalls | internal/gitbridge/manager.go:216-256 | over any run every new commit was made by a call that found its expected head and a tidy difference, and none is lost |
| LoginLimiter.Limiter.AllowAttempt | internal/auth/service.go:378-392 | who is admitted, and that an expired window is dropped |
| LoginLimiter.Limiter.RecordFailure | internal/auth/service.go:394-405 | a failure counts in the current window or begins one |
| LoginLimiter.Limiter.ClearAttempts | internal/auth/service.go:407-411 | a success forgets the key |
| LoginLimiter.CounterBounded | internal/auth/service.go:124-152 | whatever the clock reads, failures counted and attempts under way never exceed 4 + limit |
| LoginLimiter.FailuresPerWindow | internal/auth/service.go:378-405 | any five minutes see at most 2 * limit + 7 failures |
| LoginLimiter.FailuresPerClosedWindow | internal/auth/service.go:378-405 | with both ends counted, at most 2 * limit + 8 |
| LoginLimiter.BoundsAreReached | internal/auth/service.go:378-405 | both bounds are met by some run |
| LoginLimiter.FiveMinutes | internal/auth/service.go:384-405 | both bounds with the window in nanoseconds |
| Evidence.CompareObservations | internal/intelligence/service.go:388-432 | the comparison computes the specified items |
| Evidence.ItemsFollowKeys | internal/intelligence/service.go:388-432 | one item for each key of either side, in key order, classified by what the sides hold |
| Evidence.ObservationsConserved | internal/intelligence/service.go:412-423 | the classes count every baseline and every candidate key, and nothing is indeterminate |
| Evidence.SwapMirrors | internal/intelligence/service.go:388-432 | swapping the sides swaps resolved with newly introduced |
| Evidence.SupersedeBaseline | internal/intelligence/service.go:497-532 | the replacing observations, and when the request is refused |
| Evidence.SupersessionReproduces | internal/intelligence/service.go:514-530 | comparing the replacement with the candidate is all pre-existing exactly when every observation survives its encoding |
| Evidence.LosslessIff | internal/intelligence/service.go:519-524 | for a kind without NUL, an observation survives exactly when its kind, key, status and value do |
| EvidenceRules.ComparisonSays | internal/intelligence/service.go:388-432 | each item says which last observations the two runs hold for its kind and key, and whether their status and value agree |
| EvidenceRules.SupersededIff | internal/intelligence/service.go:497-532 | a baseline is superseded exactly on recent reauthentication, with identities and a bounded reason, by its own differential with attested candidates, and by those candidates |
| Corrections.Service.CorrectDifferential | internal/intelligence/service.go:556-600 | one correction: the two searches, the refusals, and what is appended |
| Corrections.OriginalIs | internal/intelligence/service.go:572-581 | what a finding counts as before any correction |
| Corrections.RunSound | internal/intelligence/service.go:568-599 | over any run every entry changes how its finding counted, and never from new to gone or known |
| Corrections.CorrectedIff | internal/intelligence/service.go:556-600 | when a correction is accepted |
| Corrections.ConsecutiveJoin | internal/intelligence/service.go:582-592 | a correction begins where the finding's previous one ended exactly when at most five hundred entries lie from the one to the other |
| Corrections.Forgotten | internal/intelligence/service.go:582-592 | behind five hundred corrections of others a finding counts as it did originally |
| Corrections.TwoCorrectionsClassifyAway | internal/intelligence/service.go:595-599 | two accepted corrections classify any new finding away |
| Corrections.ClassifiedAwayIff | internal/intelligence/service.go:592-599 | an originally new finding is classified away by a correction exactly when it counts as something else by then |
| Corrections.DetourFirst | internal/intelligence/service.go:592-599 | a new finding that counts as something else was corrected to changed or indeterminate first |
| ContextPacket.CompileContext | internal/intelligence/service.go:303-350 | the compiled packet |
| ContextPacket.PacketKeepsBudget | internal/intelligence/service.go:313-341 | one selection each, in order; tokens used are the included costs and within budget; truncated exactly when something overflowed, and that still would at the end |
| ContextPacket.NothingIncludedTwice | internal/intelligence/service.go:323-337 | no hash is included twice, and a duplicate was included earlier |
| ContextPacket.OrderDoesNotMatter | internal/intelligence/service.go:307-312 | the order of candidates with distinct identities does not matter |
| PacketOrder.RefusedIff | internal/intelligence/service.go:303-306 | which budgets and candidate counts are refused |
| PacketOrder.SelectionDecided | internal/intelligence/service.go:318-341 | what becomes of each candidate, the ones before it decided |
| PacketOrder.PacketTakesByPriority | internal/intelligence/service.go:307-341 | the selections go by falling priority and rising identity, and one left out for budget overflows with included ones of at least its priority alone |
| JobStates.PublishingWasApproved | internal/jobs/state.go:77-108 | a publishing or completed job passed approval, then implementation, then an operator, since it was last queued |
| JobStates.CompletedIsFinal | internal/jobs/state.go:77-108 | nothing follows completion |
| JobStates.CompletionReachable | internal/jobs/state.go:77-108 | every state can still be completed |
| JobStates.DistanceIsShortest | internal/jobs/state.go:77-108 | and in no fewer steps than stated |
| JobStates.RankFalls | internal/jobs/state.go:77-108 | every step that enters no hub goes down in rank |
| JobStates.RunLength | internal/jobs/state.go:77-108 | a run is no longer than its first rank and its hub entries allow |
| JobStates.LoopsMeetHubs | internal/jobs/state.go:77-108 | a state that occurs twice has a hub in between |
| JobStates.TransitionIff | internal/jobs/state.go:77-108 | the table read the other way: from which states each one is entered |
| GoldenApprovals.ResolveApprovals | internal/golden/types.go:339-367 | the counts of pending and rejected comparisons |
| GoldenApprovals.LatestIsNewest | internal/golden/types.go:340-350 | the decision kept for a comparison is its newest |
| GoldenApprovals.ResolutionIgnoresOrder | internal/golden/types.go:339-367 | the order in which decisions are listed does not matter |
| GoldenApprovals.NothingPendingIff | internal/golden/types.go:351-366 | nothing is pending exactly when every newest decision needed approves |
| GoldenApprovals.ResolutionCounts | internal/golden/types.go:339-367 | pending are the comparisons without an approving decision of the greatest time and identity, rejected those with a declining one |

## Left out

- HTTP routing, the SQLite storage, the workflow engine and the web interface: I/O.
- Decoding of bytes: a raw message is its decoded value and a layout, or malformed text. Digests and Git's object identities are parameters or fresh names. The registry's regular expressions and value formats are opaque predicates.
- Messages, severities beyond error and warning, apply modes of drafts and audit records.
- Operations on one scope are sequential; a stale version is refused by the repository.
- RegistryService: the repository's own refusals (more than 500 changes, values over its size limit, a key whose stored secrecy differs from the change's) and its version counter for each value, which the model takes from the scope's version.
- Registry: `NewRegistry`'s checks are the predicate `ValidRegistry`; labels, prerequisites and recommended values are not modelled.
- DottedKeys.SetFits: the nested maps are values that are rebuilt, where the source writes into them in place.
- CapabilityConfig.FlattenConfiguration: of a failing walk only the failure is modelled, not which of several errors is reported.
- ExportImport: the revision identifier of the document is not kept, and the encoded form is represented by its digest.
- ForgeInventory: cursors are values, not their base64 text; GitLab's expansion of artifacts is not modelled; the server does not change during a chain.
- Restore: an operation that fails without the machine stopping also removes its temporary file, which the model leaves; a failing removal of the write-ahead files is ignored by the source and succeeds in the model. The source also skips the set-aside when it cannot tell whether a database is there; the model can always tell. Directories are not modelled.
- Publication: merge requests of GitLab and local remotes are not modelled, nor the title and wording of a pull request and the address of its repository. A response that cannot be read counts as a stop. Calls of a job do not overlap, and its worktree's HEAD stays where it is during a call, which pushes HEAD and not the hash that was approved.
- WorktreeCommits: nobody else commits in a job's worktree.
- LoginLimiter.FailuresPerWindow: the clock is read in the order the critical sections run; a reading delayed past another section is covered by LoginLimiter.CounterBounded only.
- Evidence.CompareObservations: an encoded observation is held by what it decodes to.
- Corrections: entries of one instant, which the source lists by their identities, are taken in the order they were appended; one project's ledger is modelled.
- GoldenApprovals: approval and report validation, and how comparisons are made.
- Parsing of code, test impact, caches and retention of the intelligence service.
