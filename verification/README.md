# Verified model of the workflow governance tools

The repository governs file-based workflows: an installer edits text files that several platforms share, and a set
of validators and record writers keeps ledgers and records that later steps rely on. This project models the parts of
it that must be right across failures and over whole runs, and proves what they keep. `dafny verify dfyconfig.toml`
checks everything.

## What is modelled

**The installer** (`delivery/scripts/install.py`).
`Text` has the Python string operations. `ManagedBlock` has rendering, lookup, upsert and clear of the
sentinel-delimited blocks of a shared file; `SharedFile` proves that the file, edited by substring search and
whitespace trimming, refines a map from platform to block; `BlockContent` that a block holds the rule content it was
made from; `UserPrefix` that the user's text stays in front of it; `UpsertLaws` has the fixpoint and undo laws.
`FileTree` and `Transaction` have the file tree and the first-write-wins undo log, with a stop possible between any
two effects of a call; `Cleanup` has the empty-directory pass; `Installer` has all of these in place, as a class
whose methods are proved against them; `FileRuns` has whole runs of its upserts and clears on any files. `Toml` has the two string printers and a reader written from the "String"
section of TOML v1.0.0. `Manifest` and `ManifestRuns` have the ownership records, stale pruning and uninstallation.

**The detector** (`meta_flow/checks/detector_qualification.py`). `Detector` has the two searches through a possibly
cyclic assignment environment, `ScopeWalk` the explicit-stack traversal, `LexicalScopes` the scopes around a line,
`Allowlist` the matching of unresolved writers against their allowlist.

**Corrections** (`meta_flow/checks/correction.py`). `Correction` has validation, the cycle walk and the append-only
ledger, `CorrectionReplay` the replay, `CorrectionValues` what the replay leaves at each path.

**Records** (`meta_flow/retrospective.py`, `meta_flow/evolution.py`). `Records` has the repository and its atomic
actions, `Confirmation` the three-file confirmation, `Evolution` the calls of all record writers, `EvolutionRuns` whole
runs of them, `EvolutionHistory` which calls stand behind each record, `RecordStore` the writers in place.

**Receipts, checkpoints, digests.** `ReceiptBundle` (`scripts/qualify_provider_artifact.py`) has the two-file commit
and `ReceiptReader` what a reader accepts meanwhile,
`CheckpointLedger` (`meta_flow/checks/cp_result.py`) the checkpoint ledger with the projector as a parameter,
`DigestPolicy` and `PayloadObservers` (`delivery/scripts/digest_policy.py` and the installed-payload digest of the
installer) the three observers. Hashes, `str.lower`, the projector and the digest of a ledger file are parameters.

## Where the code does not keep what one would expect

* An upsert into a file whose user text ends in a blank line drops the separator, so it is not yet a fixpoint
  (`UpsertLaws.AppendIsFixpointUnless`).
* Rollback stops for good when a logged path has become a directory or lies above a logged path that held a file
  (`Transaction.RollbackGetsThroughIff`, `Transaction.ReplacedByDirectory`).
* The multi-line TOML printer leaves runs of double quotes that are longer than three and no multiple of three
  mis-escaped (`Toml.MultilineRoundTripIff`).
* A partial installation replaces the record whole and forgets the paths of the other components, and an
  installation over a recorded skill directory forgets the directory; among the paths of recorded components these
  are the only ways to orphan one
  (`ManifestRuns.NoOrphansIff`, `ManifestRuns.PartialInstallForgets`, `ManifestRuns.SkillDirectoryForgotten`).
* An empty correction chain is not checked, so the first event may supersede itself
  (`Correction.AcceptedLedgerAcyclicIff`).
* The comments in `retrospective.py` promise that confirmed data comes with its witnesses; that fails when the
  confirmation path is one of the call's own temporaries (`Confirmation.OrderHoldsIffRefApart`). A call that stops
  while writing its temporaries, which happens outside the handler, or is killed before the handler has unlinked
  those of the data and the report, leaves a temporary that blocks every later confirmation
  (`Confirmation.RetryableIff`).
* A kill between the two writes of a new retrospective leaves a draft without a report. A decision can then be
  recorded at the report's path, and a package that relies on it loses its provenance when the draft is confirmed.
  A package that is not so endangered when it is written never loses it (`EvolutionRuns.EveryRunKeepsProvenanceIff`,
  `EvolutionRuns.KillLosesProvenance`).
* A confirmation whose path is that of its own missing report puts the report there and then fails, the data still
  being the draft (`Confirmation.ConfirmationCompletesIff`).
* Only the wheel observer leaves out distribution metadata and only the source observer the root's `.git`
  (`PayloadObservers.SourceMatchesWheelIff`).

## Model

| member | source | states |
|---|---|---|
| SharedFile.AnyRunOwns | delivery/scripts/install.py:1089-1176 | From no file or sentinel-free user text, any sequence of upserts and clears by any platforms succeeds, and each platform then owns exactly the block its own last call left: one begin sentinel, and the lookup gives that block character for character, or nothing after a clear |
| BlockContent.AnyRunCarries | delivery/scripts/install.py:1097-1176 | After any such run, in the characters of the file: the block the lookup finds for a platform is its begin line, the front matter of the content of its last upsert, the audit line, the rest of that content and the end line, the two parts of the content character for character but for the whitespace around them; after a clear nothing is found |
| SharedFile.RunRefines | delivery/scripts/install.py:1138-1176 | Every run of upserts and clears on a well-formed file succeeds and does to the file what it does to a map from platform to block; the user's text, up to whitespace, stays the same throughout |
| SharedFile.OwnedIsLastBlock | delivery/scripts/install.py:1138-1176 | The map after a run holds for a platform the block of its last upsert, and nothing if it never upserted or cleared since |
| SharedFile.ClearedRunKeepsUserText | delivery/scripts/install.py:1162-1176 | After a run in which every platform ends without a block, the non-whitespace characters of the file are those the user wrote |
| UserPrefix.UserTextStaysInFront | delivery/scripts/install.py:1138-1176 | After any run, the user's right-stripped text stays in front of the file character for character |
| UserPrefix.ClearedRunRestoresUserText | delivery/scripts/install.py:1162-1176 | After a run in which every platform ends without a block, the file is exactly as the user left it, or right-stripped with one newline |
| SharedFile.UpsertHolds | delivery/scripts/install.py:1138-1159 | One upsert sets the block of its platform in the abstract map and changes no other block and no user text |
| SharedFile.ClearHolds | delivery/scripts/install.py:1162-1176 | One clear removes the block of its platform from the abstract map and changes nothing else |
| SharedFile.InnerIsInnerText | delivery/scripts/install.py:1103-1106 | Sentinel-free rule content, however it is stripped and given its audit line, is rendered to a block interior in which no sentinel can be found |
| BlockContent.RenderedCarries | delivery/scripts/install.py:852-860 | A rendered block holds its content in this form for every content, with or without front matter |
| BlockContent.CutKeepsInk | delivery/scripts/install.py:852-860 | So no character of the content but whitespace is missing from the block |
| BlockContent.FrontMatched | delivery/scripts/install.py:70 | The front matter that is cut off is there exactly when a line `---` opens the text and a fence closes it, and ends behind the first such fence |
| SharedFile.BlockFound | delivery/scripts/install.py:1109-1135 | The lookup finds a rendered block from its begin sentinel to the end of its end marker, whatever surrounds it, if neither of the platform's sentinels stands before it |
| BlockContent.LegacyMigrates | delivery/scripts/install.py:1109-1159 | A block between the sentinels that name no platform is found by any platform that has none of its own, and an upsert puts that platform's block in its place, leaving all other blocks and the user's text |
| BlockContent.LookupFailsIff | delivery/scripts/install.py:1109-1135 | The lookup fails exactly when the platform's sentinels are unpaired, or are absent while the legacy ones are unpaired; unpaired being an end marker with no begin before it, or a begin without any end |
| ManagedBlock.PlatformsForeign | delivery/scripts/install.py:1089-1094 | The sentinels of one platform are never a prefix of anything that starts with the sentinels of another, so the substring search cannot mistake platforms whose names share a prefix |
| ManagedBlock.FindAfter | delivery/scripts/install.py:1109-1119 | A sentinel absent from the text before it is found at the place where it stands |
| ManagedBlock.JoinThree | delivery/scripts/install.py:1156-1159 | Joining the non-empty parts by blank lines is the same as setting each part off from the next by a blank line |
| UpsertLaws.ReplaceIsFixpoint | delivery/scripts/install.py:1155-1159 | Replacing an existing block, found through its own or through the legacy sentinels, by a rendered block settles after one application, for any surrounding text |
| UpsertLaws.AppendIsFixpointUnless | delivery/scripts/install.py:1149-1153 | From a file without the block the second upsert is always a fixpoint; the first already is exactly when it is not the case that the file has user text and ends in a blank line |
| UpsertLaws.ClearUndoesUpsert | delivery/scripts/install.py:1138-1176 | Clearing after a first upsert gives the original text right-stripped plus one newline, with either separator and for empty and absent files |
| Transaction.RunExact | delivery/scripts/install.py:982-1056 | However a run of writes and removals is stopped, also between recording and mutating or with a torn write, the undo log holds the starting text of every path in it and no other path has changed |
| Transaction.RollbackRestores | delivery/scripts/install.py:1059-1074 | Rolling back a restorable state goes through in every order, restores the text of every file that existed and deletes every other logged file; the order does not matter and a second rollback changes nothing |
| Transaction.RollbackGetsThroughIff | delivery/scripts/install.py:1059-1074 | In the order the code uses, rollback gets through exactly when no logged path has become a directory and none lies above a logged path that held a file |
| Transaction.AnyRunRollsBack | delivery/scripts/install.py:1059-1086 | For every run from an empty log, stopped anywhere: rollback gets through exactly when the state is restorable, and then the files are those at the start |
| Transaction.FittingRunRollsBack | delivery/scripts/install.py:1059-1086 | If no path is written above or below one that was removed before it, rollback is exact wherever the run stops, the empty-directory cleanup included |
| Transaction.WritesFirstRollsBack | delivery/scripts/install.py:2087-2181 | Rollback is exact wherever a run stops whose writes all come before its removals, as an installation and its pruning do, whatever the paths |
| Transaction.ReplacedByDirectory | delivery/scripts/install.py:1059-1074 | A concrete run outside the condition: a removed file replaced by a directory leaves the rollback stuck and its text lost |
| Transaction.ReverseSortedBelowFirst | delivery/scripts/install.py:1059-1074 | Reverse-sorted paths list everything below a path before the path itself |
| Transaction.WriteWrites | delivery/scripts/install.py:1026-1034 | A write that returns has left exactly its text at its path, and returns exactly when the target is usable and no fault comes in; every other text stays, and the directories above the path are made |
| Transaction.RemoveRemoves | delivery/scripts/install.py:1042-1056 | A removal that returns has left no file at its path and changed nothing else; one that does not has changed no text |
| FileRuns.EveryFileOwns | delivery/scripts/install.py:1026-1176 | Over any run of in-place upserts and clears on any files that goes through: on disk, each platform owns in each clean file exactly the block its own last call on that file left |
| FileRuns.EveryFileCarries | delivery/scripts/install.py:1026-1176 | And that block, on disk, holds the content of that call, or is gone after a clear |
| FileRuns.RunGoesThroughIff | delivery/scripts/install.py:1017-1176 | Without faults, a run on one writable file goes through exactly when the operations on its text succeed |
| FileRuns.EveryRunRollsBack | delivery/scripts/install.py:1059-1176 | Wherever a run of upserts and clears on any files is stopped, also by damaged sentinels or an unusable target, the rollback gets through and the files are those at the start |
| Installer.Files.WriteText | delivery/scripts/install.py:1026-1034 | The in-place write, stopped at any point, reaches exactly the state and outcome that the transaction model prescribes: an equal text changes nothing, the first original is recorded before the mutation; when it returns, its text and nothing else has been put on disk |
| Installer.Files.RemovePath | delivery/scripts/install.py:1042-1056 | The in-place removal, stopped at any point, reaches exactly the state the transaction model prescribes; a directory is refused; when it returns, the file is gone and nothing else is |
| Installer.Files.RecordOriginalText | delivery/scripts/install.py:982-984 | The log gains the current text of the path, or its absence, unless the path is already logged |
| Installer.Files.EnsureDirectory | delivery/scripts/install.py:1009-1014 | All components become directories, or nothing changes because a file stands in the way |
| Installer.Files.EnsureFileTarget | delivery/scripts/install.py:1017-1023 | The parent is made, and the outcome says whether the path can be written as a file |
| Installer.Files.Rollback | delivery/scripts/install.py:1059-1074 | The in-place loop over the reverse-sorted log is the restoration the transaction model describes, stopping at the first path it cannot restore |
| Installer.Files.UpsertManagedBlock | delivery/scripts/install.py:1138-1159 | The in-place upsert takes the file on disk through the operation on its text as one transactional write; it returns exactly when the target is usable, the sentinels are undamaged and no fault comes in, and otherwise no text has changed but for a torn write |
| Installer.Files.ClearManagedBlock | delivery/scripts/install.py:1162-1176 | The in-place clear takes the file on disk through the operation on its text; an absent file and a file without the block stay as they are; it returns under the same conditions |
| Installer.ReverseSorted | delivery/scripts/install.py:1059-1074 | The keys listed once each in descending order of their parts |
| Installer.Files.PruneEmptyRemovedParents | delivery/scripts/install.py:1765-1786 | One deepest-first pass removes exactly the directories that lie strictly below the root and above a removed leaf and hold, at any depth, no file and no other directory; nothing else changes |
| Installer.ParentsToCheck | delivery/scripts/install.py:1774-1779 | The parent walk collects exactly the paths strictly below the root and strictly above some removed leaf |
| Cleanup.EmptyIffRemovable | delivery/scripts/install.py:1780-1786 | When all deeper candidates have had their turn, a candidate directory is empty exactly if it transitively holds no file and no directory that is not a candidate |
| Cleanup.TakeTurn | delivery/scripts/install.py:1780-1786 | One turn keeps the tree equal to the original without the removable candidates visited so far |
| Toml.MultilineRoundTripIff | delivery/scripts/install.py:836-837 | For every text: the printed multi-line string, set as the renderer sets it, is read back by TOML v1.0.0 as the value plus one newline exactly when the text has no control characters but tab and newline and every maximal run of double quotes is shorter than three or a multiple of three long |
| Toml.StringRoundTripIff | delivery/scripts/install.py:831-833 | For every text: the printed basic string is read back as the value exactly when it has no control characters but tab |
| Toml.ReadIff | delivery/scripts/install.py:902-917 | Reading the printed body and its closing delimiter gives the value and the joining newline exactly under the same condition |
| Toml.QuotesPrinted | delivery/scripts/install.py:836-837 | How the two replacements change the number of quotation marks a printed text begins with |
| Manifest.MatchesIff | delivery/scripts/install.py:1324-1331 | The comparison by the set of names of a platform is equality of platform up to alias, scope and workspace |
| Manifest.Payload.FindMatchingInstall | delivery/scripts/install.py:1334-1350 | The loop returns the first record with status installed that has this platform up to alias, scope and workspace |
| Manifest.Payload.UpsertEntry | delivery/scripts/install.py:1353-1357 | The records of other installations in their order, followed by the new record |
| Manifest.Payload.Uninstall | delivery/scripts/install.py:1657-1736 | The uninstallation fails before any change, or leaves exactly the record without the entries of the selected kinds, its status following what is left; a manifest with nothing active is removed |
| Manifest.RemoveEntries | delivery/scripts/install.py:1681-1689 | The loop keeps exactly the entries of other kinds and counts the removed ones |
| Manifest.PruneStale | delivery/scripts/install.py:1604-1630 | The loop removes, in their order, exactly the old entries of the selected kinds whose path is not current, a recorded skill directory above a current path excepted; no path that was just written is among them |
| ManifestRuns.InstalledIsOnDisk | delivery/scripts/install.py:1591-1630 | At the end of every installation in any run, each path of a selected kind that it wrote is on disk |
| ManifestRuns.UninstallRefusedIff | delivery/scripts/install.py:1670-1704 | An uninstallation is refused exactly when an entry of a selected kind stands for a directory, or when no entry is selected and no marked file is found |
| ManifestRuns.UninstallEndsIff | delivery/scripts/install.py:1681-1736 | An uninstallation that succeeds leaves an installed record exactly if the installation owned an entry of another kind |
| ManifestRuns.UninstallRecords | delivery/scripts/install.py:2038-2058 | It leaves a record of the installation, installed or not, and the manifest is removed exactly when no installed record has an entry left |
| ManifestRuns.RunRefinesMap | delivery/scripts/install.py:1353-1357 | Over any run of installations and uninstallations at most one installed record exists per platform up to alias, scope and workspace, and the lookup finds what the last installation wrote without the kinds uninstalled since |
| ManifestRuns.AfterInstall | delivery/scripts/install.py:1353-1357 | After an installation the lookup returns the new entries, and what other installations own is unchanged |
| ManifestRuns.AfterUninstall | delivery/scripts/install.py:1657-1762 | After an uninstallation the lookup returns the entries of the other kinds, or all of them if a recorded directory blocks it; other installations are unchanged |
| ManifestRuns.InstallKeepsOthers | delivery/scripts/install.py:1353-1357 | An installation keeps the unrelated records and their order |
| ManifestRuns.OrphansOfInstall | delivery/scripts/install.py:1591-1630 | For every installation: what it leaves on disk without a record is exactly what was there and is neither written anew nor owned by an entry of a selected kind that is no skill directory above a current path |
| ManifestRuns.NoOrphansIff | delivery/scripts/install.py:1591-1630 | Over any run of installations and uninstallations of any components: every path on disk is recorded at every point exactly when each installation covers, in this way, what is on disk when it is made |
| ManifestRuns.NoOrphans | delivery/scripts/install.py:1591-1630 | In particular nothing is orphaned while every installation selects all kinds owned before it and meets none of the owned skills as a directory |
| ManifestRuns.PartialInstallForgets | delivery/scripts/install.py:2120-2180 | A run outside the condition: installing one component after another leaves the first one's path on disk with no record, because the new record replaces the old one whole |
| ManifestRuns.SkillDirectoryForgotten | delivery/scripts/install.py:1618-1627 | The other run outside the condition: a full installation over a recorded skill directory leaves the directory and records only the new leaf |
| Detector.LooksPathIff | meta_flow/checks/detector_qualification.py:351-411 | On any assignments, cyclic ones included, the search from an empty seen set answers yes exactly when some finite chain of attribute, call, subscript and assignment unfoldings reaches an accepting node; its termination measure is the unseen assigned names, then the node |
| Detector.SearchIsComplete | meta_flow/checks/detector_qualification.py:351-411 | For every seen set, cutting the search at a seen name loses no answer that a chain avoiding the seen names gives |
| Detector.SearchIsSound | meta_flow/checks/detector_qualification.py:351-411 | A yes of the search, whatever the seen set, is witnessed by a finite chain of unfoldings |
| Detector.ProvenContainerIff | meta_flow/checks/detector_qualification.py:541-568 | A chain of assigned names, cyclic or not, proves a container exactly when following it far enough reaches a container |
| Detector.QualifiedNameIs | meta_flow/checks/detector_qualification.py:229-235 | The name of an attribute chain is its head, an import alias resolved, followed by its attributes with dots between them |
| Detector.LeafIs | meta_flow/checks/detector_qualification.py:387 | The leaf of a name is what follows its last dot, or the whole name |
| ScopeWalk.Walk | meta_flow/checks/detector_qualification.py:238-252 | The explicit-stack walk returns exactly the recursive preorder pruned at nested function, class and lambda nodes |
| ScopeWalk.WalksPartition | meta_flow/checks/detector_qualification.py:238-252 | The walk from the module and the walks from every scope node below it together contain each node exactly once |
| ScopeWalk.OneScope | meta_flow/checks/detector_qualification.py:246-251 | Below its root a walk yields no node that opens a scope |
| LexicalScopes.ScopesForLine | meta_flow/checks/detector_qualification.py:492-503 | The loop returns the tree followed by exactly the definitions whose lines include the line, sorted by descending width and then by first line |
| LexicalScopes.ScopesAreChain | meta_flow/checks/detector_qualification.py:492-503 | In a tree that nests as source text does, for any order of the walk, this is the chain of lexical scopes from the outermost to the innermost, each inside all those before it |
| Allowlist.QualifyDynamicAllowlist | meta_flow/checks/detector_qualification.py:1269-1314 | The loops report the findings about each entry in order, then each unresolved call that is not allowed with its place, then each stale entry in sorted order; a later entry replaces an earlier one for the same call |
| Allowlist.NoFindingsIff | meta_flow/checks/detector_qualification.py:1269-1314 | There are no findings exactly when every entry is complete and its evidence has the stated digest, no two entries name one call, and the named calls are exactly the unresolved dynamic writers |
| Correction.Validate | meta_flow/checks/correction.py:31-71 | The validation loop reports exactly the errors of the specification, in order |
| Correction.WalkChain | meta_flow/checks/correction.py:63-70 | The cycle walk ends on every chain, cyclic ones included, and reports whether it came to an id it had seen |
| Correction.ErrorsIff | meta_flow/checks/correction.py:31-71 | Validation reports nothing exactly for an event with all required fields well formed, allowed patch operations and, on a non-empty chain, a new id, an existing superseded event and no cyclic walk |
| Correction.WalkFindsIffCycle | meta_flow/checks/correction.py:63-70 | In a graph whose chains end, the walk for a new id reports something exactly when its supersedes edge closes a cycle |
| Correction.AcceptedLedgerAcyclicIff | meta_flow/checks/correction.py:54-70 | In every ledger of events each accepted against the ledger before it the ids are distinct, and the supersedes graph has a cycle exactly when the first event supersedes itself |
| Correction.SupersedesEarlier | meta_flow/checks/correction.py:54-61 | In such a ledger each event but the first supersedes nothing or an event before it |
| Correction.Ledger.Append | meta_flow/checks/correction.py:74-89 | An append succeeds exactly when validation reports nothing and the ledger has the expected digest; it extends the ledger by the event, keeps an accepted ledger accepted, and otherwise changes nothing |
| CorrectionReplay.ReplayCorrections | meta_flow/checks/correction.py:92-105 | The replay on a copy is the fold over the sorted chain; it fails only where an operation would pass through a value that is not an object |
| CorrectionValues.LastCorrectionHolds | meta_flow/checks/correction.py:92-105 | After the replay of any chain, the path of an operation of an accepted event holds its value, if no later operation of the event and no other accepted event that comes no earlier, by creation time and then by id, is at the path, above it or below it |
| CorrectionValues.UncorrectedStays | meta_flow/checks/correction.py:92-105 | A path that no operation of an accepted event is at, above or below has its original value, or none |
| CorrectionValues.SetAtFailsIff | meta_flow/checks/correction.py:100-104 | An operation fails exactly when something strictly above its place is not an object |
| CorrectionReplay.ReplayKeepsRest | meta_flow/checks/correction.py:92-105 | Every top-level key other than `annotations`, `provenance` and keys beginning with `evidence_refs` keeps its value through the whole replay |
| CorrectionReplay.ReplayPermutation | meta_flow/checks/correction.py:92-105 | Replay gives the same result for every order of a chain with distinct ids |
| CorrectionReplay.AllowedIsCorrectable | meta_flow/checks/correction.py:45-53 | A path that passes validation begins, once split, at a correctable top-level key |
| CorrectionValues.PathAllowedIff | meta_flow/checks/correction.py:45-53 | A path passes validation exactly when it is a slash followed by a name that is `annotations` or `provenance` or begins with `evidence_refs` |
| PosixPath.PartsOfBoth | meta_flow/checks/correction.py:100 | A path splits at its slashes into the parts before and the parts behind |
| Ordering.StrLeIff | meta_flow/checks/correction.py:96 | Strings are ordered by the first character that differs, a prefix coming first |
| Confirmation.ConfirmationKeepsOrder | meta_flow/retrospective.py:507-537 | At every stop of a confirmation: data that says the facts are confirmed comes with the decision record and the matching report; before the last replace the data is the draft; after the handler no temporary is left |
| Confirmation.OrderHoldsIffRefApart | meta_flow/retrospective.py:485-538 | The ordering guarantee holds at every stop exactly when the confirmation path is neither of the temporaries of the data and the report |
| Confirmation.ConfirmationCompletesIff | meta_flow/retrospective.py:485-538 | A confirmation that is not stopped leaves the data confirmed with this path and otherwise unchanged, its report and the decision record exactly when its path is neither of the two temporaries nor that of a missing report |
| Confirmation.DataAliasDestroysData | meta_flow/retrospective.py:507-537 | A confirmation path equal to the data's temporary puts the decision record in the place of the data |
| Confirmation.ReportAliasLosesDecision | meta_flow/retrospective.py:507-537 | A confirmation path equal to the report's temporary leaves confirmed data without its decision record |
| Confirmation.RetryableIff | meta_flow/retrospective.py:485-538 | For every stop of a confirmation, by an error or a kill: the draft can be confirmed again exactly when nothing was written yet, or when the data was not replaced and both its temporary and that of the report are gone |
| Confirmation.LaterConfirmationIff | meta_flow/retrospective.py:485-512 | A later call with a safe and free path gets past the checks exactly after these stops |
| RecordStore.Store.WriteRetrospective | meta_flow/retrospective.py:459-475 | The in-place writer, stopped at any point, leaves what the record model prescribes; on success both files stand, nothing that was there changes, all packages stay proven, and unless it is killed between its two writes every retrospective keeps its report |
| RecordStore.Store.ConfirmRetrospectiveFacts | meta_flow/retrospective.py:485-538 | The in-place confirmation carries out the actions of the model up to the stop |
| RecordStore.Store.RecordRecommendation | meta_flow/evolution.py:424-448 | The checks made one by one succeed exactly for a well-formed decision on a confirmed retrospective with exactly that candidate and a free path; the decision is then read back as given, everything that was there stays, and no package loses its provenance |
| RecordStore.Store.LoadDecision | meta_flow/evolution.py:451-495 | A decision is read only from its own reference and only if it is well formed |
| RecordStore.Store.ValidateProvenance | meta_flow/evolution.py:498-545 | The checks made one after the other, with the loop over the candidates, succeed exactly when the package has its provenance |
| RecordStore.Store.WriteEvolutionPackage | meta_flow/evolution.py:548-556 | On success the package stands at its path and passes its provenance check in the new repository; everything that was there stays, and all packages stay proven |
| RecordStore.MatchingCandidates | meta_flow/evolution.py:533-535 | The loop selects exactly the candidates with the id, in their order |
| RecordStore.Store.WriteEvolutionResult | meta_flow/evolution.py:896-921 | On success the result stands at its path beside a package that passes its provenance check; everything that was there stays, and all packages stay proven |
| EvolutionRuns.EveryRunKeepsProvenanceIff | meta_flow/evolution.py:498-556 | In any repository whatever: a package keeps passing its provenance check through every run of the retrospective, decision, package and result writers, each stopped anywhere by an error or a kill, exactly when no draft that can be confirmed has its report path at one of the package's two witnesses |
| EvolutionRuns.RunKeepsProvenance | meta_flow/evolution.py:498-545 | In particular, from a repository on in which every retrospective has its report, a package that passes its check passes it after every run, with errors and kills anywhere |
| EvolutionRuns.CallKeepsSafe | meta_flow/evolution.py:498-556 | No call, stopped anywhere, makes a package that passes its check and is not endangered fail it or become endangered |
| EvolutionRuns.CallStays | meta_flow/retrospective.py:459-538 | No call, stopped anywhere, removes a file that was there before it, or makes a draft whose report path was already taken |
| Evolution.EveryCallKeepsProvenanceIff | meta_flow/evolution.py:498-556 | In any repository whatever: no call of any writer, stopped anywhere, loses a package's provenance exactly when no draft that can be confirmed has its report path at one of the package's two witnesses |
| EvolutionRuns.AllSafeIff | meta_flow/evolution.py:548-556 | Over any run, with errors and kills anywhere, from a repository whose packages all pass their check unendangered: all do so at every point exactly when every package that is written is unendangered at that moment |
| EvolutionRuns.EveryPackageProven | meta_flow/evolution.py:498-556 | In every repository reached from an empty one, with errors and kills anywhere, every package passes its provenance check if all were so written |
| EvolutionRuns.EveryPackageProvenFromEmpty | meta_flow/evolution.py:498-556 | Without a kill after the data and before the report of a new retrospective all packages are so written, so every one passes its check |
| Evolution.ConfirmationKeepsProvenanceIff | meta_flow/evolution.py:498-545 | A confirmation keeps a package's provenance at all its stops exactly when its report path is neither the package's facts record nor its decision record |
| Evolution.ConfirmationKeepsOthers | meta_flow/retrospective.py:507-537 | A confirmation, wherever it stops, changes no record but its own draft, report and confirmation |
| EvolutionRuns.KillLosesProvenance | meta_flow/retrospective.py:466-474 | How a package gets written endangered: a kill after the data of any draft lets any decision be recorded at its report path and support a package, and confirming the draft then overwrites the decision |
| EvolutionRuns.KillExample | meta_flow/retrospective.py:466-474 | A concrete repository and run in which this happens |
| EvolutionHistory.EveryRecordBacked | meta_flow/evolution.py:391-556 | Over any run from the empty repository, with errors and kills anywhere: every record that stands anywhere is accounted for by calls of the run in their order, without reference to the writers' checks: a retrospective by its writing and confirmation, a decision by one on the only such candidate of a confirmed retrospective, a package by its support, a result by its package |
| EvolutionHistory.EveryPackageAccepted | meta_flow/evolution.py:498-556 | In particular, before a package was written the run has written a draft of its project with exactly one candidate of its id, objective and applicability, has confirmed it at the package's confirmation path, and has recorded an accepting decision on it at the package's decision path |
| EvolutionHistory.ProvenanceIff | meta_flow/evolution.py:498-545 | The provenance check succeeds exactly when the retrospective, the confirmation and the accepting decision stand where the package names them and say what it says |
| EvolutionHistory.FittingRunGoesThrough | meta_flow/evolution.py:424-556 | From the empty repository, writing a draft, confirming it, accepting its candidate, and writing the package and the result go through whenever they fit together and each has its own path |
| EvolutionHistory.EveryPathSafe | meta_flow/retrospective.py:490-512 | No call of any run, stopped anywhere, puts a file at a path with an empty part, `.` or `..` |
| ReceiptBundle.AttemptStates | scripts/qualify_provider_artifact.py:53-80 | At every step of a commit and of its rollback the pair is old receipt and old sidecar, old receipt and new sidecar, or both new; an attempt succeeds exactly when both writes and the postcheck do, and ends with both new; a rollback that gets through ends with both old |
| ReceiptBundle.SidecarNeverOlder | scripts/qualify_provider_artifact.py:53-80 | Over any run of attempts, failing or killed anywhere, the sidecar on disk is never older than the receipt |
| ReceiptBundle.ReceiptFollowsSidecar | scripts/qualify_provider_artifact.py:53-80 | Over any run, the receipt becomes newer only in a step at which its own sidecar is already in place |
| ReceiptReader.ReadDuringRun | delivery/scripts/digest_policy.py:463-518 | At every point of any run, the same tree being qualified again or not: only the receipt that was there at first is ever read without a sidecar, and a receipt is refused only while a newer sidecar stands beside it, or if it is the first one and has none |
| ReceiptReader.NewReceiptIsBound | delivery/scripts/digest_policy.py:463-518 | Over any run, the pair is read as bound at every point at which a newer receipt has just been put in place |
| ReceiptReader.ReadDuringAttempt | scripts/qualify_provider_artifact.py:53-80 | A successful attempt ends with its own receipt bound, a rollback that gets through ends read as the start was, and between them only the old receipt with the sidecar of another tree is newly refused |
| ReceiptBundle.Bundle.WriteBundle | scripts/qualify_provider_artifact.py:53-80 | The in-place commit goes through exactly the states of the model |
| CheckpointLedger.AppendKeeps | meta_flow/checks/cp_result.py:1598-1706 | One append: the ledger only grows at its end, ids stay distinct, a blocked append changes nothing, and otherwise the projector has no findings on the resulting ledger |
| CheckpointLedger.PreflightIs | meta_flow/checks/cp_result.py:1598-1680 | The verdict on a ledger with distinct ids: blocked if the id is in use for another result or decision, no change or blocked by findings if the event is there, and ready exactly if the id is new and the projector has no findings on the extended ledger |
| CheckpointLedger.ReadyRecords | meta_flow/checks/cp_result.py:1526-1566 | What an append adds has an id, the given one if there is one, and the decision, reference and change request of the result |
| CheckpointLedger.RepeatIsNoChange | meta_flow/checks/cp_result.py:1598-1620 | An appended result is recognised as a replay ever after: repeated after any further appends, with whatever result files by then, it leaves the ledger as it is, and is reported as no change unless the projector has findings |
| CheckpointLedger.RunKeeps | meta_flow/checks/cp_result.py:1682-1706 | Over any run of appends ids stay distinct and the ledger extends the one at the start |
| CheckpointLedger.LoadResults | meta_flow/checks/cp_result.py:1623-1655 | The results are those at hand, unchanged, and exactly the readable required ones with their contents; the findings are those given, followed by one for each missing or unreadable required result in order |
| CheckpointLedger.FailuresIff | meta_flow/checks/cp_result.py:1623-1655 | There is a finding for exactly the required results not at hand that are missing, and for exactly those that are unreadable |
| CheckpointLedger.Ledger.AppendResult | meta_flow/checks/cp_result.py:1682-1706 | The in-place append blocks exactly when the result or ledger is invalid or the preflight blocks, and otherwise leaves the ledger of the model |
| DigestPolicy.ObserveTree | delivery/scripts/digest_policy.py:252-313 | The source tree observer accepts exactly when neither the inventory nor any node has a finding; it then records the digest of exactly the included files and counts the others by their reason, and otherwise reports all findings |
| DigestPolicy.TreeFindings | delivery/scripts/digest_policy.py:270-303 | The findings of a tree are none exactly when no node outside the root's `.git` is a link, a nested `.git`, resolved outside the root, of an unsupported type or a tracked generated file |
| DigestPolicy.TreeFindingsIff | delivery/scripts/digest_policy.py:270-303 | That is, exactly when each node outside the root's `.git` is no link, no nested `.git`, inside the root, of a supported type and no tracked generated file |
| DigestPolicy.ExcludedIff | delivery/scripts/digest_policy.py:175-195 | A file is left out exactly if it lies in `__pycache__`, is a compiled module, lies in `delivery/build` or `delivery/dist`, or is known to be generated |
| DigestPolicy.ArchiveRefRoundTrip | delivery/scripts/digest_policy.py:316-322 | A reference of plain parts is safe in an archive under its text and comes back from it, and no reference with `..` does |
| DigestPolicy.OneMoreFile | delivery/scripts/digest_policy.py:296-302 | A file enters the records, or exactly one counter, or neither if it lies below the root's `.git` |
| PayloadObservers.ObserveWheel | delivery/scripts/digest_policy.py:359-416 | The wheel observer accepts exactly when there are no findings; it then records exactly the included files, the delivery records are those below `delivery/`, and the counters count the excluded files by reason |
| PayloadObservers.FindingsIff | delivery/scripts/digest_policy.py:375-392 | An archive has no findings exactly when every name is safe, no file is a link and no two files have one logical ref |
| PayloadObservers.ArchiveOrder | delivery/scripts/digest_policy.py:375-406 | Whether an archive is accepted, and with which files, does not depend on the order of its members |
| PayloadObservers.ObserveInstalled | delivery/scripts/install.py:699-717 | The installed-distribution loop records exactly the listed files that are on disk and included, and raises exactly when a listed name it follows contains a backslash |
| PayloadObservers.SourceMatchesWheelIff | delivery/scripts/digest_policy.py:252-416 | A source tree and a wheel with the same delivery files give the same delivery records exactly when every file the policy includes is either both or neither of: distribution metadata, and below the root's `.git` |
| PayloadObservers.InstalledMatchesWheelIff | delivery/scripts/install.py:686-727 | A faithful installation has the full record map of its wheel, and under a collision-free digest only a faithful one has |

## Left out

- SharedFile.AnyRunOwns: user text and rule content that contain a sentinel themselves, and platform names with `<`, space or newline, which the installer's platforms do not have.
- Transaction.AnyRunRollsBack: directories; those made by a rolled-back run stay, those deleted by the empty-directory cleanup are made again only where a file goes back, and no code fills `Transaction.removed_dirs`.
- ManifestRuns.NoOrphansIff: the `manifest.yaml` that an OpenClaw installation writes, which no entry records.
- ManifestRuns.RunRefinesMap: a removal that fails during an uninstallation, after which the manifest is not saved; malformed manifest entries; audit times and the list of uninstall events.
- CorrectionReplay.ReplayCorrections: events are told apart by value, the code tells them apart by identity; the two agree on a chain with distinct ids.
- DigestPolicy.ObserveTree: the Git inventory and the resolution of links are parameters.
- Allowlist.QualifyDynamicAllowlist: links among the evidence files.
- ReceiptBundle.AttemptStates: the temporary files of one atomic write; a failed atomic write leaves its target as it was.
- Dry runs, symbolic links, file encodings and byte-level newline translation, and the resolution of paths: texts are sequences of characters and paths sequences of names.
- The field-shape validators of retrospectives, packages, results and decisions: decision tables over one record; what later steps rely on is in the writers' conditions.
- The internals of the checkpoint projector, of `event_ledger` and of the Work store are not part of this model.
- Claude and Qoder rendering, OpenClaw manifests, agent and skill selection, command-line handling: string templates and lookups.
