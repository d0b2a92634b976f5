# Verification of the Flux CLI's algorithms and protocols

This project models the parts of the `flux` command that are more than plumbing, and proves
what they promise over every input, every run or every interleaving:

- `MergedWatch.dfy`: the fan-in of several watches (`cmd/flux/get.go`), as a step relation over
  forwarders, the closer, the callers of `Stop` and the sources. Steps that panic in Go are steps
  that set a flag, so that no run panics is a theorem.
- `Text.dfy`, `Words.dfy`, `QuotedScalar.dfy`, `FieldRemoval.dfy`, `FileMigration.dfy`,
  `Redetection.dfy`, `MigrationExamples.dfy`: the manifest migrator (`cmd/flux/migrate.go`). Lines
  are sequences of Unicode characters. The loops are methods that are proved equal to recursive
  functions, and the lemmas are about those.
- `CrdMigration.dfy`: the migration of stored objects to a CRD's storage version, as the requests
  of any number of migrators interleaved with other clients and with changes of the CRD.
- `CopyDir.dfy`: the copy of a directory with its symbolic links resolved
  (`cmd/flux/build_artifact.go`), as a class with the `visited` set and the destination tree.
- `SourceMemo.dfy`: reconciling objects with their sources (`cmd/flux/reconcile_with_source.go`). A
  class with the global namespace and the shared table is proved equal to functions that get the
  namespace as an argument; the cluster's answers are an arbitrary function of time.
- `Handshake.dfy`: the request handshake with a controller (`cmd/flux/reconcile.go`,
  `cmd/flux/resume.go`), as steps interleaved with the controller and other clients.
- `ResourceArgs.dfy`: the rewriting of TYPE/NAME arguments (`cmd/flux/resource_arg.go`).
- `ExtractTemplate.dfy`: the validation of extraction templates
  (`cmd/flux/create_image_policy.go`), against a grammar of pieces.
- `FormatSize.dfy`: the choice of a unit for a size (`cmd/flux/stats.go`).
- `Options.dfy`: a value that may be missing.

## What turned out not to hold

- The comment on `mergedWatch` says that it closes when any of its sources closes
  (`cmd/flux/get.go:402-403`). A forwarder hands over everything that is queued, and an event that it
  holds waits for the consumer even after its source closed, so without a reader and without `Stop`
  the watch can stay open for ever (`MergedWatch.ClosedSourceCanBlock`). `MergedWatch.ClosesExactly`
  gives the exact condition: with sources, it closes by itself if and only if a `Stop` is under way, a
  forwarder has left its loop, or some source is closed with nothing queued and nothing held.
- Removing fields twice can remove more than removing them once: a comment that is not indented ends
  the value of a removed field early, and what was below it is then read as children of `spec`
  (`FieldRemoval.CommentCanLeaveField`). `FieldRemoval.RemovalIsFixpointExactly` gives the exact
  condition on the old lines, and `FieldRemoval.WellIndentedIsFixpoint` one on the file alone.
- A migrated file can still be reported for migration. The first occurrence of the old version in its
  line is replaced, which need not be the version token: with a group that contains the version the
  group is rewritten, and may be listed itself (`MigrationExamples.GroupIsReportedAgain`); an empty
  version is "replaced" at the start of the line (`MigrationExamples.EmptyVersionExample`). A version
  that ends in "kind:" is read as part of a kind by the line before
  (`MigrationExamples.KindInVersionExample`). And deleting a field can make neighbours of a nested
  apiVersion and a nested kind (`MigrationExamples.GapExample`). `Redetection.RedetectionExactly`
  gives the exact condition on the old lines and the ranges.
- The ranges of different objects of a file can be nested (`MigrationExamples.RangesCanBeNested`).
  They follow each other when the objects are separated (`FileMigration.SeparatedRangesFollow`).
- `reconcile` can succeed on the handling of somebody else's older request
  (`Handshake.OlderRequestSatisfiesReconcile`); `Handshake.UndisturbedReconcileIsHandled` says
  exactly when it cannot. A resumed ArtifactGenerator can be reported as reconciled although the
  controller only marked its request (`Handshake.HandledNeedNotBeReconciled`), exactly when other
  clients may suspend it after the patch (`Handshake.CompletedIsReconciledExactly`).

## Model

| member | source | states |
|---|---|---|
| MergedWatch.StepInv | cmd/flux/get.go:411-446 | every atomic step of every goroutine keeps the invariant of the wait group, the once and the flow of events |
| MergedWatch.Safety | cmd/flux/get.go:411-446 | no run sends on or closes a closed channel; result is closed only after all forwarders exited and, with sources, after done was closed and each source stopped exactly once |
| MergedWatch.Conservation | cmd/flux/get.go:418-430 | until done is closed a source's events are what was delivered, held and queued, in order; always the delivered ones are a prefix and at most one was dropped |
| MergedWatch.ProgressExactly | cmd/flux/get.go:402-446 | without consumer and environment some step is possible now exactly when the watch is not blocked on its consumer with nobody stopping it |
| MergedWatch.ClosesExactly | cmd/flux/get.go:402-446 | without consumer and environment every run can be continued until result is closed, if and only if there is no source, a Stop is under way, a forwarder has left its loop, or some source is closed with nothing queued and nothing held; otherwise no such run closes it |
| MergedWatch.StoppingIsNeverStuck | cmd/flux/get.go:439-446 | once Stop was called or done is closed no state is stuck before result is closed, also without a reader |
| MergedWatch.ClosedSourceNeedsReader | cmd/flux/get.go:423-429 | a closed source blocks the watch only while its forwarder offers an event |
| MergedWatch.ClosedSourceCanBlock | cmd/flux/get.go:402-430 | a run after which a source is closed and the watch can never close by itself |
| MergedWatch.MeasureStep | cmd/flux/get.go:418-446 | every step but an emission lowers the progress measure, an emission raises it by two |
| MergedWatch.RunBound | cmd/flux/get.go:411-446 | the length of every run is bounded by the measure and the number of emissions |
| MergedWatch.ShutdownCompletes | cmd/flux/get.go:418-446 | after Stop, every run is bounded by the measure and the events that sources still emit, and can go on by internal steps until result is closed |
| Text.JoinSplit | cmd/flux/migrate.go:912-943 | splitting a text into lines and joining them gives the text back |
| Text.SplitJoin | cmd/flux/migrate.go:912-943 | joining lines and splitting gives the lines back |
| Text.BlankTrimsToNothing | cmd/flux/migrate.go:834-837 | the recursive test for a blank line is that trimming its white space leaves nothing |
| Text.SpacesExactly | cmd/flux/migrate.go:821 | white space is that of Unicode: the trimmed characters are exactly those 25 code points |
| QuotedScalar.QuoteEnd | cmd/flux/migrate.go:846-858 | the loop finds what the scan specifies |
| QuotedScalar.QuoteEndIsFirstCloser | cmd/flux/migrate.go:846-858 | the result is the first quote with an even run of backslashes before it, or that ends an odd run of single quotes; -1 exactly when there is none |
| QuotedScalar.ScanTrailingSpace | cmd/flux/migrate.go:820-822 | trimming the white space of the key's line does not change where the scalar closes |
| QuotedScalar.LineSearchIsTextSearch | cmd/flux/migrate.go:822-829 | restarting the scan on each line finds the line and column where one scan of the joined text closes |
| FieldRemoval.LineIndentTrims | cmd/flux/migrate.go:879-881 | the indent counted by recursion is what trimming the leading spaces takes away |
| FieldRemoval.SeparatorExactly | cmd/flux/migrate.go:874-877 | a separator is three dashes followed by trailing blanks only, or by a blank and anything |
| FieldRemoval.SkippableExactly | cmd/flux/migrate.go:869-872 | a skipped line is blank, or its first character that is no white space starts a comment or a template directive |
| FieldRemoval.KeyLineExactly | cmd/flux/migrate.go:861-865 | a line holds a key if and only if it is spaces, the key, a colon, and then only carriage returns or a blank and anything |
| FieldRemoval.ValueOnExactly | cmd/flux/migrate.go:820-821 | the value is exactly what stands after the first colon between white space, and nothing without a colon |
| FieldRemoval.QuotedEndExactly | cmd/flux/migrate.go:819-830 | on any key line the quoted part ends after the line on which one scan of the joined text, from the opening quote on, closes; after the key's line if no quote is opened or none closes |
| FieldRemoval.YamlValueEnd | cmd/flux/migrate.go:816-842 | the two loops end where the value ends by the specification, which `ValueEndExactly`, `ValueOnExactly` and `QuotedEndExactly` characterise |
| FieldRemoval.SkipQuotedScalar | cmd/flux/migrate.go:819-830 | the loop over continuation lines ends after the first line that closes the quote, or keeps the key's line |
| FieldRemoval.AfterQuoteIsTextSearch | cmd/flux/migrate.go:819-830 | the continuation lines taken are exactly those up to the closing quote of the whole text, and none if it never closes |
| FieldRemoval.ValueEndExactly | cmd/flux/migrate.go:832-841 | the end is the only line such that everything before is blank or deeper, the last line is not blank, and the next line with content is not deeper |
| FieldRemoval.SpecLineExactly | cmd/flux/migrate.go:752-770 | the spec line found is the first key `spec` at the object's indent with no separator or shallower line before it |
| FieldRemoval.FindRemovedSpecFields | cmd/flux/migrate.go:750-811 | the search returns the ranges of the specified walk, which `RemovalsSound` and `KeptHasNoHit` characterise |
| FieldRemoval.RemoveChildren | cmd/flux/migrate.go:776-811 | the loop that jumps over removed ranges returns those of the specified walk |
| FieldRemoval.RemovalsSound | cmd/flux/migrate.go:774-842 | ranges are in bounds, increasing and disjoint; each starts at a listed direct child of spec and holds only its value, with every line of a quoted scalar that it opens, no separator outside it, and ends on a line with content |
| FieldRemoval.ListedFieldIsFirst | cmd/flux/migrate.go:793-807 | of several listed fields of one name the first counts, with its hint |
| FieldRemoval.KeptHasNoHit | cmd/flux/migrate.go:777-809 | what is kept holds no listed field at the children's indent |
| FieldRemoval.RemovalIsFixpointExactly | cmd/flux/migrate.go:750-811 | a second search on the remaining lines finds something, if and only if the first significant line of the block outside the ranges is at another indent than the old children and a listed key stands outside the ranges at that indent |
| FieldRemoval.CleanEndsAreFixpoint | cmd/flux/migrate.go:777-842 | when each removed value ends before a line at the children's indent or the end of the block, a second search finds nothing |
| FieldRemoval.WellIndentedIsFixpoint | cmd/flux/migrate.go:750-842 | for a file whose shallow comments and directives are followed by lines at the children's indent, removing twice is removing once |
| FieldRemoval.CommentCanLeaveField | cmd/flux/migrate.go:832-841 | lines for which the second search does find a field |
| FieldRemoval.ObjectRangesEndBefore | cmd/flux/migrate.go:754-811 | a separator or shallower line ends the search, and every range of the object lies before it unless a quoted scalar goes over it |
| FileMigration.DetectFileUpgrades | cmd/flux/migrate.go:676-745 | the loop reports the upgrades of the single lines, which `DetectAtExactly` characterises |
| Words.WordAfterExactly | cmd/flux/migrate.go:686-693 | the search, trimming and splitting read exactly the word that stands after the first occurrence of the prefix and white space, up to a space or the trailing white space |
| FileMigration.ParseExactly | cmd/flux/migrate.go:694-698 | parsing accepts exactly a version, or a group and a version around the only slash |
| FileMigration.DetectAtExactly | cmd/flux/migrate.go:684-742 | a line is reported exactly when it and the next one hold, as words after the first prefixes, a group and old version and a kind that the table lists with another version; and then with the ranges of the listed fields at its column if it starts its line or a list item, and none otherwise |
| FileMigration.ReportedObjectLosesFields | cmd/flux/migrate.go:725-733 | of every reported object at the top level or in a list no listed field is left at the children's indent of its spec, and its ranges are deleted from the file |
| MigrationExamples.ListItemLosesField | cmd/flux/migrate.go:730-733 | a list file whose item gets the new version and loses the dropped field |
| FileMigration.DetectedExactly | cmd/flux/migrate.go:683-744 | the report holds an upgrade for a line exactly when the line has one, in strictly increasing line order |
| FileMigration.MigrateFile | cmd/flux/migrate.go:906-949 | the new content is the joined lines with versions replaced and removed lines left out |
| FileMigration.MarkRemovals | cmd/flux/migrate.go:920-924 | exactly the lines of the ranges are marked |
| FileMigration.KeepLines | cmd/flux/migrate.go:926-934 | exactly the lines that are not marked are kept, in order |
| FileMigration.AppliedAt | cmd/flux/migrate.go:916-919 | an upgraded line has its first version occurrence replaced and no other line changes |
| FileMigration.OrderDoesNotMatter | cmd/flux/migrate.go:906-949 | every order of the same upgrades gives the same file |
| FileMigration.NoRemovalsKeepsLines | cmd/flux/migrate.go:912-943 | without removals the lines of the new file are the rewritten lines, and without upgrades the file is unchanged |
| FileMigration.KeptIsOutside | cmd/flux/migrate.go:926-934 | for any number of objects whose ranges follow each other, deleting marked lines is taking the lines outside all ranges |
| FileMigration.SeparatedRangesFollow | cmd/flux/migrate.go:683-744 | when each object ends before the next begins, the ranges of all objects are in line order, disjoint, and each below its apiVersion and kind lines |
| FileMigration.SeparatedFileKeepsOutside | cmd/flux/migrate.go:906-943 | the migrated file is then the rewritten lines outside the ranges of all objects |
| MigrationExamples.RangesCanBeNested | cmd/flux/migrate.go:727-733 | an object in a list within a removed field has a range inside the range of that field |
| Redetection.TakeApart | cmd/flux/migrate.go:684-696 | every line with a version splits into lead, prefix, white space, group, version token and rest |
| Redetection.ParsesToNewVersion | cmd/flux/migrate.go:916-919 | with its version token replaced a line parses to the same group and the new version |
| Redetection.ReplacesTokenExactly | cmd/flux/migrate.go:916-919 | the replacement gives the line with its version token replaced, if and only if the token is the first occurrence of the version |
| Redetection.TopLevelHits | cmd/flux/migrate.go:727-730 | on the line of an object at the top level the first occurrence is the token or lies in the group, unless the version is a dash or occurs in the key |
| Redetection.KindIsRead | cmd/flux/migrate.go:704-711 | the kind read from an apiVersion line depends on its word only by whether the word ends in kind and a colon |
| Redetection.RewritingReads | cmd/flux/migrate.go:684-711 | the group, version and kind read from a rewritten line: the token gives the new version, an occurrence in the group the rewritten group and the old version |
| Redetection.RedetectionExactly | cmd/flux/migrate.go:684-744 | detection on the migrated content reports something, if and only if a kept line and the next kept line make an outdated object by what the old lines say; also with removed fields, for versions that first occur in the token or the group, and for empty ones |
| Redetection.StaysOutdatedExactly | cmd/flux/migrate.go:684-744 | when no range begins right after an apiVersion line and no version ends in kind and a colon, exactly the kept upgrades are reported again whose version is empty or whose rewritten group the table lists with the kind at another version |
| Redetection.NothingIsDetectedAfterMigration | cmd/flux/migrate.go:684-744 | then, if every version is replaced as the token, nothing is reported |
| Redetection.EmptyVersionStays | cmd/flux/migrate.go:916-919 | the replacement of an empty version at the top level leaves the group and the empty version that are read |
| Redetection.EmptyVersionKeepsKind | cmd/flux/migrate.go:916-919 | and it leaves the kind that the line before reads from it |
| MigrationExamples.GroupIsReportedAgain | cmd/flux/migrate.go:916-919 | a file that is reported again because its rewritten group is listed |
| MigrationExamples.EmptyVersionExample | cmd/flux/migrate.go:916-919 | a file that is reported again because its version is empty |
| MigrationExamples.KindInVersionExample | cmd/flux/migrate.go:704-711 | a file that is reported again because a version ended in kind and a colon |
| MigrationExamples.GapExample | cmd/flux/migrate.go:926-934 | a file that is reported again because of a deleted field |
| CrdMigration.GetStorageVersion | cmd/flux/migrate.go:452-462 | the loop returns the first storage version's name, or "" |
| CrdMigration.StorageExactly | cmd/flux/migrate.go:452-462 | the storage version is that of the first version marked as such, and "" exactly when there is none |
| CrdMigration.StepInv | cmd/flux/migrate.go:359-449 | every request of a migrator or client keeps: an unchanged CRD means every object is at its storage version or still to be patched |
| CrdMigration.ObjectsStayReadable | cmd/flux/migrate.go:359-449 | in every run every object is encoded at a version that the status lists and the spec serves, and the status is never empty |
| CrdMigration.ShrinksOnlyWhenMigrated | cmd/flux/migrate.go:380-387 | the stored versions shrink only by a status update, to the one current storage version that every object is encoded at |
| CrdMigration.UpdateSucceedsExactly | cmd/flux/migrate.go:379-387 | the last request succeeds if and only if the CRD is unchanged since it was read or there is nothing to do; on an unchanged CRD the status then lists the storage version alone and every object is encoded at it |
| CrdMigration.CalmMigratorSucceeds | cmd/flux/migrate.go:359-390 | whatever clients and other migrators do to the objects, a migrator whose CRD nobody else changes never fails, can always go on to success, and then the status lists the storage version alone and every object is encoded at it |
| CrdMigration.MigratorsKeepObjects | cmd/flux/migrate.go:392-449 | without other clients' writes no object comes or goes, and each keeps its version or gets the storage version |
| CrdMigration.ChangedDefinitionConflicts | cmd/flux/migrate.go:360-387 | any change of the CRD since it was read makes the status update fail |
| CrdMigration.RereadingWouldLoseVersions | cmd/flux/migrate.go:360-387 | a run after which an update of a re-read CRD would drop the version of a stored object |
| CopyDir.Copier.CopyDir | cmd/flux/build_artifact.go:180-234 | terminates on every graph, restores visited, fails exactly when a walk meets a broken entry, and otherwise writes exactly what the walks produce |
| CopyDir.Copier.CopyEntries | cmd/flux/build_artifact.go:196-231 | the loop adds exactly the paths under the destination |
| CopyDir.Copier.CopyEntry | cmd/flux/build_artifact.go:197-230 | one entry adds exactly the paths under its own name |
| CopyDir.CopyHolds | cmd/flux/build_artifact.go:180-234 | the copy holds something at a path exactly when the path resolves and enters no real directory twice, and then what it resolves to |
| CopyDir.CopyBreaks | cmd/flux/build_artifact.go:200-209 | a broken entry is met exactly when its directory is reached without repeating a real directory |
| CopyDir.BreaksExactly | cmd/flux/build_artifact.go:180-209 | skipping repeated directories misses no broken entry: a walk meets one if and only if some path leads to one |
| CopyDir.AcyclicCopiesAll | cmd/flux/build_artifact.go:180-234 | without cycles the copy is the full unfolding |
| CopyDir.ResolveSymlinks | cmd/flux/build_artifact.go:164-174 | fails exactly when plain resolution of some path leads to a directory with a broken entry, and otherwise holds what paths resolve to that repeat no directory; nothing is left after a failure |
| SourceMemo.Session.ReconcilePlain | cmd/flux/reconcile.go:103-156 | the command with the global namespace does what the specification does with the namespace as an argument |
| SourceMemo.Session.ReconcileWithSource | cmd/flux/reconcile_with_source.go:67-139 | the namespace on return is the one on entry, on success and failure, and switching it is passing it as an argument |
| SourceMemo.Session.Run | cmd/flux/reconcile_with_source.go:56-65 | each name once, in order, with one shared table; the failures are counted |
| SourceMemo.RankDecreases | cmd/flux/reconcile_helmrelease.go:67-119 | a nested command is for a kind of lower rank, so the recursion ends |
| SourceMemo.GetSourceExactly | cmd/flux/reconcile_with_source.go:93-101 | the source is the one that the spec refers to, in the namespace of the reference, of the object or of the command, and is refused exactly for the kinds that have no command |
| SourceMemo.KeyIsNew | cmd/flux/reconcile_source_chart.go:60-85 | the key of a source is never one that is being computed |
| SourceMemo.WithSourceKeeps | cmd/flux/reconcile_with_source.go:67-119 | one object with its sources: no source is started twice, no recorded result changes, no key in computation is written |
| SourceMemo.CommandKeepsTable | cmd/flux/reconcile_with_source.go:56-119 | at every name each source was reconciled at most once, no GetError is recorded, and an object is annotated only after the end of its source was recorded with success; when sources are wanted every object of a kind with sources has one |
| SourceMemo.PlainExactly | cmd/flux/reconcile.go:103-156 | a plain command succeeds if and only if its answer is a static object, or an active one whose request is made and ends well; it annotates exactly the active ones |
| SourceMemo.WithSourceExactly | cmd/flux/reconcile_with_source.go:67-139 | a command with a source succeeds if and only if its answer is an active object whose request is made and ends well and, if wanted, its source is recorded with success; the log says of every source and object what its answer says |
| SourceMemo.FailuresAreCounted | cmd/flux/reconcile.go:161-184 | the number of failures is that of the names that do not succeed by their answers |
| SourceMemo.AnnotationsFollowGoodAnswers | cmd/flux/reconcile_with_source.go:99-119 | each annotation with a source follows the recorded success of that source, whose answer was static or active and ended well, for a chart after its own source |
| SourceMemo.RecordedResultsStay | cmd/flux/reconcile_with_source.go:56-119 | from any name to any later one recorded results stay the same |
| SourceMemo.GetErrorIsOwn | cmd/flux/reconcile_with_source.go:40-48 | at every name of a command the failure to fetch a source is never reported as that of the object |
| SourceMemo.UntidyTemplateStartsTwice | cmd/flux/reconcile_helmrelease.go:98-115 | a template reference of another kind would start a source twice |
| SourceMemo.UniqueNames | cmd/flux/names.go:27-38 | the loop with a set of seen names |
| SourceMemo.UniqueIsFirstOccurrences | cmd/flux/names.go:27-38 | every name once, and the result of a prefix is a prefix of the result |
| Handshake.StepInv | cmd/flux/reconcile.go:202-267 | every step of the commands, the controller and other clients keeps what the commands may conclude |
| Handshake.ReconcileSeesSomeHandling | cmd/flux/reconcile.go:119-156 | reconcile succeeds only if some request was handled after its first read |
| Handshake.ReconcileSeesReady | cmd/flux/reconcile.go:119-232 | every run that ends with success had a poll at which Ready was true, a requester was current and not suspended, and another request than the first had been handled since the first read |
| Handshake.FirstReadDecides | cmd/flux/reconcile.go:119-145 | on every run reconcile is skipped if and only if the first read saw a static object, fails without a request if it saw any other suspended one, and otherwise waits with the request handled last |
| Handshake.FailureHasReason | cmd/flux/reconcile.go:202-232 | every run that ends in failure had a suspended object at the first read, or a poll after a new handling that saw a suspended requester, a bad status, or Ready not true |
| Handshake.ResumeSeesItsRequest | cmd/flux/resume.go:306-333 | resuming completes only if exactly the written request was read and handled after it was written |
| Handshake.ResumeSeesCurrent | cmd/flux/resume.go:306-344 | every run that completes had a poll at which the object was not suspended, Ready was for its generation, and the written request had been read after it was written and then handled |
| Handshake.ResumeFailureHasReason | cmd/flux/resume.go:306-344 | every run on which resuming fails had a poll that saw its request handled on an object that was suspended or whose status was bad |
| Handshake.UndisturbedReconcileIsHandled | cmd/flux/reconcile.go:119-156 | success means that the own request was handled, if and only if nobody else may request and the object was settled at the first read, or the command ends there (`FirstReadDecides` says how) |
| Handshake.OlderRequestSatisfiesReconcile | cmd/flux/reconcile.go:140-145 | a run in which reconcile succeeds and its request was not handled |
| Handshake.HandledNeedNotBeReconciled | cmd/flux/resume.go:335-344 | a run in which resuming completes and the controller only marked the request |
| Handshake.CompletedIsReconciledExactly | cmd/flux/resume.go:306-344 | from every state: completing means that the controller read the request on an active object, if and only if nobody may suspend it after the patch |
| ResourceArgs.ParseResourceArg | cmd/flux/resource_arg.go:290-296 | accepts exactly the arguments of two non-empty parts around their only slash |
| ResourceArgs.LowerExactly | cmd/flux/resource_arg.go:242-250 | only upper-case letters change, each to its lower-case one |
| ResourceArgs.ResolveExactly | cmd/flux/resource_arg.go:242-318 | TYPE refers to the first entry whose kind, plural or short names have it in any case; a suffix must be its group, or one of its versions and the group |
| ResourceArgs.FlagValuesExactly | cmd/flux/resource_arg.go:478-507 | a long flag without a value of its own and a single letter take the next argument unless they are known to take none; a group of letters never does |
| ResourceArgs.NextPositional | cmd/flux/resource_arg.go:478-497 | the loop that skips flags and their values |
| ResourceArgs.NextPositionalExactly | cmd/flux/resource_arg.go:478-497 | the result is v exactly when only flags, their values and empty arguments precede the operand or terminator at v |
| ResourceArgs.OperandIndices | cmd/flux/resource_arg.go:438-457 | stopping at each operand and parsing again gives the positions of one interspersed pass, none for an error, and always ends |
| ResourceArgs.OnePassIncreases | cmd/flux/resource_arg.go:438-457 | the positions are in range and strictly increasing |
| ResourceArgs.StopAndResume | cmd/flux/resource_arg.go:438-457 | going on after the operand where a parse stopped is going on with the pass, also after "--" and for errors |
| ResourceArgs.RewriteOperands | cmd/flux/resource_arg.go:376-394 | the loop that edits the operands in place and stops at the first error |
| ResourceArgs.NormalizeResourceArgs | cmd/flux/resource_arg.go:329-406 | the whole rewriting with its early returns equals its specification |
| ResourceArgs.ResourceAtExactly | cmd/flux/resource_arg.go:329-345 | there is a resource argument exactly after a verb directly under the root, not followed by one of its sub-commands, that some entry supports |
| ResourceArgs.UnknownIsUnchanged | cmd/flux/resource_arg.go:329-363 | a line without one, or with one of an unknown type, is left as it is |
| ResourceArgs.PlainTypeExactly | cmd/flux/resource_arg.go:347-405 | a plain TYPE is replaced by its path, or refused for its suffix or because the verb does not support it |
| ResourceArgs.NamedTypeExactly | cmd/flux/resource_arg.go:347-405 | TYPE/NAME is replaced by the path and the name, or refused for its suffix, its name, the verb or a further operand, in this order |
| ResourceArgs.RestExactly | cmd/flux/resource_arg.go:371-394 | the further operands are rewritten if and only if each names a resource of the same entry; otherwise the first that does not tells the error |
| ResourceArgs.RewriteLine | cmd/flux/resource_arg.go:366-405 | the second half, with the path, the in-place edit of the rest and the assembly, equals its specification |
| ResourceArgs.RestIsKept | cmd/flux/resource_arg.go:371-394 | flags, flag values and everything but operands stay in place; every operand becomes its name, of the same entry as the first |
| ResourceArgs.SameOperands | cmd/flux/resource_arg.go:371-394 | the parser finds operands at the same positions after the replacement |
| ResourceArgs.SubCommandGetsTheNames | cmd/flux/resource_arg.go:371-405 | the sub-command's operands are the first name and the names of the rest, and nothing else |
| ResourceArgs.RewrittenLine | cmd/flux/resource_arg.go:396-405 | the form and the length of a rewritten line, one longer by the path, or one less in the plain TYPE form |
| ResourceArgs.NormalizeIsIdempotent | cmd/flux/resource_arg.go:329-406 | rewriting a rewritten line changes nothing, given inherited flags and existing paths |
| ExtractTemplate.Extract | cmd/flux/create_image_policy.go:222-271 | the loops extract what the specification says |
| ExtractTemplate.ParseNumber | cmd/flux/create_image_policy.go:254-266 | the number loop with its bound and the check for leading zeros |
| ExtractTemplate.CharactersExactly | cmd/flux/create_image_policy.go:234-240 | a name has the ASCII letters, digits and underscore, and the letters and digits beyond ASCII |
| ExtractTemplate.NumberExactly | cmd/flux/create_image_policy.go:254-266 | a name is a number exactly for one to nine digits without a leading zero, or "0"; then it has its decimal value, at most 999999999 |
| ExtractTemplate.ExtractShrinks | cmd/flux/create_image_policy.go:191-201 | an accepted reference shortens the template |
| ExtractTemplate.ValidateExtractStr | cmd/flux/create_image_policy.go:184-218 | the loop ends with the verdict of the specification |
| ExtractTemplate.BracedRoundTrip | cmd/flux/create_image_policy.go:222-271 | a printed braced reference parses back, whatever follows |
| ExtractTemplate.BareRoundTrip | cmd/flux/create_image_policy.go:222-271 | a printed bare reference parses back when no name character follows |
| ExtractTemplate.LegalPart | cmd/flux/create_image_policy.go:184-218 | a refused template is a legal part followed by the reference that the error names |
| ExtractTemplate.AcceptsExactlyTheGrammar | cmd/flux/create_image_policy.go:184-218 | accepted are exactly the printed sequences of text, doubled dollars and references to a short number or a capture name |
| FormatSize.FormatSize | cmd/flux/stats.go:208-223 | the divisor is the power of 1024 with divisor <= b < 1024 * divisor, its prefix is that of the binary unit, and no value exceeds 2^60 |

## Left out

- The goroutines, requests and loops of the three protocols are steps of a state machine: locks, channels and memory order below that grain are not modelled, and the retry on conflict is not limited to its number of attempts.
- API servers that encode with a stale definition after a change: the model has one server.
- Renewal of a CRD by deletion and creation, and the listing of CRDs by label.
- The text of messages and errors, except for the kinds of errors that callers distinguish.
- `listByNames`, `missingNamesError`, table printing, and the other commands of the CLI, which only add simple loops.
- File modes, temporary directories, read errors and path resolution inside `copyDir`: an entry either resolves to a real path or does not.
- Characters are Unicode scalar values: bytes that are not valid UTF-8 are not modelled, and lower case is that of ASCII.
- The flag parser and the command lookup are libraries: the parser is a parameter that sees a flag and the kind of the next argument, the lookup follows the skipping rule that the code states, and their errors are not modelled.
- The tables of API versions, removed fields and resource types are parameters.
- The reference that the controller generates for a chart template is a library call: it is assumed to be a HelmChart or an OCIRepository, and `UntidyTemplateStartsTwice` shows that this matters.
- FormatSize: the decimal quotient with one digit is floating point and is not modelled.
- RedetectionExactly: lines whose old version first occurs in the key or before it, and empty versions of objects that are not at the top level.
- NothingIsDetectedAfterMigration: one direction; `StaysOutdatedExactly` and `RedetectionExactly` give both.
- SeparatedRangesFollow: one direction; objects that are not separated can still have ranges that do not overlap.
- CleanEndsAreFixpoint: one direction; `RemovalIsFixpointExactly` gives both.
- NormalizeIsIdempotent: one direction; when the verb does not know the flags before it, the second rewriting may or may not differ, depending on the table.
