# refocus-utilities sample store maintenance, in Dafny

This project models the maintenance scripts that refocus-utilities runs
against the Refocus sample store in Redis, and proves properties of them.
The Redis keyspace is one map from key to value (`Store.Db`). A value is:

- a hash;
- a set, kept as a sequence without duplicates so that member order can be stated;
- a string;
- a sorted set.

Each script is a method on the `Store.Redis` class. An ioredis command is a
method of that class: SMEMBERS, EXISTS, HGETALL, SISMEMBER, SADD, SREM, DEL
and a complete SCAN. A queued MULTI batch is a `Store.Cmd` sequence that
`Store.ExecAll` applies. Every script method is proved against a function of
the store it starts from, and the lemmas state what the scripts promise
about that function.

The modules:

- `Keys` holds the key names and prefixes of `src/sampleStore/constants.js`.
- `Helpers` holds `replacePrefix`, `validateSample`, `sampleKeyNameMatch` and `getNameFromKey`.
- `SampleCleanup` holds the cleanup of the master list `samsto:samples` and of the `samsto:sample:*` records, together with its own, weaker, record validator.
- `PreviewCleanup` holds the dry run of the cleanup, which reports instead of writing.
- `SubAspPopulate`, `SubAspCheck` and `SubAspDelete` hold the build, consistency check and removal of the subject→aspect index (`samsto:subaspmap:*`).
- `AspSubPopulate` and `AspSubDelete` hold the build and removal of the aspect→subject index (`samsto:aspsubmap:*`). The build inverts the subject→aspect index.
- `BlackTile` holds the periodic check-and-rebuild step.
- `SubjectAttributes` and `AspectAttributes` hold the scripts that project subject tags and aspect tags, writers and ranges into keys of their own.
- `Store`, `Text`, `Attributes` and `Wrappers` hold the store, the JavaScript string operations and the shared datatypes.

JSON.parse is a parameter of the attribute scripts. Its result on a tags or
writers string is a `Attributes.Decoded`; its result on a range string is
either a `[min, max]` pair or nothing. The Redis connection, the timer and the
environment variables of `black-tile.js` are not modelled.

The aspect→subject populate never awaits its pipelines' errors, and the
subject and aspect attribute scripts catch every error at the end. So an error
reply or a thrown error means that nothing further is written. In the model,
such a path is a `Failure` and leaves the store as it was.

## Model

| member | source | states |
|---|---|---|
| Keys.SampleKey | src/sampleStore/constants.js:24 | a sample key is the record prefix followed by the sample name |
| Keys.SamplePrefixLength | src/sampleStore/helpers.js:16 | the record prefix `samsto:sample:` is 14 characters long |
| Keys.MasterSetIsNotARecord | src/sampleStore/constants.js:19-24 | the master list key `samsto:samples` does not start with the record prefix, so no record scan visits it |
| Keys.IndexPrefixesDisjoint | src/sampleStore/constants.js:23-27 | neither index prefix is a prefix of the other, so no key carries both |
| Keys.IndexKeysAreNotRecords | src/sampleStore/constants.js:23-27 | no index key starts with the record prefix |
| Keys.PrefixesEndInColon | src/sampleStore/constants.js:21-34 | every prefix of the key table is non-empty and ends in ':' |
| Helpers.ReplacePrefixNonArray | src/sampleStore/helpers.js:35-37 | a non-array or an empty array is returned as it was |
| Helpers.ReplacePrefixElems | src/sampleStore/helpers.js:38-42 | the result has the input's length; a non-string element is kept; a string starting with the remove-prefix gets it replaced by the add-prefix; any other string is kept |
| Helpers.ReplacePrefixPrepends | src/sampleStore/helpers.js:39-42 | with an empty or non-string remove-prefix, every string element gets the add-prefix prepended |
| Helpers.ReplacePrefixIdentity | test/sampleStore/helpers.js:61-73 | with both prefixes empty or non-string, the call is the identity on every value |
| Helpers.ReplacePrefixAll | src/sampleStore/helpers.js:35-43 | on a list of strings, the replacement keeps the list's length |
| Helpers.ReplacePrefixOfStrings | src/sampleStore/helpers.js:35-43 | on an array of strings, the replacement agrees with the string-list version |
| Helpers.ReplaceLeadingInverse | src/sampleStore/helpers.js:41-42 | replacing a present prefix and then replacing back gives the original string |
| Helpers.SubjectKeyToIndexKey | src/sampleStore/aspectSubjectMap/populate.js:34-46 | stripping `samsto:subject:` and prepending `samsto:subaspmap:` turns a subject key into its index key |
| Helpers.ReplacePrefixTestAdd | test/sampleStore/helpers.js:17-31 | the test array with remove-prefix '' and add-prefix 'x' gives the expected array; '' becomes 'x' and null, undefined and 22 are kept |
| Helpers.ReplacePrefixTestReplace | test/sampleStore/helpers.js:47-59 | 'red' becomes 'beloved' and 'green' stays 'green' |
| Helpers.ReplacePrefixTestRemove | test/sampleStore/helpers.js:33-45 | remove-prefix 'yell' and an empty add-prefix turn 'yellow' into 'ow' and keep the rest |
| Helpers.ValidateSampleMeaning | src/sampleStore/helpers.js:55-71 | a sample is valid exactly when its name contains '\|' but does not start with it, and subjectId and aspectId are present and non-empty |
| Helpers.SampleKeyNameMatchMeaning | src/sampleStore/helpers.js:82-83 | a sample key matches a name exactly when the key's text after the 14-character prefix equals the lowercased name |
| Helpers.SampleKeyNameMatchFoldsNameOnly | src/sampleStore/helpers.js:73-83 | only the name is lowercased: an upper-case key does not match its own name |
| Helpers.GetNameFromKeyMeaning | src/sampleStore/helpers.js:90-93 | the result has no ':'; it is the whole key when the key has no ':', and otherwise the part after the key's last ':' |
| SampleCleanup.ExistsPipeline | src/sampleStore/sampleCleanup/cleanup.js:62-64 | one EXISTS reply per master member, true exactly when that key is in the store |
| SampleCleanup.UnlistMissing | src/sampleStore/sampleCleanup/cleanup.js:64-71 | phase 1: the master members without a record, and only those, are removed from the master list |
| SampleCleanup.DropRecords | src/sampleStore/sampleCleanup/cleanup.js:82-105 | phase 2: every scanned record that is unlisted or listed but invalid is deleted, and every listed invalid one is also removed from the master list |
| SampleCleanup.DropRecord | src/sampleStore/sampleCleanup/cleanup.js:85-99 | one scanned record gets the fate of phase 2: DEL if unlisted; HGETALL, then DEL and SREM if invalid; nothing otherwise |
| SampleCleanup.Cleanup | src/sampleStore/sampleCleanup/cleanup.js:56-114 | the run fails exactly when the master list is not a set; on success the new store is the cleaned store, on failure the store is unchanged |
| SampleCleanup.MasterMembers | src/sampleStore/sampleCleanup/cleanup.js:58-60 | the master snapshot holds exactly the master list's members |
| SampleCleanup.CleanedListsOnlyPresent | src/sampleStore/sampleCleanup/cleanup.js:58-69 | after cleanup, every master member has a key in the store |
| SampleCleanup.CleanedRecordsListed | src/sampleStore/sampleCleanup/cleanup.js:84-99 | after cleanup, every remaining record is master-listed and not invalid |
| SampleCleanup.CleanedRecordFate | src/sampleStore/sampleCleanup/cleanup.js:84-99 | a record survives exactly when it is master-listed and not invalid, and a surviving record is unchanged |
| SampleCleanup.CleanedKeepsOthers | src/sampleStore/sampleCleanup/cleanup.js:82-101 | a key that is neither a record nor the master list is neither created, removed nor changed |
| SampleCleanup.CleanedMaster | src/sampleStore/sampleCleanup/cleanup.js:62-99 | a name stays on the master list exactly when it was listed, its key exists and it is not a rejected record |
| SampleCleanup.CleanedWellFormed | src/sampleStore/sampleCleanup/cleanup.js:67-97 | in a store whose sets are non-empty and free of duplicates, cleanup keeps them so |
| SampleCleanup.CleanupIdempotent | src/sampleStore/sampleCleanup/cleanup.js:56-114 | a second cleanup of the cleaned store changes nothing |
| SampleCleanup.ValidatorsDiffer | src/sampleStore/sampleCleanup/cleanup.js:38-54 | a record valid for the helpers validator is valid here; the two disagree exactly on names that start with '\|' |
| SampleCleanup.StricterValidatorDoomsMore | src/sampleStore/sampleCleanup/previewCleanup.js:26 | the helpers validator marks every record this one marks, and in addition exactly the listed hashes whose name starts with '\|' |
| SampleCleanup.RecValidity | src/sampleStore/sampleCleanup/cleanup.js:38-54 | a record built from a name, a subject id and an aspect id, each left out when empty, passes exactly when all three are set and the name holds a '\|' |
| SampleCleanup.FixtureValidity | test/sampleStore/sampleCleanup/cleanup.js:18-55 | for any non-empty id, samples a and b are valid; c (no subjectId), d (no name), e (no aspectId) and f (no '\|') are not |
| SampleCleanup.CleanupFixtureFate | test/sampleStore/sampleCleanup/cleanup.js:57-76 | a name of the test's master list is neither missing nor rejected exactly when it is a or b |
| SampleCleanup.CleanupFixtureEndState | test/sampleStore/sampleCleanup/cleanup.js:78-92 | cleanup of the test's store succeeds; afterwards the master list holds exactly a and b, and the keys starting with `samsto:sample` are exactly the master list, a and b |
| PreviewCleanup.Preview | src/sampleStore/sampleCleanup/previewCleanup.js:34-90 | the store is unchanged; the run fails exactly when the master list is not a set; the delete list has no duplicates and names exactly the doomed records; the master-removal list names the missing and the rejected members |
| PreviewCleanup.ReportMatchesCleanup | src/sampleStore/sampleCleanup/previewCleanup.js:55-70 | with the same validator, the report names exactly the records a cleanup deletes and the members it unlists |
| PreviewCleanup.ReportAgainstCleanup | src/sampleStore/sampleCleanup/previewCleanup.js:26 | every record the real cleanup deletes is reported; a reported record survives the real cleanup exactly when it is a listed hash that passes cleanup.js's validator with a name starting with '\|' |
| SubAspPopulate.SplitSampleKey | src/sampleStore/subjectAspectMap/populate.js:36 | splitting a sample key on ':' gives "samsto", "sample" and the split of the name |
| SubAspPopulate.SampleName | src/sampleStore/subjectAspectMap/populate.js:36 | the third ':'-segment of a sample key has no ':' |
| SubAspPopulate.SubjectAndAspectOfKey | src/sampleStore/subjectAspectMap/populate.js:35-39 | the key `samsto:sample:s\|a` gives subject s and aspect a |
| SubAspPopulate.SubjectAndAspectNoBar | src/sampleStore/subjectAspectMap/populate.js:37 | a name without '\|' gives the whole name as subject and an empty aspect |
| SubAspPopulate.IndexPair | src/sampleStore/subjectAspectMap/populate.js:51-52 | the SADD of a sample goes to a key under `samsto:subaspmap:` |
| SubAspPopulate.IndexPairs | src/sampleStore/subjectAspectMap/populate.js:49-53 | one SADD is queued per scanned sample |
| SubAspPopulate.ScopedKeysAreSampleKeys | src/sampleStore/subjectAspectMap/populate.js:26 | a key under the scoped pattern is a sample key |
| SubAspPopulate.PopulateSubjectAspectMap | src/sampleStore/subjectAspectMap/populate.js:72-91 | the scan returns every key under `samsto:sample:` + scope exactly once; the result is the number of scanned keys; the new store is the old one with one SADD per scanned key |
| SubAspPopulate.SAddAllKeys | src/sampleStore/subjectAspectMap/populate.js:52 | a key created by the SADDs is the key of one of them |
| SubAspPopulate.PopulateTouchesOnlyIndex | src/sampleStore/subjectAspectMap/populate.js:49-53 | a key outside `samsto:subaspmap:` is neither created, removed nor changed |
| SubAspPopulate.PopulateKeepsRecords | src/sampleStore/subjectAspectMap/populate.js:49-53 | populate leaves the set of sample keys under any scope as it was |
| SubAspPopulate.PopulateIndexesEveryScannedSample | src/sampleStore/subjectAspectMap/populate.js:49-53 | after populate, a is in the set of s exactly when it was before, or the key is a set (or absent) and some scanned key yields (s, a); nothing is removed |
| SubAspPopulate.PopulateFindsAll | src/sampleStore/subjectAspectMap/populate.js:49-53 | after populate, every sample in scope is found in the index |
| SubAspPopulate.PopulateFixtureEndState | test/sampleStore/subjectAspectMap/populate.js:19-41 | on the test's five sample keys, in any scan order, populate leaves `samsto:subaspmap:canada` holding exactly temperature and humidity and `samsto:subaspmap:canada.manitoba` holding exactly temperature |
| SubAspCheck.CountFoundIsCard | src/sampleStore/subjectAspectMap/checkSamplesAgainstSubAspMap.js:61-69 | counting replies one by one gives the number of distinct scanned keys found in the index |
| SubAspCheck.CheckSamplesAgainstSubAspMap | src/sampleStore/subjectAspectMap/checkSamplesAgainstSubAspMap.js:49-83 | the result holds the number of samples in scope and the number of them whose aspect is in their subject's index set; the store is unchanged |
| SubAspCheck.FoundAtMostTotal | src/sampleStore/subjectAspectMap/checkSamplesAgainstSubAspMap.js:58-69 | foundInMap is at most total |
| SubAspCheck.CompleteIff | src/sampleStore/subjectAspectMap/checkSamplesAgainstSubAspMap.js:58-79 | foundInMap equals total exactly when every sample in scope is found |
| SubAspCheck.NothingFoundWithoutIndex | test/sampleStore/subjectAspectMap/checkSubAspMap.js:20-25 | without any index key, foundInMap is 0 |
| SubAspCheck.CheckAfterPopulate | test/sampleStore/subjectAspectMap/checkSubAspMap.js:26-30 | after populate with the same scope, foundInMap equals total, which is the number of scanned keys |
| SubAspDelete.DeleteSubAspMap | src/sampleStore/subjectAspectMap/delete.js:38-54 | every key under `samsto:subaspmap:` is deleted and nothing else changes |
| SubAspDelete.DeleteScanned | src/sampleStore/subjectAspectMap/delete.js:19-31 | deleting each scanned key removes exactly the keys under the pattern |
| SubAspDelete.DeleteSubAspMapKeepsOthers | test/sampleStore/subjectAspectMap/delete.js:18-32 | records and aspect→subject keys survive the delete unchanged |
| SubAspDelete.DeleteSubAspMapExample | test/sampleStore/subjectAspectMap/delete.js:18-32 | `samsto:subaspmap:a` goes and `somethingelse` stays |
| Store.DeleteMatchingIdempotent | src/sampleStore/subjectAspectMap/delete.js:21-22 | deleting the keys under a prefix twice is the same as once |
| AspSubPopulate.ReadAll | src/sampleStore/aspectSubjectMap/populate.js:49-53 | the SMEMBERS replies, one per subject |
| AspSubPopulate.ReadAllMeaning | src/sampleStore/aspectSubjectMap/populate.js:49-62 | reading succeeds exactly when every index key is a set or absent, and then the i-th list is the i-th key's members |
| AspSubPopulate.ReadAllFailsFrom | src/sampleStore/aspectSubjectMap/populate.js:59-62 | one unreadable index key makes the whole read fail |
| AspSubPopulate.SMembersPipeline | src/sampleStore/aspectSubjectMap/populate.js:49-53 | one SMEMBERS reply per index key, in order |
| AspSubPopulate.QueueSAdds | src/sampleStore/aspectSubjectMap/populate.js:59-64 | the queued SADDs are one per (subject, aspect) pair, or the run fails when a reply is an error |
| AspSubPopulate.PopulateAspectSubjectMap | src/sampleStore/aspectSubjectMap/populate.js:20-68 | the run fails exactly when the subjects list or an index key has the wrong type; on success the new store is the populated one, otherwise it is unchanged |
| AspSubPopulate.AspSubPairsMeaning | src/sampleStore/aspectSubjectMap/populate.js:59-64 | (aspsubmap:a, s) is queued exactly when s is a listed subject whose list contains a |
| AspSubPopulate.PopulatedInvertsIndex | src/sampleStore/aspectSubjectMap/populate.js:24-64 | after the run, s is in `samsto:aspsubmap:a` exactly when it was before, or the key is settable, s is a listed subject and a is in `samsto:subaspmap:s` |
| AspSubPopulate.SubjectEntryStripped | src/sampleStore/aspectSubjectMap/populate.js:34 | a `samsto:subject:` entry becomes its absolute path |
| AspSubPopulate.PopulatedTouchesOnlyIndex | src/sampleStore/aspectSubjectMap/populate.js:59-64 | a key outside `samsto:aspsubmap:` is neither created, removed nor changed |
| AspSubPopulate.AspSubPairsKeys | src/sampleStore/aspectSubjectMap/populate.js:63 | every queued SADD targets a key under `samsto:aspsubmap:` |
| AspSubPopulate.InvertFixtureEndState | test/sampleStore/aspectSubjectMap/populate.js:19-43 | on the test's subjects and subject-aspect sets, populate succeeds; humidity then lists exactly canada.manitoba and canada.quebec, and temperature exactly canada.manitoba and canada.ontario |
| AspSubDelete.DeleteAspSubMap | src/sampleStore/aspectSubjectMap/delete.js:23-40 | every key under `samsto:aspsubmap:` is deleted and nothing else changes; an empty scan deletes nothing |
| AspSubDelete.DeleteAspSubMapKeepsOthers | test/sampleStore/aspectSubjectMap/delete.js:18-32 | records and subject→aspect keys survive the delete unchanged |
| BlackTile.BlackTileCheckAndRebuild | black-tile.js:24-41 | a rebuild happens exactly when total - foundInMap > 0; without one the store is unchanged; with one the whole subject→aspect index is deleted and then repopulated from the scoped scan |
| BlackTile.NoRebuildWhenComplete | black-tile.js:28-29 | when every sample in scope is found, the drift is 0 |
| BlackTile.RebuildRestoresCheck | black-tile.js:32-35 | after the rebuild, a fresh check reports foundInMap = total with the same total as before |
| BlackTile.DeleteKeepsScopedRecords | black-tile.js:32 | deleting index keys leaves the samples in scope as they were |
| BlackTile.PrefixBeforeBar | black-tile.js:21-22 | when a name without '\|' is a prefix of `other\|aspect`, it is a prefix of `other` |
| BlackTile.OtherOutOfScope | black-tile.js:21-22 | a sample of a subject outside the scope's prefix is not in the scoped scan |
| BlackTile.OnlyRootInScope | black-tile.js:21-22 | in the two-subject store, only the scoped subject's sample is in scope |
| BlackTile.RootSampleMissing | black-tile.js:26-29 | the two-subject store reports total 1 and foundInMap 0, so it is rebuilt |
| BlackTile.AsWrittenLosesOther | black-tile.js:32 | the rebuild as written drops the index entry of the subject outside the scope |
| BlackTile.RebuildDropsOtherSubjects | black-tile.js:32 | on the two-subject store, the rebuild as written loses the other subject's entry, which the scoped rebuild keeps |
| BlackTile.BlackTileCheckAndRebuildScoped | black-tile.js:24-41 | as BlackTileCheckAndRebuild, but the delete removes only the index keys under the scope |
| BlackTile.ScopedRebuildRestoresCheck | black-tile.js:32-35 | after the scoped rebuild, a fresh check reports foundInMap = total with the same total as before |
| BlackTile.ScopedRebuildKeepsOtherSubjects | black-tile.js:32 | the scoped rebuild keeps every member of every key outside the scope's index keys |
| SubjectAttributes.TagsKeyIsNotExistsKey | src/sampleStore/attributesAsKeys/subjectAttributesAsKeys.js:35-36 | a tags key is never an exists key |
| SubjectAttributes.QueueSubject | src/sampleStore/attributesAsKeys/subjectAttributesAsKeys.js:31-55 | the method queues the same commands as the subject's command list, or fails with the same error |
| SubjectAttributes.BatchFailsFrom | src/sampleStore/attributesAsKeys/subjectAttributesAsKeys.js:31-56 | the first subject that throws makes the whole batch fail with its error |
| SubjectAttributes.SubjectAttributesAsKeys | src/sampleStore/attributesAsKeys/subjectAttributesAsKeys.js:20-76 | the result is the planned command list or the first error; the batch runs only on success outside preview, and otherwise the store is unchanged |
| SubjectAttributes.SubjectFailsIff | src/sampleStore/attributesAsKeys/subjectAttributesAsKeys.js:32-46 | a subject fails exactly when its reply is not a hash, or it has no absolutePath, or it is published with a path and outside clear mode and its tags do not decode to an array |
| SubjectAttributes.SubjectRefreshed | src/sampleStore/attributesAsKeys/subjectAttributesAsKeys.js:35-53 | the exists key is 'true'; the tags key exists exactly when the tags are non-empty and holds exactly the tags, with no duplicates; every other key is unchanged |
| SubjectAttributes.SubjectCleared | src/sampleStore/attributesAsKeys/subjectAttributesAsKeys.js:37-39 | in clear mode a published subject's tags and exists keys are deleted and nothing else changes |
| SubjectAttributes.UnpublishedQueuesNothing | src/sampleStore/attributesAsKeys/subjectAttributesAsKeys.js:34 | an unpublished subject queues no command |
| SubjectAttributes.SubjectBlockShape | src/sampleStore/attributesAsKeys/subjectAttributesAsKeys.js:35-53 | a subject's commands start by deleting every key they write, touch only tags and exists keys, and are all deletes in clear mode |
| SubjectAttributes.BatchShape | src/sampleStore/attributesAsKeys/subjectAttributesAsKeys.js:29-56 | the whole batch has the same shape |
| SubjectAttributes.PlanIdempotent | src/sampleStore/attributesAsKeys/subjectAttributesAsKeys.js:35-53 | running the batch twice leaves the store as running it once |
| SubjectAttributes.PlanTouchesOnlyAttributes | src/sampleStore/attributesAsKeys/subjectAttributesAsKeys.js:35-36 | a key under neither `samsto:subTags:` nor `samsto:subExists:` is unchanged |
| SubjectAttributes.ClearOnlyDeletes | src/sampleStore/attributesAsKeys/subjectAttributesAsKeys.js:39 | clear mode only deletes, and the new store is the old one without the deleted keys |
| SubjectAttributes.LastForIff | src/sampleStore/attributesAsKeys/subjectAttributesAsKeys.js:31-34 | the last listed subject writing a path is found exactly when some published subject has that lower-cased path, and no later subject writes it |
| SubjectAttributes.OtherBlockKeepsPath | src/sampleStore/attributesAsKeys/subjectAttributesAsKeys.js:35-53 | a subject's commands leave every other path's tags and exists keys unchanged |
| SubjectAttributes.BatchEndState | src/sampleStore/attributesAsKeys/subjectAttributesAsKeys.js:29-56 | after the whole batch, each non-empty path's tags key holds exactly the tags of the last published subject with that lower-cased path (no key when it has none) and its exists key is 'true'; a path no published subject has keeps both keys as they were |
| SubjectAttributes.PlanEndState | src/sampleStore/attributesAsKeys/subjectAttributesAsKeys.js:20-73 | the same for the batch the script builds from the store and executes outside preview |
| SubjectAttributes.PlanMarksEveryListed | src/sampleStore/attributesAsKeys/subjectAttributesAsKeys.js:34-53 | after the script, every published listed subject with a non-empty path has its exists key set to 'true' |
| SubjectAttributes.ClearIgnoresTags | src/sampleStore/attributesAsKeys/subjectAttributesAsKeys.js:39-43 | clear mode never parses tags, so the decoder does not matter |
| AspectAttributes.AspectKeysDistinct | src/sampleStore/constants.js:30-32 | an aspect's tags, writers and ranges keys never coincide |
| AspectAttributes.RangeMemberParts | src/sampleStore/attributesAsKeys/aspectAttributesAsKeys.js:38-40 | a range member is precedence, ':', the bound, ':' and the status |
| AspectAttributes.RangeKeysOrder | src/sampleStore/attributesAsKeys/aspectAttributesAsKeys.js:22-36 | a flat range's min member sorts before its max; a non-flat range's max member sorts before every min; every max sorts before a non-flat min |
| AspectAttributes.RangeKeysDistinct | src/sampleStore/attributesAsKeys/aspectAttributesAsKeys.js:22-40 | no min member equals a max member, and members of different statuses differ |
| AspectAttributes.RangesFailureStays | src/sampleStore/attributesAsKeys/aspectAttributesAsKeys.js:59-72 | once a range fails to parse, so do the ranges after it |
| AspectAttributes.AddListCmds | src/sampleStore/attributesAsKeys/aspectAttributesAsKeys.js:75-101 | the tags or writers step appends the list's commands to the queue, or fails |
| AspectAttributes.AddRangesCmds | src/sampleStore/attributesAsKeys/aspectAttributesAsKeys.js:50-73 | the ranges loop appends two ZADDs per present range, in status order, or fails |
| AspectAttributes.QueueAspect | src/sampleStore/attributesAsKeys/aspectAttributesAsKeys.js:112-123 | one aspect's tags, writers and ranges commands are appended to the queue, or the aspect's error is raised |
| AspectAttributes.AspectAttributesAsKeys | src/sampleStore/attributesAsKeys/aspectAttributesAsKeys.js:103-135 | the result is the planned command list or the first error; the batch runs only on success outside preview, and otherwise the store is unchanged |
| AspectAttributes.BatchFailsFrom | src/sampleStore/attributesAsKeys/aspectAttributesAsKeys.js:112-123 | the first aspect that throws makes the whole batch fail with its error |
| AspectAttributes.RangesFailIff | src/sampleStore/attributesAsKeys/aspectAttributesAsKeys.js:59-62 | the ranges step fails exactly when some present range does not parse to a pair |
| AspectAttributes.AspectFailsIff | src/sampleStore/attributesAsKeys/aspectAttributesAsKeys.js:112-123 | an aspect fails exactly when its reply is not a hash, or it is published and named and its tags, its writers or one of its ranges cannot be decoded |
| AspectAttributes.UnlistedQueuesNothing | src/sampleStore/attributesAsKeys/aspectAttributesAsKeys.js:115-116 | an unpublished or unnamed aspect queues no command |
| AspectAttributes.BatchFailsIff | src/sampleStore/attributesAsKeys/aspectAttributesAsKeys.js:110-123 | the batch fails exactly when some aspect fails |
| AspectAttributes.PairMembers | src/sampleStore/attributesAsKeys/aspectAttributesAsKeys.js:63-66 | the two members of a range differ and both carry its status |
| AspectAttributes.RangesOnKey | src/sampleStore/attributesAsKeys/aspectAttributesAsKeys.js:51-72 | every range command is a ZADD on the aspect's ranges key with one of the visited statuses |
| AspectAttributes.RangesDistinct | src/sampleStore/attributesAsKeys/aspectAttributesAsKeys.js:59-72 | the range commands all have different members |
| AspectAttributes.RangesCover | src/sampleStore/attributesAsKeys/aspectAttributesAsKeys.js:59-72 | every present range yields its min and its max ZADD, scored with the bounds |
| AspectAttributes.BlockParts | src/sampleStore/attributesAsKeys/aspectAttributesAsKeys.js:116-121 | an aspect's commands are its tags SADD (if any), then its writers SADD (if any), then its ranges |
| AspectAttributes.BlockShape | src/sampleStore/attributesAsKeys/aspectAttributesAsKeys.js:112-123 | an aspect's commands never delete, and touch only its three attribute keys |
| AspectAttributes.BatchShape | src/sampleStore/attributesAsKeys/aspectAttributesAsKeys.js:110-132 | the whole batch never deletes and touches only attribute keys |
| AspectAttributes.PlanTouchesOnlyAttributes | src/sampleStore/attributesAsKeys/aspectAttributesAsKeys.js:110-132 | a key outside the three attribute prefixes is unchanged |
| AspectAttributes.PlanKeepsEverything | src/sampleStore/attributesAsKeys/aspectAttributesAsKeys.js:110-132 | the batch removes nothing: every key keeps its type, every set its members and every sorted set its entries |
| AspectAttributes.SAddThenOthers | src/sampleStore/attributesAsKeys/aspectAttributesAsKeys.js:82-85 | an item is in the set after its SADD exactly when it was before or it is one of the items and the key was settable |
| AspectAttributes.ListCmdsOnKey | src/sampleStore/attributesAsKeys/aspectAttributesAsKeys.js:82-85 | the tags or writers step queues at most one SADD, on its own key |
| AspectAttributes.BlockKeys | src/sampleStore/attributesAsKeys/aspectAttributesAsKeys.js:116-121 | after the tags SADD no command touches the tags key, and after the writers SADD no command touches the writers key |
| AspectAttributes.AspectTagsAdded | src/sampleStore/attributesAsKeys/aspectAttributesAsKeys.js:75-87 | a tag is in the aspect's tags set afterwards exactly when it was before or it is one of the decoded tags and the key was settable; whether the key can hold a set does not change |
| AspectAttributes.AspectWritersAdded | src/sampleStore/attributesAsKeys/aspectAttributesAsKeys.js:89-101 | the same for writers |
| AspectAttributes.AspectOthersUnchanged | src/sampleStore/attributesAsKeys/aspectAttributesAsKeys.js:112-123 | an aspect's commands leave every key other than its three attribute keys unchanged |
| AspectAttributes.AddedBySnoc | src/sampleStore/attributesAsKeys/aspectAttributesAsKeys.js:110-123 | some reply adds an item exactly when an earlier reply or the last one does |
| AspectAttributes.BlockListAdded | src/sampleStore/attributesAsKeys/aspectAttributesAsKeys.js:75-101 | one aspect's commands add to a name's tags or writers set exactly the decoded items when it is that name's aspect and the key can hold a set, and keep whether the key can hold a set |
| AspectAttributes.BatchListsAdded | src/sampleStore/attributesAsKeys/aspectAttributesAsKeys.js:110-123 | after the whole batch, an item is in a name's tags or writers set exactly when it was before, or the key could hold a set and some listed aspect of that name decodes to a list holding it |
| AspectAttributes.BlockSAddsOffRanges | src/sampleStore/attributesAsKeys/aspectAttributesAsKeys.js:75-101 | an aspect's SADDs never go to a ranges key |
| AspectAttributes.BatchSAddsOffRanges | src/sampleStore/attributesAsKeys/aspectAttributesAsKeys.js:110-123 | the whole batch's SADDs never go to a ranges key |
| AspectAttributes.BatchRangesPresent | src/sampleStore/attributesAsKeys/aspectAttributesAsKeys.js:50-72 | after the whole batch, every range of every listed aspect has its min and max members in the ranges sorted set, when that key held a sorted set or nothing before |
| AspectAttributes.PlanListsAdded | src/sampleStore/attributesAsKeys/aspectAttributesAsKeys.js:103-132 | the tags and writers end state for the batch the script builds from the store |
| AspectAttributes.PlanRangesPresent | src/sampleStore/attributesAsKeys/aspectAttributesAsKeys.js:103-132 | the ranges end state for the batch the script builds from the store |
| AspectAttributes.AspectRangesScored | src/sampleStore/attributesAsKeys/aspectAttributesAsKeys.js:50-72 | every present range of a published aspect leaves its min and max members in the ranges sorted set, scored with the bounds |

## Left out

- Helpers.ReplacePrefix: the source builds a regular expression from the remove-prefix. The model matches it literally, so it is wrong for prefixes holding regular-expression metacharacters. The sample-store prefixes hold none.
- Helpers.ReplacePrefix: the add-prefix is passed to `String.prototype.replace` (src/sampleStore/helpers.js:42), so `$&`, `$1` and `$$` in it are replacement patterns. The model appends the add-prefix literally. The sample-store prefixes hold no `$`.
- SubAspPopulate.PopulateSubjectAspectMap and SubAspCheck.CheckSamplesAgainstSubAspMap: the SCAN MATCH pattern is built from `subjectKey` (src/sampleStore/subjectAspectMap/populate.js:26, src/sampleStore/subjectAspectMap/checkSamplesAgainstSubAspMap.js:11), so `*`, `?`, `[` and `\` in it act as glob syntax. The model matches `subjectKey` as a literal prefix. Subject paths made of letters, digits, `.`, `_` and `-` are unaffected.
- `toLowerCase` is modelled for ASCII letters only.
- SampleCleanup.Cleanup: a master-listed key that is not a hash makes `validateSample` throw in the source. The throw happens before that scan batch's second MULTI is sent, so none of the batch's DEL/SREM pairs for invalid records run, including those for keys before the failing one. The model instead skips that key and still removes the batch's other invalid records.
- PreviewCleanup.Preview: a master-listed key that is not a hash makes `validateSample` throw in the source (src/sampleStore/sampleCleanup/previewCleanup.js:66, src/sampleStore/helpers.js:56). The batch's records after the failing key are then not reported, and the script does not handle the rejection. The model instead skips that key and reports the batch's other invalid records.
- SampleCleanup.Cleanup: phase 1's MULTI is not awaited before the scan starts. The model runs phase 1 to completion first.
- The module-level `samples` and `deletedSample` arrays of cleanup.js and previewCleanup.js keep growing across calls in one process. The model starts each run afresh.
- Scan cursors, batch sizes (`count`) and the duplicates a real SCAN can return are not modelled. A scan is one complete pass that returns every matching key once.
- The promise, stream and callback plumbing is not modelled; every script runs sequentially to completion.
- Debug logging, console output and the counts reported only to the log are not modelled. This covers the per-batch deletion counts of the subject→aspect delete and the SADD reply checks of populate.
- PreviewCleanup.Preview: the order in which the lists are printed is not stated. The lists are stated as sets, plus the delete list's freedom from duplicates.
- The JSON parser is a parameter. Range values that parse to something other than a two-number array are not modelled, and neither are non-string tag elements. For ranges, a parse error and a `null` result are one failure.
- Numbers in range bounds are `real`, and their printed form is not modelled.
- black-tile.js's Redis connection, `setInterval` timer and environment variables are not modelled; the step is run once with a given scope.
- src/sampleStore/attributesAsKeys/statusCalculation.js and the command line scripts are not part of this model.
- Sample names containing ':' are split by `getSubjectAndAspectFromSampleKey` at that ':', which the model follows without further properties.
- A sample name without '|' gives an undefined aspect in the source; the model uses the empty string.
- AspectAttributes.AspectAttributesAsKeys: idempotence of the aspect batch is not proved; only that it removes nothing and touches only attribute keys.
- AspSubDelete.DeleteAspSubMap: when the scan finds nothing, the source still sends `DEL` with an empty list, which Redis rejects and which writes nothing; the model sends nothing.
- The aspect test file calls the script with three arguments and expects range members such as '0:min:Critical:0'. This does not match the two-argument source, whose members are 'p:min:Status'. The model follows the source.
- The subject test file passes only `clear = false`, which leaves preview at its default `true`. In preview the source writes nothing, yet the test expects the attribute keys to exist. The model follows the source.
- The three test-fixture lemmas state membership, not the order in which the tests expect `SMEMBERS` to list the members. The empty `SADD` calls in the populate fixtures are left out as absent keys.

## Findings

| source | as written | input that shows it | evidently intended | confidence | as-written member | corrected member |
|---|---|---|---|---|---|---|
| black-tile.js:32 | the rebuild deletes the whole subject→aspect index (src/sampleStore/subjectAspectMap/delete.js:38-41 takes no scope) and then repopulates only the samples under the scope | scope `root`, with samples `root\|asp` and `other\|asp` and the index entry `samsto:subaspmap:other` = {asp}; the index check reports 1 of 1 missing, and the rebuild removes `other`'s entry without restoring it | delete only the index keys under the scope, so subjects outside it keep their entries | not executed | BlackTile.RebuildDropsOtherSubjects | BlackTile.ScopedRebuildKeepsOtherSubjects |
