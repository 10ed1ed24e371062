# nbox-ui entry console, modelled in Dafny

nbox-ui is the web console of the nbox configuration store. Its core is the page that lists the
entries (key, value, secure flag) stored under a path prefix. From that page a user edits
entries in place, reveals secrets, creates entries through a form or a JSON import, and
downloads them. This project models that core and proves properties of it:

- the editing reducer and hook (`app/hooks/use-entry.ts`);
- the memoising secret cache (`app/hooks/use-retrieve-secret.ts`);
- the entry endpoint, from FormData to the schema and back to its response (`app/routes/api.entry.ts`);
- the entry schemas (`app/domain/validations.ts`);
- the repository adapter (`app/adapters/entry-repository.ts`);
- the sidebar's tree builder (`app/context/tree-builder.ts`) and the sidebar itself;
- the creation form and its hook;
- the JSON import form;
- the table row and value cell;
- the entry page, the login action and the template list.

Each module follows one source file. The imperative parts are classes or methods:

- `UseEntry.EntryHook` holds the reducer state and its own secret cache;
- `RetrieveSecret.SecretCache` holds the cache map;
- `PathTree.TreeBuilder` holds the root level;
- the loops (FormData building, parsing, validating unique keys, folding issues, expanding
  sidebar ancestors, invalidating saved ids) are methods with loop invariants.

Each of these is proved against a function that states the result. The pure parts are
functions and lemmas.

Shared modules:

- `Wrappers`: `Option` and `Result`.
- `Strings`: JavaScript's `split`, `join`, `includes`, `trim` and the decimal rendering of
  numbers.
- `Domain`: the entry record, its identifier `path + "/" + key`, and the FormData encoding
  `entries[i][key|value|secure]` that both the hook and the import form send.

Network calls, React scheduling and rendering are left out. The answer a call would have
received is a parameter of the operation that makes the call.

## Model

| member | source | states |
|---|---|---|
| Domain.EntryId | app/hooks/use-entry.ts:175 | The identifier is the path, one `/`, then the key, and each part can be read back from it. |
| Domain.EntryIdInjective | app/hooks/use-entry.ts:94 | Under one path, two keys give the same identifier only when they are equal. |
| Domain.EncodeBatch | app/hooks/use-entry.ts:186-189 | Item `i` of a batch is written as exactly three fields, `entries[i][key]`, `[value]` and `[secure]`, at positions `3i` to `3i+2`. |
| Domain.EncodeBatchAppend | app/hooks/use-entry.ts:174-191 | Appending an item appends its three fields, numbered with the next index. |
| UseEntry.StepChangesOnlyItsComponents | app/hooks/use-entry.ts:40-104 | Each reducer action changes only the state components its case names. |
| UseEntry.SetEntriesResetsEditing | app/hooks/use-entry.ts:42-43 | Loading a list replaces the entries and empties the editing set and the changes, keeping revealed secrets and the loading flag. |
| UseEntry.UpdateChangeLastWriteWins | app/hooks/use-entry.ts:45-53 | Recording a change is last-write-wins for its id and leaves other ids' changes alone. |
| UseEntry.EndSingleEditRemovesOnlyThatId | app/hooks/use-entry.ts:55-70 | Finishing and cancelling one edit are the same step: they remove exactly that id from the editing set and the changes. |
| UseEntry.GlobalEditSelectsExactlyCurrentIds | app/hooks/use-entry.ts:91-95 | A global edit puts exactly the ids of the current entries in edit mode. |
| UseEntry.RevealThenHideRestores | app/hooks/use-entry.ts:75-84 | Revealing an id that was not revealed and then hiding it restores the revealed map. |
| UseEntry.RunAppend | app/hooks/use-entry.ts:40-104 | Dispatching a list of actions and then one more is one step after the list. |
| UseEntry.RowEditsNetEffect | app/hooks/use-entry.ts:85-89 | After any sequence of start-edit and cancel actions, an id is in edit mode exactly when its last such action was a start, or when there was none and it was in edit mode before. |
| UseEntry.ItemFor | app/hooks/use-entry.ts:179-188 | A changed entry is submitted under `path + "/" + newName` with the new value and flag. |
| UseEntry.PendingBatchItems | app/hooks/use-entry.ts:174-191 | The save-all batch holds exactly the items of listed entries that have a pending change. |
| UseEntry.PendingBatchLength | app/hooks/use-entry.ts:172-189 | The batch has one item per listed entry with a pending change. |
| UseEntry.PendingBatchIgnoresUnknownIds | app/hooks/use-entry.ts:174-176 | Pending changes for ids no listed entry has are never submitted. |
| UseEntry.PendingBatchDependsOnListedIds | app/hooks/use-entry.ts:174-176 | Two change maps that agree on the listed ids give the same batch. |
| UseEntry.SingleSaveItem | app/hooks/use-entry.ts:204-224 | A single save submits nothing exactly when there is no pending change or the change equals the entry. Otherwise it submits that entry's item. |
| UseEntry.BuildSubmission | app/hooks/use-entry.ts:171-191 | The loop's FormData is the encoding of the pending batch, and its counter is the batch length. |
| UseEntry.EntryHook.constructor | app/hooks/use-entry.ts:106-117 | The hook starts from the initial state with its own, empty secret cache. |
| UseEntry.EntryHook.Dispatch | app/hooks/use-entry.ts:116 | A dispatch applies one reducer step. |
| UseEntry.EntryHook.LoadEntries | app/hooks/use-entry.ts:119-121 | The load effect dispatches `SET_ENTRIES`. |
| UseEntry.EntryHook.StartEditingEntry | app/hooks/use-entry.ts:142-144 | Starting an edit puts the entry's id in edit mode. |
| UseEntry.EntryHook.StartGlobalEditing | app/hooks/use-entry.ts:146-148 | Dispatches the global edit. |
| UseEntry.EntryHook.CancelAllEdits | app/hooks/use-entry.ts:151-153 | Dispatches `FINISH_GLOBAL_EDIT`. |
| UseEntry.EntryHook.CancelEdit | app/hooks/use-entry.ts:155-157 | Dispatches the cancel of one id. |
| UseEntry.EntryHook.RecordEntryChange | app/hooks/use-entry.ts:160-162 | Dispatches the change of one id. |
| UseEntry.EntryHook.ToggleSecretVisibility | app/hooks/use-entry.ts:123-140 | A revealed id is hidden without a fetch. Otherwise the endpoint is consulted exactly when the id is not cached, a non-empty secret is revealed, and the loading flag ends lowered. Entries, edits and changes are untouched. |
| UseEntry.EntryHook.SaveAllChanges | app/hooks/use-entry.ts:164-202 | With no change nothing is sent and the global edit ends. Otherwise the encoded pending batch is sent and editing, changes and revealed secrets are emptied. |
| UseEntry.EntryHook.SaveEntry | app/hooks/use-entry.ts:204-233 | Without a real change only that edit ends. With one, its item is sent at index 0, that edit ends and revealed secrets are cleared. |
| UseEntry.SaveAllEmptiesEditingState | app/hooks/use-entry.ts:199-200 | After a submitting save-all, editing, changes and revealed secrets are empty and the entries are kept. |
| UseEntry.SaveEntryClearsRevealed | app/hooks/use-entry.ts:231-232 | After a submitting single save, that id leaves edit mode, other rows keep theirs, and revealed secrets are cleared. |
| UseEntry.GlobalEditScenario | app/hooks/use-entry.ts:146-202 | Two rows, edit all, change the first: only the first row is submitted, under its own id, and editing ends. |
| UseEntry.OneChangedRowBatch | app/hooks/use-entry.ts:174-191 | With a change for the first of two rows only, the batch is that row's item. |
| RetrieveSecret.Retrieve | app/hooks/use-retrieve-secret.ts:4-10 | A fetch succeeds exactly for an ok response, and returns its body. |
| RetrieveSecret.SecretCache.constructor | app/hooks/use-retrieve-secret.ts:13 | Each hook instance starts with an empty cache. |
| RetrieveSecret.SecretCache.GetSecret | app/hooks/use-retrieve-secret.ts:15-28 | On a hit the cached value is returned without a fetch. On a miss a success is cached and returned, and a failure returns "" and caches nothing. Every cached value is one a fetch returned for that path. |
| RetrieveSecret.SecretCache.InvalidateSecret | app/hooks/use-retrieve-secret.ts:30-39 | Removes that one path; an absent path leaves the cache unchanged. |
| RetrieveSecret.SecretCache.InvalidateAll | app/hooks/use-retrieve-secret.ts:41-43 | The cache is left empty. |
| UseEntryForm.AddEntry | app/hooks/use-entry-form.ts:7-9 | Adding grows the list by one. |
| UseEntryForm.AddEntryKeepsEarlier | app/hooks/use-entry-form.ts:7-9 | Adding keeps the earlier entries and appends a blank one. |
| UseEntryForm.RemoveEntryDropsIndex | app/hooks/use-entry-form.ts:11-13 | Removing drops exactly the given position and keeps the rest in order. An index out of range changes nothing. |
| UseEntryForm.RemoveUndoesAdd | app/hooks/use-entry-form.ts:7-13 | Removing the entry just added gives the list back. |
| UseEntryForm.UpdateEntryChangesOneField | app/hooks/use-entry-form.ts:15-23 | An update keeps the length and every other entry, and changes only the named field of that entry. |
| UseEntryForm.UpdateSameFieldLastWins | app/hooks/use-entry-form.ts:15-23 | Two updates of the same field: the second wins. |
| Validations.AsWrittenCoercion | app/domain/validations.ts:6 | As written, only the strings "true" and "on" make an entry secure; a boolean never does. |
| Validations.CoercionsAgreeOnStrings | app/domain/validations.ts:6 | The corrected coercion differs from the written one on the boolean true alone. |
| Validations.SafeParseCoercionsAgree | app/domain/validations.ts:6 | On a list where no entry carries the boolean true, both coercions give the same parse. |
| Validations.KeysOf | app/domain/validations.ts:24-28 | The keys are read in list order. |
| Validations.KeysAreUnique | app/domain/validations.ts:21-35 | The refinement's scan returns true exactly when the keys are pairwise distinct. |
| Validations.ElementIssuesEmpty | app/domain/validations.ts:3-19 | A list raises no element issue exactly when none of its entries does. |
| Validations.ElementIssuesReportAborts | app/domain/validations.ts:3-7 | With no element issue, no entry is missing a field. |
| Validations.SafeParseAcceptsExactly | app/domain/validations.ts:3-35 | A list parses exactly when every entry has a non-empty key and a value, no secure entry has an empty value, and the keys are distinct. The parsed list is the entries with `secure` coerced. |
| Validations.EmptyKeyRejected | app/domain/validations.ts:4 | An empty key is rejected with an issue at that entry's key. |
| Validations.DuplicateReportedAtListLevel | app/domain/validations.ts:21-35 | A duplicate key is reported once, last, with an empty path and the uniqueness message. |
| Validations.ElementIssuePaths | app/domain/validations.ts:3-19 | Every element issue's path is an index followed by a field. |
| Validations.EmptyValueAllowedWhenNotSecure | app/domain/validations.ts:5-14 | A non-secure entry may have an empty value. |
| Validations.SecureEmptyValueRejected | app/domain/validations.ts:8-18 | A secure entry with an empty value is rejected at its value, with the refinement's message. |
| Validations.EntryActionResponse.HttpStatus | app/routes/api.entry.ts:28-66 | success answers 200, partial_error 207 and validation_error 400. |
| ApiEntry.MatchAtIsTheMatch | app/routes/api.entry.ts:8 | At a position the matcher succeeds exactly when `entries[<digits>][<word>]` occurs there with greedy runs. |
| ApiEntry.MatchAtComplete | app/routes/api.entry.ts:8 | Where the pattern occurs, the captures are its digit run and its word run. |
| ApiEntry.MatchOnlyOnPattern | app/routes/api.entry.ts:11 | `name.match` succeeds exactly when the pattern occurs somewhere in the name. |
| ApiEntry.MatchFieldName | app/routes/api.entry.ts:8-13 | A field name the encoders write matches with its own index and field as captures. |
| ApiEntry.KeySuffixIgnored | app/routes/api.entry.ts:8-12 | The display-only field `entries[i][key-suffix]` does not match and is ignored. |
| ApiEntry.GroupConsistent | app/routes/api.entry.ts:10-17 | The grouping lists each record's index exactly once. |
| ApiEntry.NonMatchingFieldIgnored | app/routes/api.entry.ts:11-12 | A field the pattern does not match changes nothing. |
| ApiEntry.LastValueWins | app/routes/api.entry.ts:14-15 | Fields sharing an index land in one record, and a repeated field keeps its last value. |
| ApiEntry.SortByIndexSorted | app/routes/api.entry.ts:18 | The integer-like record keys come out in ascending numeric order. |
| ApiEntry.ValuesOrderAscending | app/routes/api.entry.ts:18 | `Object.values` lists the records of canonical indices by ascending index, ahead of every other key. |
| ApiEntry.ToRaw | app/routes/api.entry.ts:18 | A record's missing key or value stays missing, and a missing `secure` defaults to false. |
| ApiEntry.ParseEntriesFromFormData | app/routes/api.entry.ts:6-19 | The parsing loop's result is the grouping of the fields, in `Object.values` order, with the default applied. |
| ApiEntry.GroupOfEncodeBatch | app/routes/api.entry.ts:10-17 | Grouping an encoded batch gives one record per item, keyed and ordered by its index. |
| ApiEntry.ParseOfEncodeBatch | app/routes/api.entry.ts:6-19 | Parsing the FormData of an encoded batch hands the schema exactly the batch's items, in order. |
| ApiEntry.SubmissionRoundTrip | app/routes/api.entry.ts:23-34 | Encoding a batch, parsing it and validating it succeeds exactly when the batch is acceptable, and then yields the batch itself. |
| ApiEntry.TrimmedSummary | app/routes/api.entry.ts:48-50 | The trimmed message is `Saved n entries.`, `Failed m entries.`, both separated by a space, or empty, by which counts are positive. |
| ApiEntry.BuildMessage | app/routes/api.entry.ts:48-50 | The message built by appending the parts and trimming is that summary. |
| ApiEntry.Classify | app/routes/api.entry.ts:45-66 | Any repository error makes a partial_error, otherwise a success. Both carry the saved ids and the summary message. |
| ApiEntry.MaskForLogging | app/routes/api.entry.ts:35-40 | The logged copy hides exactly the secure values and keeps everything else. |
| ApiEntry.Action | app/routes/api.entry.ts:21-67 | A list the schema rejects, with `secure` coerced as written, answers validation_error (400) and upserts nothing. Otherwise the validated list is upserted. The action answers nothing exactly when `Post` threw; any answer classifies the repository's outcome. |
| ApiEntry.EndpointCoercionsAgree | app/routes/api.entry.ts:18-25 | The parser never hands the schema the boolean true, so on the endpoint the written coercion and the corrected one parse alike. |
| ApiEntry.OtherSuccessStatusIsPartialError | app/adapters/entry-repository.ts:36-38 | A reply that is not ok leaves no outcome. A 2xx reply other than 200 or 201 is reported as a partial_error with nothing saved and one error under `message`. A 200 or 201 reply that is not a list is a success that saved nothing. |
| EntryRepository.DirectoryPrefixesMembers | app/adapters/entry-repository.ts:25 | A prefix is offered exactly when some directory marker of the listing has that id. |
| EntryRepository.DirectoryPrefixesAppend | app/adapters/entry-repository.ts:25 | The prefixes keep listing order. |
| EntryRepository.Retrieve | app/adapters/entry-repository.ts:13-30 | With no prefix, or an empty one, nothing is listed and the environments are offered. Otherwise the listing is returned. Its prefixes are exactly the directory markers' ids, in listing order, when there is a marker, and the prefix itself when there is none. |
| EntryRepository.RetrievePrefixes | app/adapters/entry-repository.ts:24-28 | Under a non-empty prefix the prefix list is never empty. It is the prefix itself without markers and exactly the markers' ids with some. Every offered prefix is the prefix or a marker's id. |
| EntryRepository.PartitionSuccessMembers | app/adapters/entry-repository.ts:41-49 | A key is saved exactly when some result for it has a null error. |
| EntryRepository.PartitionSuccessAppend | app/adapters/entry-repository.ts:41-49 | Saved keys keep reply order. |
| EntryRepository.PartitionErrorsLastWins | app/adapters/entry-repository.ts:41-49 | A key has an error exactly when some result for it carries one, and the last such error is kept. |
| EntryRepository.RejectionMessage | app/adapters/entry-repository.ts:38 | The message is the reply's non-empty `detail`, else the fixed unknown-error text. |
| EntryRepository.UpsertOutcome | app/adapters/entry-repository.ts:32-51 | There is no outcome exactly when the reply is not ok (status outside 200 to 299), because `Post` throws (app/services/rest.ts:39-42). A 2xx status other than 200 or 201 gives nothing saved and one message error. A 200 or 201 reply that is not a list gives nothing at all. |
| EntryRepository.Upsert | app/adapters/entry-repository.ts:32-51 | The call to `Post`, the status check and the loop compute that outcome. |
| PathTree.Segments | app/context/tree-builder.ts:36 | Segments are non-empty and contain no slash. |
| PathTree.LeadingSlashIgnored | app/context/tree-builder.ts:36 | A leading slash does not change the segments. |
| PathTree.TrailingSlashIgnored | app/context/tree-builder.ts:36 | A trailing slash does not change the segments. |
| PathTree.DoubledSlashIgnored | app/context/tree-builder.ts:36 | A doubled slash counts as one. |
| PathTree.AllSlashesHaveNoSegments | app/context/tree-builder.ts:36 | A path of slashes only has no segments. |
| PathTree.Insert | app/context/tree-builder.ts:35-47 | Inserting adds the first segment to the level's keys and nothing else at that level. |
| PathTree.InsertWellFormed | app/context/tree-builder.ts:40-44 | Every node stays keyed by its own name. |
| PathTree.InsertCreatesChain | app/context/tree-builder.ts:39-46 | After an insertion the whole chain of its segments exists. |
| PathTree.InsertKeepsExistingNodes | app/context/tree-builder.ts:40-44 | Insertion never removes or replaces a node. |
| PathTree.InsertIdempotent | app/context/tree-builder.ts:35-47 | Adding a path twice is adding it once. |
| PathTree.InsertAllConcat | app/context/tree-builder.ts:21-25 | Adding two batches of paths is adding their concatenation. |
| PathTree.SortedKeysAscending | app/context/tree-builder.ts:57 | A level's names come out strictly ascending. |
| PathTree.ExportIsSorted | app/context/tree-builder.ts:49-58 | Siblings are listed in ascending order with no name repeated, at every level. |
| PathTree.ExportNamesAreKeys | app/context/tree-builder.ts:51-55 | The exported names at a level are exactly that level's keys. |
| PathTree.TreeBuilder.constructor | app/context/tree-builder.ts:14-19 | The builder starts with the initial paths added to an empty root. |
| PathTree.TreeBuilder.AddSinglePath | app/context/tree-builder.ts:35-47 | The root becomes the insertion of the path's segments. |
| PathTree.TreeBuilder.AddPath | app/context/tree-builder.ts:21-25 | The root becomes the insertion of every path in turn. |
| PathTree.TreeBuilder.GetTree | app/context/tree-builder.ts:27-29 | The tree is the sorted export of the root. |
| PathTree.TreeBuilder.Clear | app/context/tree-builder.ts:31-33 | The root is left empty. |
| PathTree.ConstructThenAddIsAddAll | app/context/tree-builder.ts:14-25 | Constructing with paths and adding more is adding all of them to an empty root. |
| Sidebar.ExpandAncestors | app/components/entry/sidebar.tsx:98-109 | The effect adds to the expanded set exactly the cumulative paths of every segment but the last. |
| Sidebar.CumulativeJoins | app/components/entry/sidebar.tsx:103-105 | The `k`-th cumulative path is the first `k + 1` segments joined with `/`. |
| Sidebar.ExpandedAreAncestors | app/components/entry/sidebar.tsx:98-107 | A current path not starting with `/` expands exactly the joins of its proper leading segments. |
| Sidebar.AncestorIsActive | app/components/entry/sidebar.tsx:29-31 | Every expanded ancestor is a leading part of the current path, so it is shown active. |
| Sidebar.ShortPathExpandsNothing | app/components/entry/sidebar.tsx:99-100 | No current path, or one without a slash, expands nothing. |
| Sidebar.ToggleFlipsOnePath | app/components/entry/sidebar.tsx:111-118 | A toggle flips that one path, keeps every other, and undoes itself. |
| ValueDisplay.Displayed | app/components/entry/value-display.tsx:18-19 | A value of at most `maxLength` UTF-16 code units shows whole. A longer one shows its longest leading run of whole characters within `maxLength` code units, then `...`. |
| ValueDisplay.DisplayedWithoutSurrogates | app/components/entry/value-display.tsx:18-19 | On text without surrogate pairs the length is the character count, and the cut is exactly the first `maxLength` characters then `...`. |
| ValueDisplay.DisplayedBounds | app/components/entry/value-display.tsx:15-19 | An uncut value is at most `maxLength` code units. A cut one shows `maxLength + 2` or `maxLength + 3` code units. |
| ValueDisplay.ControlsFor | app/components/entry/value-display.tsx:18-56 | The full-value dialog is offered exactly when `value.length`, in UTF-16 code units, exceeds `maxLength`; the visibility toggle exactly for a secure value. |
| EditableRow.PendingChangeWins | app/components/entry/editable-row.tsx:53-56 | A pending change supplies all three shown values. Without one the row shows the key, the actual value when there is one, and the flag. |
| EditableRow.DisplayValue | app/components/entry/editable-row.tsx:62-68 | A non-secure or hidden entry shows its listed value. A revealed secure entry shows its non-empty secret, else its current value. |
| EditableRow.EachEditChangesOneField | app/components/entry/editable-row.tsx:110-161 | Each edit control's dispatched change sets its own field and keeps the other two shown values. |
| EditableRow.KeyDown | app/components/entry/editable-row.tsx:88-91 | Enter saves the entry, Escape cancels its edit, any other key does nothing. |
| TraditionalForm.FoldRecordsLastIssue | app/components/entry/traditional-form.tsx:47-57 | An index has errors exactly when some issue with a long enough path names it. A field has one exactly when some issue names it, and the last such issue wins. |
| TraditionalForm.FoldIssues | app/components/entry/traditional-form.tsx:46-57 | The loop builds that fold. |
| TraditionalForm.ListIssuesShaped | app/components/entry/traditional-form.tsx:48-50 | Every issue long enough to be recorded points at an index, then a field. |
| TraditionalForm.Revalidate | app/components/entry/traditional-form.tsx:43-62 | The effect's errors are the fold of the schema's issues, or none when the list parses. |
| TraditionalForm.ClientErrorsEmptyExactly | app/components/entry/traditional-form.tsx:43-62 | The shown errors are empty exactly when no entry raises an issue of its own. A duplicate key alone shows nothing. |
| TraditionalForm.SecureEmptyValueMissedAsWritten | app/components/entry/traditional-form.tsx:44 | As written, a secure entry with an empty value shows no error. |
| TraditionalForm.SecureEmptyValueFlagged | app/components/entry/traditional-form.tsx:44 | With the boolean flag accepted, that entry shows the secure-value error under its value. |
| TraditionalForm.AcceptedListEnablesSubmit | app/components/entry/traditional-form.tsx:185 | A list the schema accepts never disables submission by itself. |
| TraditionalForm.FormKeepsAnEntry | app/components/entry/traditional-form.tsx:108-118 | Removal is offered only with more than one entry, so the form always keeps one. |
| TraditionalForm.HiddenKeyIsEntryId | app/components/entry/traditional-form.tsx:100-106 | The submitted key is the entry id of the current path, with a single slash. |
| TraditionalForm.SubmittedBatch | app/components/entry/traditional-form.tsx:99-155 | One item per form entry, under the current directory. |
| TraditionalForm.FormGroupsAsBatch | app/components/entry/traditional-form.tsx:105-155 | The endpoint groups the form's fields as it groups the encoded batch; the display-only key field is ignored. |
| TraditionalForm.FormReachesSchema | app/components/entry/traditional-form.tsx:105-155 | The endpoint hands its schema each entry with the hidden key, its value and its flag as a string. |
| ImportJsonForm.KeysOfItems | app/components/entry/import-json-form.tsx:84 | The keys of a conforming array, in order. |
| ImportJsonForm.FirstRepeatIsSmallest | app/components/entry/import-json-form.tsx:81-90 | No repeat is found exactly when the keys are distinct. A repeat found is at the smallest position whose key occurred before. |
| ImportJsonForm.ValidateUniqueKeys | app/components/entry/import-json-form.tsx:81-90 | The scan reports the first repeated key with its index, and reports nothing exactly when the keys are distinct. |
| ImportJsonForm.ValidateJson | app/components/entry/import-json-form.tsx:92-115 | The error is a syntax error first, then the first schema error, then the first duplicate key. There is none exactly when the text parses, conforms and has distinct keys. |
| ImportJsonForm.ImportBatch | app/components/entry/import-json-form.tsx:133-140 | One item per element, from its key, value and flag. |
| ImportJsonForm.HandleSubmit | app/components/entry/import-json-form.tsx:123-150 | Something is sent exactly when submission is not blocked and the code parses to an array with no null element. What is sent encodes the import batch. |
| ImportJsonForm.SchemaItemsSubmittedAsGiven | app/components/entry/import-json-form.tsx:133-139 | A conforming item is submitted with its key and value as written, and `secure` true only for the boolean true. |
| ImportJsonForm.ImportReachesSchemaAsGiven | app/components/entry/import-json-form.tsx:133-136 | The endpoint hands its schema the keys exactly as written in the JSON; nothing prepends the current path. |
| EntryRoute.DisplayedMembers | app/routes/entry.tsx:77 | An entry is listed exactly when it is in the listing and is not a directory marker. |
| EntryRoute.DisplayedAppend | app/routes/entry.tsx:77 | Filtering keeps the listing order. |
| EntryRoute.SecureCount | app/routes/entry.tsx:78 | The secure count is at most the listed count. It is zero exactly when no listed entry is secure, and equals the listed count exactly when all are. |
| EntryRoute.CountsOfPage | app/routes/entry.tsx:77-80 | Directory markers count in neither count. After a submitting save-all the editable and changes counts are zero. |
| EntryRoute.Export | app/routes/entry.tsx:94-96 | One item per listed entry, in order, with key `path + "/" + key` and the value and flag copied. |
| EntryRoute.ExportImportRoundTrip | app/routes/entry.tsx:91-97 | A downloaded file passes the import schema, and importing it submits exactly the exported items. |
| EntryRoute.DownloadNameOfDirectory | app/routes/entry.tsx:101 | For a prefix `a/b/c/` the file is `entries-a-b-c.json`. |
| EntryRoute.DownloadNameWithoutDirectory | app/routes/entry.tsx:101 | A prefix without a slash gives `entries-.json`, and no prefix gives `entries-undefined.json`. |
| EntryRoute.HandleResponse | app/routes/entry.tsx:153-183 | success and partial_error remove every saved id from the given cache and nothing else. validation_error leaves it unchanged. |
| EntryRoute.InvalidationRemovesOnlySaved | app/routes/entry.tsx:157-180 | Invalidated ids are no longer cached, and every other cached id keeps its value. |
| EntryRoute.StaleRevealAfterSave | app/routes/entry.tsx:56 | With the page's own cache invalidated, a reveal after saving a new secret shows the old secret, without a fetch. |
| EntryRoute.FreshRevealAfterSave | app/routes/entry.tsx:153-183 | With the hook's cache invalidated, the reveal fetches and shows the new secret. |
| Login.FieldText | app/routes/login.tsx:52-53 | A missing field reads as the empty string, and a present one as itself. |
| Login.Validate | app/routes/login.tsx:29-41 | There are no errors exactly when both fields are non-empty. Each field has its own message exactly when it is empty. |
| Login.LoginToken | app/routes/login.tsx:12-27 | A non-ok reply gives the empty token, an ok one its token. |
| Login.Action | app/routes/login.tsx:50-70 | The login is attempted exactly when both fields are non-empty; otherwise the answer is 400 with the field errors. An empty token answers 400 with "Invalid credentials", any other token redirects to `/` with it. |
| TemplateIndex.FilterMembers | app/routes/template/index.tsx:48-52 | A box is kept exactly when it is an input box whose service name, or some stage name, contains the term after case folding. |
| TemplateIndex.EmptyTermKeepsAll | app/routes/template/index.tsx:48-51 | With a fold that keeps "" empty, the empty term keeps every box in order. |
| TemplateIndex.InsertKeepsSorted | app/routes/template/index.tsx:54 | Inserting a box into a list ordered by service name keeps it ordered. |
| TemplateIndex.SortSorts | app/routes/template/index.tsx:54 | The sort orders the boxes by service name. |
| TemplateIndex.SortByService | app/routes/template/index.tsx:54 | The sort is a permutation of its input. |
| TemplateIndex.FilteredAndSortedSpec | app/routes/template/index.tsx:47-55 | The shown list is ordered by service name and is a permutation of the kept boxes. It holds a box exactly when an input box matches. |
| TemplateIndex.EmptyTermShowsAll | app/routes/template/index.tsx:47-55 | With the empty term the shown list is a reordering of all boxes. |

## Left out

- Network calls (the secret endpoint, the entry and environment listings, the upsert POST, the token request): the answer each would have received is a parameter.
- React scheduling: effects, callbacks and their dependency lists are modelled as sequential steps; stale closures and interleaved dispatches are not modelled.
- Rendering, toasts, clipboard copy, focus handling, the Monaco editor, the format button of the import form (`formatJson`), and the cookie written on login.
- `JSON.parse` and the schema validator's own error list: what they produced is a parameter. The schema's acceptance rule is modelled.
- `toLowerCase` and `localeCompare`: case folding is an abstract function, and name comparison an abstract total order (tree builder) or total preorder (template list).
- FormData values that are files; a form field read by the login action is a string or absent.
- Zod internals beyond the issues these schemas raise; issue messages are modelled only where a caller reads them.
- The loading message `Saving changes...`, which the hook declares but never dispatches.
- The sidebar's search box (its filter is commented out in the source), the loading paths, and the recursive rendering of child nodes.
- `UseEntryForm.UpdateEntry`: an index outside the list is not modelled (every caller passes an index of a rendered entry).
- `PathTree.TreeBuilder`: the nested maps the source mutates in place are modelled as a value (a map of nodes holding maps), so aliasing between levels is not captured.
- `TemplateIndex.SortByService`: the stability of `Array.prototype.sort` is not stated; only order by service name and permutation are.
- `ValueDisplay.Displayed`: when the cut at `maxLength` code units falls inside a surrogate pair, the source keeps the lone high surrogate; a string here holds whole characters, so the model cuts before that character.
- `EntryRepository.Upsert`: the `ApiError` that `Post` throws on a reply that is not ok is modelled as no outcome; its problem-detail body is not carried.
- `ApiEntry.Action`: when the upsert throws, the framework's error response is not modelled; the model states only that the action builds no `EntryActionResponse`.
- `Login.Action`: a token taken from an ok reply is a string; a reply body without a `token` member is not modelled.
- `ImportJsonForm.JsString`: an object member renders as `[object Object]`; objects with their own `toString` do not occur in parsed JSON.

## Findings

| source | as written | input that shows it | evidently intended | confidence | as-written member | corrected member |
|---|---|---|---|---|---|---|
| app/components/entry/traditional-form.tsx:44 | The form validates its entries with `secure` as a boolean, but the schema's preprocess accepts only the strings "true" and "on", so every entry counts as not secure on the client. | `[{key: "a", value: "", secure: true}]` shows no error and submission stays enabled; the server then rejects it. | The secure-value rule applies on the client too: the entry shows "Value cannot be empty when 'secure' is checked." under its value. | not executed | TraditionalForm.SecureEmptyValueMissedAsWritten | TraditionalForm.SecureEmptyValueFlagged |
| app/routes/entry.tsx:56 | The page calls the secret-cache hook itself and invalidates saved ids in that instance, while the editing hook reads secrets through its own instance (app/hooks/use-entry.ts:117). | Reveal a secure entry, change its value, save it, reveal it again: the old secret is shown and nothing is fetched. | The invalidation reaches the cache the reveal reads, so the reveal after a save fetches the new secret. | not executed | EntryRoute.StaleRevealAfterSave | EntryRoute.FreshRevealAfterSave |
