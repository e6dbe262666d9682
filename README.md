# Texas representatives: data scripts and lookup functions

This project models the deterministic core of a small Firebase back end. The back end
helps constituents write to Texas legislators. The model covers five pieces of the repository:

- **District reconciliation** (`update_firebase_with_district_data.js`):
  - the district-keyed source file becomes zip-keyed lists of representatives, House entries first and Senate entries after them;
  - the lists are merged into the stored documents with the fill-only merge `mergeRepresentatives`;
  - the change test `hasChanges` decides whether a zip is updated;
  - each zip is created, updated or skipped, the outcomes are counted, and the writes are committed in batches of 500.
- **Zip lookups** (`functions/getRepsByZipCode.js`): the single-zip and multi-zip callables, with their argument checks, their error order, the `not_found` result, field defaults and the keying of the results map.
- **Email prompt** (`functions/index.js`): the argument checks of `generateEmail`, `formatRegulations`, the recipient and sender fallbacks of the prompt, and the shaping of the completion's reply.
- **Texas upload** (`upload_texas_reps_to_firestore.js`): the per-zip `set` loop with its 500-write flush rule.
- **Contact-list upload** (`upload_contact_lists_to_firestore.js`): list id derivation, the per-list document, and the metadata document.

JavaScript values are modelled in `JsValues`. This covers `undefined`, `null`, booleans, integers, strings, arrays and objects, with truthiness, `||`, `String()` coercion and `Array.prototype.join`. Reading a property of `null`/`undefined` gives `None`, because it throws. The callables take `request.data` as such a value, so a call without data (`null`) throws before any argument check, as destructuring it does.

Firestore documents are maps from field names to plain values, stored timestamps, or the server-timestamp sentinel. A collection is a `map` from document id to document. A batch is a sequence of pending writes. Committing a batch applies its writes in order.

The lookups read documents as the server returns them. By then the server has replaced every written server-timestamp sentinel with a stored timestamp, so the sentinel never appears in the store they read. `ZipLookup.LastUpdatedOf` therefore treats a sentinel like any other truthy non-timestamp value.

`DocPaths` models how `collection.doc(id)` resolves an id. The id must be non-empty and free of "//". Its "/"-separated segments, empty ones dropped, must name a document, so an id with one "/" names a collection and throws. A leading or trailing "/" is dropped. Each script meets a refused id in its own way:

- The Texas and contact-list uploads exit with code 1.
- The merge loop logs the error and goes on with the next zip. That zip is counted in `totalProcessed` and in none of the three outcome counters.
- Both lookups reach `doc()` with any value whose `String()` is five digits, since the format test coerces its argument. `doc()` accepts a five-digit string and throws on any other value, such as the number 12345 or an array holding one five-digit string. That throw happens inside the try block and becomes the internal error "Failed to fetch representatives data" (functions/getRepsByZipCode.js:19, 26, 50, 74, 85, 115).

The loops of the scripts are methods with `while` loops. Each method is proved against a function of its inputs:

- `MergeRepresentatives` against `Merge`;
- `UpdateFirebaseWithMerge` against `WritesFor`, `Tally` and `Chunks`;
- `UploadContactLists` against `SetAll` and `FirstFailing`;
- the Texas uploads against `WritesOf`, `FirstRejected` and `Chunks`.

The properties the source promises are then proved about those functions. The scripts keep their state in local variables, so no classes are needed. The three batching loops share the generic `Batching.ApplyAll`, `Flush` and `FinalCommit`, which take the function that applies one write.

`filename.replace('.json', '')` removes the first ".json" only. `ContactLists.RemoveFirst` models it, and `RemoveFirstAtIndexOf` ties it to `indexOf`.

The Texas upload script reuses its batch after committing it. The Firestore client refuses writes to a committed batch, so the script stops at the 501st zip. Both the script as written and the evidently intended script are modelled (see Findings).

## Model

| member | source | states |
|---|---|---|
| JsValues.Truthy | functions/getRepsByZipCode.js:13 | `undefined` and `null` are falsy; every array and object, even an empty one, is truthy |
| JsValues.Or | update_firebase_with_district_data.js:36 | a logical or of two values is one of them; it is truthy exactly when either operand is, and it is `a` whenever `a` is truthy |
| JsValues.Member | functions/index.js:14 | reading a property throws exactly on `undefined` and `null`, and never on a truthy value |
| JsValues.ToStr | functions/getRepsByZipCode.js:19 | `String()` keeps a string as it is; a number renders as at least one character, starting with "-" exactly when it is negative |
| JsValues.ArrayJoin | functions/index.js:57 | joining no elements gives ""; joining one string gives that string |
| DocPaths.LastWith | upload_contact_lists_to_firestore.js:28-47 | the last position holding a key, after which the key never recurs, or none exactly when the key is absent |
| DocPaths.DocKeyResolves | upload_texas_reps_to_firestore.js:38 | `doc(p)` names a document exactly when `p` is non-empty, holds no "//", and its trimmed path is non-empty with an even number of "/"; the document is that trimmed path |
| DocPaths.PlainIdKey | upload_texas_reps_to_firestore.js:38 | `doc()` accepts a non-empty id without "/" and refers to exactly that id |
| DocPaths.OneSlashRejected | upload_texas_reps_to_firestore.js:38 | an id of two plain segments joined by one "/" names a collection, so `doc()` throws |
| DocPaths.TrailingSlashDropped | update_firebase_with_district_data.js:112 | a trailing "/" is dropped: `a/` refers to the document `a` |
| DocPaths.DegeneratePathsRejected | upload_contact_lists_to_firestore.js:40 | `doc()` throws on "", on "/" and on any id containing "//" |
| DistrictData.Entry | update_firebase_with_district_data.js:44-51 | the pushed entry carries the office label and the district key and no other fields; each of name, party, email and phone is copied from the source representative when that field is a non-empty string, and is "" exactly when it is missing or empty |
| DistrictData.AddDistricts | update_firebase_with_district_data.js:33-54 | the loop over one office's districts succeeds exactly when no district that lists zips lacks its representative; it then returns the zip map with every listed zip given that district's entry once per listing, the number of districts and the total length of their zip lists; otherwise the error names the first such district |
| DistrictData.TransformDistrictDataToZipBased | update_firebase_with_district_data.js:26-82 | the transform succeeds exactly when neither office has a district that lists zips without a representative; the zip map is the House districts' entries followed by the Senate districts' ones, `totalDistricts` counts every district (even those without zips) and `totalZipMappings` is the sum of the zip-list lengths |
| DistrictData.EntriesFromListingDistricts | update_firebase_with_district_data.js:38-51 | every entry a zip receives carries the office label and comes from a district that lists the zip, with `district` equal to the district key and missing name, party, email or phone as "" |
| DistrictData.EntriesCount | update_firebase_with_district_data.js:38-53 | a zip receives exactly one entry per occurrence of it in the districts' zip lists |
| DistrictData.EntriesForUnlisted | update_firebase_with_district_data.js:38-41 | a zip that no district lists receives no entry |
| DistrictData.HouseBeforeSenate | update_firebase_with_district_data.js:30-82 | in every zip's list, once a Senate entry appears every later entry is a Senate entry |
| DistrictData.TransformKeys | update_firebase_with_district_data.js:38-41 | the zip map's keys are exactly the zips some House or Senate district lists |
| RepMerge.FindIndex | update_firebase_with_district_data.js:195-197 | the first position with the given (type, district) key, and -1 exactly when there is none |
| RepMerge.Fill | update_firebase_with_district_data.js:202-215 | a filled entry keeps the existing key and extra properties, and each truthy name, party, email or phone of the existing entry |
| RepMerge.LastMatch | update_firebase_with_district_data.js:193-215 | the last incoming entry whose key is first found at a given existing position, none of the later ones matching it; none exactly when no incoming entry matches it |
| RepMerge.Unmatched | update_firebase_with_district_data.js:216-219 | the appended entries, no more than the incoming ones, are incoming entries whose key the original existing list lacks, and every such incoming entry is among them |
| RepMerge.MergedAt | update_firebase_with_district_data.js:193-215 | a merged existing position keeps its key and extra properties, and is unchanged when no incoming entry matches it |
| RepMerge.Filled | update_firebase_with_district_data.js:191-215 | the filled part of the merge has one entry per existing entry |
| RepMerge.Merge | update_firebase_with_district_data.js:190-223 | the merged list is at least as long as the existing list and at most as long as both lists together |
| RepMerge.MergeRepresentatives | update_firebase_with_district_data.js:190-223 | the copy-then-loop merge returns `Merge`: each existing position filled from the last incoming entry with its key, followed by the unmatched incoming entries in incoming order |
| RepMerge.MergeStep | update_firebase_with_district_data.js:193-219 | one iteration: a matched entry overwrites its position, which lies inside the list so far, and an unmatched one is pushed |
| RepMerge.MergeSnoc | update_firebase_with_district_data.js:193-219 | one more incoming entry either re-fills its matched position from the ORIGINAL existing entry or is appended |
| RepMerge.MergeParts | update_firebase_with_district_data.js:191-219 | the merged list has the existing positions, keeping their keys, followed by exactly the unmatched incoming entries |
| RepMerge.MergeNothing | update_firebase_with_district_data.js:191 | merging no incoming entries returns the existing list unchanged |
| RepMerge.MergeFillOnly | update_firebase_with_district_data.js:199-215 | a merged existing position keeps its key and every non-core property, and a truthy name, party, email or phone is never overwritten |
| RepMerge.MergeTakesLastIncoming | update_firebase_with_district_data.js:193-215 | when several incoming entries match one position, each falsy core field takes the value of the last of them |
| RepMerge.UnmatchedDuplicatesKept | update_firebase_with_district_data.js:195-219 | two unmatched incoming entries with the same key are both appended, since matching consults only the original existing list |
| RepMerge.FillOnlyExample | update_firebase_with_district_data.js:199-215 | a concrete fill: an empty name is filled from the incoming entry, a truthy party is kept, absent email and phone stay absent, extra properties survive, and nothing is appended |
| RepMerge.FillTwice | update_firebase_with_district_data.js:202-215 | filling an entry twice from the same incoming entry changes no core field the second time |
| RepMerge.AnyEntryChanged | update_firebase_with_district_data.js:232-247 | the loop of `hasChanges` from a start index is true exactly when some later original entry has no merged entry with its key, or its first such entry differs in a core field |
| RepMerge.HasChanges | update_firebase_with_district_data.js:225-250 | true exactly when the lengths differ or some original entry's key is missing from the merged list or its first match differs in name, party, email or phone; order and other properties are ignored |
| RepMerge.UnmatchedUnique | update_firebase_with_district_data.js:216-219 | incoming entries with unique keys give appended entries with unique keys |
| RepMerge.MergeCoversIncoming | update_firebase_with_district_data.js:190-223 | after a merge every incoming key is present: merging the same input again appends nothing |
| RepMerge.MergeKeepsFind | update_firebase_with_district_data.js:195-197 | a key is first found at an existing position of the merged list exactly when it is first found there in the existing list |
| RepMerge.MergeUnique | update_firebase_with_district_data.js:190-223 | merging lists with unique keys gives a list with unique keys |
| RepMerge.MergeIdempotent | update_firebase_with_district_data.js:190-250 | with unique keys on both sides, `hasChanges(M, merge(M, N))` is false for `M = merge(E, N)` |
| MergeUpload.NewDoc | update_firebase_with_district_data.js:139-144 | a created document holds the incoming list and exactly the fields `lastUpdated` (the server timestamp) and `createdBy` |
| MergeUpload.UpdatedDoc | update_firebase_with_district_data.js:125-129 | an updated document holds the merged list, gains `lastUpdated` (the server timestamp) and `updatedBy`, and keeps every other field as stored |
| MergeUpload.ZipOutcome | update_firebase_with_district_data.js:109-150 | a zip is refused exactly when `doc()` throws on it, and created exactly when `doc()` accepts it and no document exists |
| MergeUpload.WriteFor | update_firebase_with_district_data.js:115-150 | at most one write, aimed at the zip's document, and none exactly when the zip is skipped |
| MergeUpload.PlanZip | update_firebase_with_district_data.js:115-150 | an absent document is created; a present one is updated with the merged list when `hasChanges` holds and skipped otherwise; only creates and updates issue a write |
| MergeUpload.Summary | update_firebase_with_district_data.js:172-181 | the metadata has exactly the seven fields of the source, with `totalProcessed` as given and the server timestamp as `lastUpdateDate` |
| MergeUpload.AfterRun | update_firebase_with_district_data.js:115-150 | an absent document ends as the created one; a present one keeps all its fields, and when it changes it holds the merged list |
| MergeUpload.ReadSeesStart | update_firebase_with_district_data.js:112-113 | when no two keys resolve to one document, the document read for a zip is the one the run started with, whatever was committed before |
| MergeUpload.Processed | update_firebase_with_district_data.js:109-164 | one zip adds its outcome to the counters and its write to the open batch, and a batch that reaches 500 writes is committed and replaced by an empty one |
| MergeUpload.ProcessZip | update_firebase_with_district_data.js:109-164 | one iteration keeps the loop's invariant: the committed batches are full, and together with the open batch they are the writes planned so far; the store holds what was committed, and the counters tally the outcomes so far |
| MergeUpload.UpdateFirebaseWithMerge | update_firebase_with_district_data.js:96-181 | the commits are the 500-write chunks of the planned writes; the store is their replay; the three counters tally creates, updates and skips; the metadata records them with `totalProcessed` equal to `Object.keys(zipBasedData).length`; with the refused keys the counters add up to that total |
| JsValues.KeyCount | update_firebase_with_district_data.js:178 | a key list without repeats that walks exactly the keys of a map is as long as `Object.keys` of that map |
| MergeUpload.TallyTotals | update_firebase_with_district_data.js:109-150 | every zip is counted exactly once as created, updated, skipped or refused, and the number of writes is the number of creates plus updates |
| MergeUpload.CommitCount | update_firebase_with_district_data.js:152-170 | a run issues ceil(W / 500) commits for W creates and updates |
| MergeUpload.RefusedZipIgnored | update_firebase_with_district_data.js:110-163 | a zip whose id `doc()` refuses adds no write and changes no created, updated or skipped count |
| MergeUpload.PlainKeysResolve | update_firebase_with_district_data.js:112 | distinct non-empty keys without "/" each name their own document, so no two resolve to the same one |
| MergeUpload.ApplyWriteFor | update_firebase_with_district_data.js:125-144 | the write issued for a zip turns its document into the created or updated document, or leaves it as read |
| MergeUpload.FinalDocs | update_firebase_with_district_data.js:109-170 | after a run every processed zip that `doc()` accepts holds the document its outcome calls for |
| MergeUpload.FinalDocsElsewhere | update_firebase_with_district_data.js:109-164 | a run leaves every document no key resolves to unchanged |
| MergeUpload.MergeIntoEmpty | update_firebase_with_district_data.js:190-223 | merging into an empty list returns the incoming list |
| MergeUpload.RunSettles | update_firebase_with_district_data.js:118-137 | with unique keys, the document a zip ends with is skipped when the same incoming list is applied again |
| MergeUpload.RerunWritesNothing | update_firebase_with_district_data.js:109-150 | with unique keys in every list, re-running with the same data on the resulting store issues no write |
| Batching.ChunksFlatten | update_firebase_with_district_data.js:152-170 | batching loses, duplicates and reorders no write |
| Batching.ChunksSizes | update_firebase_with_district_data.js:152-170 | every commit holds between 1 and 500 writes, and all but the last hold exactly 500 |
| Batching.ChunksCount | update_firebase_with_district_data.js:152-170 | W writes give ceil(W / 500) commits |
| Batching.FullCommitsAreChunks | update_firebase_with_district_data.js:152-170 | full commits of 500, then a final commit of a non-empty remainder of at most 500, are exactly the chunks of their writes |
| Batching.ApplyAllAppend | update_firebase_with_district_data.js:152-170 | committing two runs of writes one after the other is committing their concatenation |
| Batching.Flush | update_firebase_with_district_data.js:152-159 | committing a batch of 500 keeps every commit full and appends the batch to the committed writes and to the store's replay |
| Batching.FinalCommit | update_firebase_with_district_data.js:166-170 | the remaining writes are committed only when there are some, and the run's commits are then the 500-write chunks of all its writes |
| Batching.TwelveHundredWrites | update_firebase_with_district_data.js:152-170 | 1200 writes are committed as 500, 500 and 200 |
| ZipLookup.MatchesZip | functions/getRepsByZipCode.js:18-19 | a string passes the five-digit test exactly when it is five digits; `undefined`, `null` and objects never pass |
| ZipLookup.NotFoundResult | functions/getRepsByZipCode.js:29-35 | a missing document gives status `not_found` and an empty representatives list, without `zipCode` or `count` |
| ZipLookup.LastUpdatedOf | functions/getRepsByZipCode.js:46 | rendering `lastUpdated` throws exactly when it is truthy and not a timestamp; otherwise it gives the stored timestamp or `null` |
| ZipLookup.Shaped | functions/getRepsByZipCode.js:37-47 | a stored document gives exactly the five result fields, each truthy stored field as stored and each falsy one as its default ("success", `[]`, `0`, `null`); a truthy `lastUpdated` that is not a timestamp throws and becomes an internal error |
| ZipLookup.Fetch | functions/getRepsByZipCode.js:23-51 | every failure is the internal "Failed to fetch representatives data"; success needs a string zip whose read succeeds; a readable absent zip gives the `not_found` result |
| ZipLookup.GetRepresentativesByZipCode | functions/getRepsByZipCode.js:9-52 | missing `request.data` throws first; a falsy zip fails with "Zip code is required" before the five-digit check, which fails with its own message; a stored document gives its shaped fields plus `zipCode`, an absent one the `not_found` result |
| ZipLookup.FetchAll | functions/getRepsByZipCode.js:84-106 | the only failure of the fan-out is the internal error |
| ZipLookup.FetchAllOk | functions/getRepsByZipCode.js:84-116 | the fan-out succeeds exactly when every single read does |
| ZipLookup.FetchAllMap | functions/getRepsByZipCode.js:84-104 | a successful fan-out has a key for every queried zip and no other, each holding that zip's own result |
| ZipLookup.FindInvalidZip | functions/getRepsByZipCode.js:72-77 | the validation loop returns the first entry that fails the five-digit check, or reports that all pass |
| ZipLookup.FetchEach | functions/getRepsByZipCode.js:79-106 | the read loop fills the results map by zip, or stops at the first failed read, as `FetchAll` says |
| ZipLookup.GetRepresentativesForMultipleZips | functions/getRepsByZipCode.js:55-117 | missing `request.data` throws first; then the errors come in this order: not an array, empty, more than 10, then the first malformed entry named in the message; then the fan-out's result with `queriedCount` equal to the array length |
| ZipLookup.FetchAllFails | functions/getRepsByZipCode.js:84-116 | one failed read fails the whole call with the internal error, and no partial results map is returned |
| ZipLookup.NumberMatchesZip | functions/getRepsByZipCode.js:18-19 | a number passes the five-digit test exactly when it lies in 10000..99999 |
| ZipLookup.BooleanIsNoZip | functions/getRepsByZipCode.js:18-21 | `true` and `false` never pass the five-digit test |
| ZipLookup.SingletonArrayMatches | functions/getRepsByZipCode.js:18-21 | `["12345"]` and `12345` pass the five-digit test after `String()` coercion, and `1234` does not |
| ZipLookup.NonStringZipIsInternal | functions/getRepsByZipCode.js:18-27 | a non-string that passes the five-digit test reaches `doc()` and fails as an internal error |
| ZipLookup.LookupNotFound | functions/getRepsByZipCode.js:29-35 | a well-formed zip without a document returns the `not_found` result |
| ZipLookup.LookupRejectsMalformed | functions/getRepsByZipCode.js:13-21 | every string that is not five digits is rejected as an invalid argument |
| ZipLookup.LookupDefaults | functions/getRepsByZipCode.js:37-47 | an empty document gives `status` "success", its `zipCode`, `[]`, `0`, `null` and `null` |
| ZipLookup.LookupKeepsStoredFields | functions/getRepsByZipCode.js:40-47 | truthy stored fields are returned as stored |
| ZipLookup.ResultsPerDistinctZip | functions/getRepsByZipCode.js:81-112 | the results map has one key per distinct zip, so at most `queriedCount` keys, and exactly that many when the zips are distinct |
| EmailPrompt.UpperAscii | functions/index.js:32 | upper-casing keeps the length and maps each letter a-z to A-Z |
| EmailPrompt.RegulationLine | functions/index.js:35 | an entry's line throws exactly on a `null` or `undefined` entry; otherwise it is a line break, "  - ", the entry's `regulation` as `String()` renders it, then " (Caveat: ", its `caveat` when that is truthy and "None" otherwise, and ")" |
| EmailPrompt.FormatRegulations | functions/index.js:30-38 | a falsy or empty list gives the upper-cased header and "None specified"; a non-empty array gives the header followed by its entries' lines, and fails when an entry is `null` or `undefined` |
| EmailPrompt.RecipientOf | functions/index.js:45-47 | the recipient lines throw exactly when the representative is `null` or `undefined` |
| EmailPrompt.StyleOf | functions/index.js:56-57 | the style lines are built exactly when the profile has a `communicationTone` whose `personalityElements` is an array, as `join` demands |
| EmailPrompt.SenderOf | functions/index.js:50-63 | a `null` or `undefined` profile throws; a built sender carries the style of its drafting profile and renders the hemp flag as "Yes" or "No" |
| EmailPrompt.BuildPrompt | functions/index.js:41-72 | the prompt is built exactly when both its recipient and its sender parts are, and it holds those parts |
| EmailPrompt.LabelsUpperCased | functions/index.js:32-37 | the two headers read "SUPPORTS" and "OPPOSES" |
| EmailPrompt.MapJoinAppend | functions/index.js:34-36 | mapping and joining a concatenation joins the results of the two parts |
| EmailPrompt.RegulationLinesAppend | functions/index.js:34-36 | the entries' lines appear in input order |
| EmailPrompt.OneLinePerRegulation | functions/index.js:34-36 | when no regulation or caveat text contains a line break, the list holds exactly one line break per entry |
| EmailPrompt.EntryBreaks | functions/index.js:35 | an entry's line holds one line break of its own plus those of its texts |
| EmailPrompt.RecipientFallbacks | functions/index.js:45-47 | the name falls back from `representative_name` to `name` to "Unknown"; party and district fall back to "Unknown" |
| EmailPrompt.SenderFields | functions/index.js:52-53 | the hemp flag renders as Yes/No and the occupation falls back to "Not specified" |
| EmailPrompt.StyleJoinsElements | functions/index.js:56-57 | the personality elements are joined with ", " |
| EmailPrompt.GenerateEmail | functions/index.js:12-92 | `null` or `undefined` data throws before the checks; a falsy representative is rejected before the user profile is checked; with both present, a prompt that cannot be built throws uncaught, and a failed call or an unparseable reply throws an internal error; success needs a built prompt and a parsed reply that is not null or undefined; every internal error carries "Failed to generate email." |
| EmailPrompt.ReplyShaping | functions/index.js:83-91 | a reply parsing to any value other than `null` gives exactly that value's `subject` and `body`, which for an object are its own properties; one parsing to `null` is an internal error |
| TexasUpload.ZipDoc | upload_texas_reps_to_firestore.js:41-44 | the written document has the source entry's fields plus `lastUpdated`, which is the server timestamp |
| TexasUpload.ZipDocFields | upload_texas_reps_to_firestore.js:41-44 | the written document keeps every source field and has `lastUpdated` as the server timestamp, overriding one in the source |
| TexasUpload.Metadata | upload_texas_reps_to_firestore.js:66-71 | the metadata document has exactly the fields `lastUploadDate` (the server timestamp), `totalZipCodes`, `uploadedBy` ("admin_script") and `sourceFile` ("texas_representatives.json") |
| TexasUpload.FirstRejected | upload_texas_reps_to_firestore.js:37-38 | the position of the first key `doc()` refuses, every earlier key being accepted, or the number of keys when all are |
| TexasUpload.WritesOf | upload_texas_reps_to_firestore.js:37-47 | one `set` per key, in order, aimed at the document the key resolves to |
| TexasUpload.SetOnSharedBatch | upload_texas_reps_to_firestore.js:37-56 | staging a zip on the not-yet-committed shared batch commits it exactly when 500 writes are staged, after which the counter is 0 and the batch stays committed |
| TexasUpload.UploadTexasRepsData | upload_texas_reps_to_firestore.js:16-80 | as written: up to 500 accepted zips are all stored in one commit and the metadata records `Object.keys(data).length`; past 500 only the first 500 are stored, no metadata is written and the exit code is 1; a refused id among the first 500 stores nothing and exits with code 1 |
| TexasUpload.ChunksOfOneBatch | upload_texas_reps_to_firestore.js:59-63 | up to 500 writes make one commit, or none when there are no writes |
| TexasUpload.Staged | upload_texas_reps_to_firestore.js:41-56 | one more zip is added to the open batch, and a batch that reaches 500 writes is committed and replaced by an empty one |
| TexasUpload.SetZip | upload_texas_reps_to_firestore.js:37-56 | one iteration of the corrected loop keeps its invariant: the commits are full, the counter is the open batch's size and below 500, and the store holds what was committed |
| TexasUpload.Abandoned | upload_texas_reps_to_firestore.js:37-38 | when the corrected loop stops at a refused key, the store holds exactly the full batches committed before it |
| TexasUpload.UploadTexasRepsDataCorrected | upload_texas_reps_to_firestore.js:16-80 | with a fresh batch after each commit, every accepted key's document is stored, the commits are the 500-write chunks, `processedCount` equals the number of keys and the metadata records `Object.keys(data).length`; a refused id ends the run with code 1 after the full batches before it |
| TexasUpload.UploadedDocs | upload_texas_reps_to_firestore.js:37-47 | after the writes every document a key resolves to holds the source data of the last such key with the timestamp, and every other document is unchanged |
| TexasUpload.PlainZipsUploaded | upload_texas_reps_to_firestore.js:37-47 | plain zip keys are stored under themselves, each with its own data, and every other document is unchanged |
| TexasUpload.CorrectedCommitCount | upload_texas_reps_to_firestore.js:46-63 | n zips give ceil(n / 500) commits of 1 to 500 writes that together are the writes in order |
| TexasUpload.FiveHundredOneZips | upload_texas_reps_to_firestore.js:26-56 | with 501 new zips the script as written never stores the 501st, which the corrected script stores in a second commit |
| ContactLists.IndexFrom | upload_contact_lists_to_firestore.js:30 | the first position at or after the start where the pattern occurs, or none when it does not occur there |
| ContactLists.RemoveFirstAtIndexOf | upload_contact_lists_to_firestore.js:30 | `replace` with a string pattern leaves the name alone when the pattern does not occur, and otherwise cuts out its first occurrence |
| ContactLists.ListId | upload_contact_lists_to_firestore.js:30 | the list id is the file name, or the file name shortened by the five characters of ".json" |
| ContactLists.ListDoc | upload_contact_lists_to_firestore.js:40-44 | a list document has exactly the fields `reps`, `lastUpdated` and `repCount`, the last equal to the number of representatives |
| ContactLists.SetAll | upload_contact_lists_to_firestore.js:28-47 | writing the lists removes no document of the collection |
| ContactLists.FirstFailing | upload_contact_lists_to_firestore.js:28-47 | the first manifest entry whose file cannot be read or whose id `doc()` refuses, every earlier entry being accepted; none exactly when all are accepted |
| ContactLists.UploadableNotFailing | upload_contact_lists_to_firestore.js:28-47 | a manifest whose entries are all accepted has no failing entry |
| ContactLists.KeysOfAt | upload_contact_lists_to_firestore.js:40 | each entry is written to the document its own id names |
| ContactLists.ListIdWithoutExtension | upload_contact_lists_to_firestore.js:29-30 | a file name without ".json" is its own id |
| ContactLists.ListIdStripsSuffix | upload_contact_lists_to_firestore.js:29-30 | a name ending in its only ".json" loses exactly that suffix |
| ContactLists.DoubleExtension | upload_contact_lists_to_firestore.js:30 | only the first occurrence is removed: "a.json.json" becomes "a.json" |
| ContactLists.PlainListKey | upload_contact_lists_to_firestore.js:30-40 | `base.json` with a plain base is stored under `base` |
| ContactLists.BareExtensionRejected | upload_contact_lists_to_firestore.js:30-40 | the file name ".json" gives the empty id, which `doc()` refuses |
| ContactLists.FolderNameRejected | upload_contact_lists_to_firestore.js:30-40 | `dir/base.json` gives an id with one "/", which names a collection, so `doc()` refuses it |
| ContactLists.UploadContactLists | upload_contact_lists_to_firestore.js:16-74 | the manifest entries are written in order until the first entry whose file is unreadable or whose id `doc()` refuses, which ends the run with exit code 1 and no metadata; otherwise all are written, the metadata follows and the exit code is 0 |
| ContactLists.LaterEntryWins | upload_contact_lists_to_firestore.js:28-47 | two names mapping to one id overwrite each other and the later entry wins; ids no entry maps to keep their document |
| ContactLists.RepCountMatches | upload_contact_lists_to_firestore.js:40-44 | each list document holds `reps` verbatim, the server timestamp and `repCount` equal to the number of representatives, and nothing else |
| ContactLists.Metadata | upload_contact_lists_to_firestore.js:50-55 | the metadata document has exactly the fields `lastUploadDate` (the server timestamp), `totalLists` (the manifest's length), `uploadedBy` ("admin_script") and `lists` |
| ContactLists.MetadataListsManifest | upload_contact_lists_to_firestore.js:50-55 | the metadata counts the manifest and lists its entries verbatim, in order |

## Left out

- File reads, `JSON.parse` of the source files, `console` output and Firebase Admin initialisation are not modelled. `process.exit` is modelled as the exit code of a run. Where a script reads several files, an unreadable contact-list file is a missing key of the `files` map.
- The OpenAI client is a function from the prompt's variable fragments to a reply: a failed call, an unparsable reply, or a parsed value. The fixed instruction text of the prompt is not modelled.
- Server timestamps and `toDate().toISOString()` are opaque tokens. The multi-zip response's `timestamp` is a parameter.
- `Promise.all` runs the reads of the multi-zip lookup concurrently. The model reads sequentially. The store is read-only there, and a zip listed twice gets the same value, so the results map does not depend on the order.
- `Object.entries` order, which puts integer-like keys first in numeric order, is not computed. The keys are given as a sequence in iteration order.
- Read and commit failures inside the merge loop are not modelled. The source swallows them per zip in its catch; the model takes the store as total. For the same reason, a stored `representatives` value that is not an array is not modelled.
- Numbers are integers. NaN, infinities and fractions are not modelled, and neither are array index properties of arrays (`"0"`, `"1"`) other than `length`.
- `toUpperCase` is modelled on ASCII letters only. The script passes only "supports" and "opposes".
- Non-array contact files and non-string manifest entries are not modelled. Texas zip entries are taken to be objects, so the object spread of a non-object is not modelled.
- An id with several "/" that names a document in a sub-collection ("a/b/c") is stored as a key of the same map. Sub-collections are not modelled separately.
- MergeUpload.UpdateFirebaseWithMerge: requires that its key list has no repeats, as `Object.entries` never repeats a key, and that no two accepted keys resolve to the same document (such as "a" and "a/"). With such keys, a later zip's read could see an earlier zip's committed write, and that case is not modelled. The source's `batchCount` variable is not a separate variable in the model; it is the length of the open batch.
- ZipLookup.GetRepresentativesForMultipleZips: any failed read fails the whole call with the internal error "Failed to fetch representatives data" (functions/getRepsByZipCode.js:84-116), and no partial results are returned. The model follows the code.

## Findings

| source | as written | input that shows it | evidently intended | confidence | as-written member | corrected member |
|---|---|---|---|---|---|---|
| upload_texas_reps_to_firestore.js:26-56 | `const batch` is created once. After the commit at 500 writes only `batchCount` is reset, and the next `batch.set` is made on the committed batch. Firestore refuses that, the catch logs the error, and the script exits with code 1. At that point the 501st and later zips and the metadata document are never written. | any source file with 501 zip codes | a new batch after each commit, so that n zips give ceil(n / 500) commits and every zip is written | not executed | TexasUpload.FiveHundredOneZips | TexasUpload.UploadTexasRepsDataCorrected |
