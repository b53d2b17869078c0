# EncodedVideoUI core in Dafny

A model of the browser-side logic of EncodedVideoUI, written in Dafny and
proved with Dafny.

The centre of the model is `segmentVideo` (`src/utils/segmentVideo.tsx`). It
works in these steps:

1. It probes the duration of a video.
2. It plans time windows, either of a fixed length or sized so that each
   holds about the requested number of megabytes.
3. It records the windows in consecutive batches of at most
   `maxParallelProcessing`.
4. It keeps the windows whose recording succeeded and sorts them by the number
   in their `segment-<n>` id.
5. It falls back to the whole file when nothing was recorded.
6. It reports progress along the way (0, 20, 25, one report per batch between
   25 and 95, then 100, or an error report).

Around it the model covers the pure parts of the UI components:

- **VideoSegmenter:** the method and slider settings, the selected segment's
  URL, the file extension, and the download names.
- **VideoUploader:** validation, first-file-only handling, the simulated
  upload ticker, and the reset.
- **EncryptedFilesList:** search, type filter, sort, the type menu, the
  `_encrypted` → `_decrypted` rename, and the decrypt handler's guards and
  session-expiry path.
- **FileEncryption:** file validation, the encrypt and decrypt guards and
  handlers, the decrypted file name, the type colour, the staged progress
  meter, the mode change, and the form reset.
- **TextEncryption:** the guards, submit, swap, clear, the recent list, the
  age labels, and the progress bar.
- **testimonials:** the three-column layout.

Modules:

| module | concern |
|---|---|
| `Outcomes` | `Option` and `Result` (error path carries the message) |
| `Strings` | digits, decimal rendering and parsing, prefixes/suffixes, ASCII lower case, splitting, and lengths and prefixes counted in UTF-16 code units as `length` and `substring` count them |
| `Sorting` | stable insertion sort by an integer key (the model of `Array.prototype.sort` with a comparator) |
| `Chunking` | `slice(i, i + k)` for `i = 0, k, 2k, …`; shared by the batch loop and `chunkArray` |
| `Formatting` | `formatTime`, `formatDuration`, `formatSize` |
| `Codec` | the MIME type chosen for `MediaRecorder` and the blob type |
| `SegmentPlan` | the time and size plans |
| `Segmentation` | the batch loop, assembly, sorting, fallback and progress reports of `segmentVideo` |
| `SimulatedProgress` | the capped random-increment progress shared by several components |
| `VideoSegmenter`, `VideoUploader`, `EncryptedFiles`, `FileEncryption`, `TextEncryption`, `Testimonials` | one per component |

Things the browser provides are parameters:

- the probed duration (a `Probe`);
- per-window recording (an oracle `Window -> Option<nat>` giving the recorded
  byte size, or `None` for a failed window);
- `MediaRecorder.isTypeSupported` (a predicate);
- `Math.random` (draws passed in as values);
- `Date.now` (an integer);
- `localeCompare` (a collation key);
- `toLowerCase` as the search box applies it (a function on strings, since its Unicode case mapping is not modelled);
- the services that encrypt or decrypt (a `Result`).

## Model

| member | source | states |
|---|---|---|
| Codec.ChooseMimeType | src/utils/segmentVideo.tsx:298-314 | VP9/Opus when supported; otherwise the first supported alternative in order, every earlier one unsupported; otherwise VP9/Opus anyway |
| Codec.ChooseMimeTypeCases | src/utils/segmentVideo.tsx:298-314 | the chosen type, case by case in order of preference |
| Codec.BlobType | src/utils/segmentVideo.tsx:333 | the blob type is a prefix of the MIME type with no `;`, and the whole type when it has none |
| Codec.RecordedBlobType | src/utils/segmentVideo.tsx:298-333 | a recording is typed `video/webm` or `video/mp4`, and `video/mp4` exactly when MP4 is the only supported candidate |
| Formatting.FormatTime | src/utils/segmentVideo.tsx:390-394 | the text is `mm:ss` with both fields at least two digits, and reads back as the whole seconds elapsed, with seconds below 60 |
| Formatting.FormatDuration | src/components/VideoSegmenter.tsx:226-230 | `m:ss` reads back as the whole seconds elapsed; seconds below 60 and two digits; minutes have no leading zero |
| Formatting.ClockFields | src/utils/segmentVideo.tsx:391-392 | `floor(s / 60)` and `floor(s % 60)` split the whole seconds, the second below 60 |
| Formatting.Tenths | src/utils/segmentVideo.tsx:400-402 | the number of tenths `toFixed(1)` shows is the nearest to `10 * bytes / unit`, rounding a tie up |
| Formatting.Fixed1 | src/utils/segmentVideo.tsx:400-402 | the one-decimal text reads back as that number of tenths |
| Formatting.FormatSize | src/utils/segmentVideo.tsx:396-404 | the unit is ` B` iff below 1024, ` KB` iff below 1 MiB, ` MB` otherwise; bytes read back exactly, KB and MB carry the one-decimal quotient |
| SegmentPlan.TimeCount | src/utils/segmentVideo.tsx:78 | `ceil(duration / seconds)` windows, at least one |
| SegmentPlan.TimePlanTiles | src/utils/segmentVideo.tsx:75-85 | the time plan has `ceil(duration / value)` windows that tile `[0, duration)` in index order, each but the last exactly `value` long |
| SegmentPlan.TimeWindow | src/utils/segmentVideo.tsx:81-84 | window `i` starts at `i * value` and ends at `min((i + 1) * value, duration)` |
| SegmentPlan.TimePlanEnds | src/utils/segmentVideo.tsx:81-85 | the plan starts at 0 and its last window ends at the duration |
| SegmentPlan.SizeCount | src/utils/segmentVideo.tsx:88-90 | the window count `ceil(size / (value * 2^20))` is zero exactly for an empty file |
| SegmentPlan.SizePlanTiles | src/utils/segmentVideo.tsx:86-101 | an empty file gets no windows; otherwise the count is `ceil(size / target)` and the windows are equal slices `duration / count` that tile `[0, duration)` |
| SegmentPlan.SizeWindowsClosedForm | src/utils/segmentVideo.tsx:94-100 | the running `currentTime` loop builds window `j` as `[j * step, (j + 1) * step)` |
| SegmentPlan.PlanWellShaped | src/utils/segmentVideo.tsx:75-101 | either plan is indexed and tiles the duration; its length is the planned total, and it is empty exactly for a negative value or an empty file in size mode |
| SegmentPlan.TilesOrdered | src/utils/segmentVideo.tsx:81-100 | earlier windows end before later ones start |
| SegmentPlan.TilesCover | src/utils/segmentVideo.tsx:81-100 | every instant of the video lies in exactly one window |
| Segmentation.CheckDurationAsWritten | src/utils/segmentVideo.tsx:56-60 | the duration check refuses exactly 0 and NaN with the duration error, and lets every other value through, +Infinity included |
| Segmentation.TimeCountAsWritten | src/utils/segmentVideo.tsx:78 | `Math.ceil(duration / value)` is unbounded exactly for an infinite duration, and `ceil(duration / value)` otherwise |
| Segmentation.InfiniteDurationHangs | src/utils/segmentVideo.tsx:56-85 | an infinite duration passes the check, and the time-mode loop test then holds for every index |
| Segmentation.CheckDuration | src/utils/segmentVideo.tsx:56-60 | the intended check passes exactly the finite positive durations, with their value |
| Segmentation.CheckDurationCorrects | src/utils/segmentVideo.tsx:56-85 | the intended check refuses all the check as written refuses, and in addition exactly the infinite duration; what it passes gives a loop that stops after `ceil(duration / value)` rounds |
| Segmentation.Parallelism | src/utils/segmentVideo.tsx:41 | `maxParallelProcessing \|\| 2`: the option when given and non-zero, else 2 |
| Segmentation.IdKeyOfSegmentId | src/utils/segmentVideo.tsx:172-176 | `parseInt(id.split('-')[1])` of `segment-<i>` is `i` |
| Segmentation.SegmentName | src/utils/segmentVideo.tsx:135-137 | `Segment <i + 1> (` … `)` with the detail in the brackets |
| Segmentation.MakeSegmentFields | src/utils/segmentVideo.tsx:127-139 | a built segment sorts by its window's index, spans the window, and carries the recorded size and blob type |
| Segmentation.SegmentIdNotOriginal | src/utils/segmentVideo.tsx:128 | no recorded segment has the fallback's id |
| Segmentation.SuccessesAppend | src/utils/segmentVideo.tsx:116-151 | collecting the successes batch by batch equals collecting them over the whole plan |
| Segmentation.SuccessesMembers | src/utils/segmentVideo.tsx:140-150 | the collected successes are exactly the windows whose recording succeeded, with their sizes |
| Segmentation.SuccessesOrdered | src/utils/segmentVideo.tsx:116-151 | successes keep the windows' index order |
| Segmentation.SuccessesEmpty | src/utils/segmentVideo.tsx:150 | nothing is collected iff no window's recording succeeded |
| Segmentation.Fallback | src/utils/segmentVideo.tsx:179-190 | the whole-file segment spans `[0, duration]` and carries the file's size and type under a `Full Video (` name |
| Segmentation.AssembleFallback | src/utils/segmentVideo.tsx:171-190 | the result is never empty, and it is the lone fallback exactly when nothing was recorded |
| Segmentation.AssembleOrdered | src/utils/segmentVideo.tsx:171-176 | the returned segments come in strictly increasing index order |
| Segmentation.AssembleMembers | src/utils/segmentVideo.tsx:116-176 | when something was recorded, every returned segment is built from a plan window whose recording succeeded, and every such window's segment is returned |
| Segmentation.SegmentsFromSuccesses | src/utils/segmentVideo.tsx:120-151 | every collected segment is built from a plan window whose recording succeeded |
| Segmentation.SuccessesHaveSegments | src/utils/segmentVideo.tsx:120-151 | every successful window's segment is collected |
| Segmentation.BatchPercent | src/utils/segmentVideo.tsx:156 | `25 + processed / total * 70` lies in 25..95 and reaches 95 when all windows are processed |
| Segmentation.BatchPercentMonotone | src/utils/segmentVideo.tsx:154-156 | more windows processed never lowers the percentage |
| Segmentation.RunBatches | src/utils/segmentVideo.tsx:113-169 | the batch loop collects the same segments as the whole plan; one report per batch of `plan.slice(i, i + p)`, each for `min((b + 1) * p, n)` processed |
| Segmentation.ProcessedAfterProduct | src/utils/segmentVideo.tsx:154 | `processedCount` after batch `b` is `min((b + 1) * p, n)` |
| Segmentation.BatchReportsMonotone | src/utils/segmentVideo.tsx:154-160 | the batch reports' percentages never decrease |
| Segmentation.SuccessReportsShape | src/utils/segmentVideo.tsx:44-197 | a finished run reports 0 loading, 20 and 25 processing, the batches, then 100 complete with the result's length; the percentages never decrease |
| Segmentation.SegmentVideo | src/utils/segmentVideo.tsx:35-211 | a failed probe or zero duration ends with the error report and an error; otherwise the result is the assembled list; reports never go down, all but the last are in flight, and the last is complete or error |
| Sorting.SortBy | src/utils/segmentVideo.tsx:172-176 | the sort returns a permutation ordered by key |
| Sorting.SortByStable | src/components/EncryptedFilesList.tsx:289-302 | the sort is stable: for every key, the elements with that key come out in their input order |
| Sorting.SortBySortedIsIdentity | src/utils/segmentVideo.tsx:172-176 | an already-ordered list is returned unchanged (the stable sort is a no-op on the collected list) |
| Sorting.InsertSorted | src/utils/segmentVideo.tsx:172-176 | inserting into an ordered list keeps it ordered |
| Chunking.ChunkProperties | src/utils/segmentVideo.tsx:116-117 | the slices rebuild the input in order; each has 1..k items, all but the last exactly k; there are `ceil(n / k)` of them |
| Chunking.ChunkIsSlices | src/utils/segmentVideo.tsx:116-117 | chunk `j` is `a.slice(j * k, (j + 1) * k)` |
| Chunking.ChunkPrefix | src/utils/segmentVideo.tsx:116-151 | the first `j` chunks together are the first `min(j * k, n)` items |
| Chunking.CeilDiv | src/utils/segmentVideo.tsx:78-90 | `ceil(n / k)`: the least `c` with `n <= c * k` |
| SimulatedProgress.Cap | src/components/TextEncryption.tsx:41 | `Math.min(x, 95)`: never above the ceiling, the identity below it |
| SimulatedProgress.ChainedRises | src/components/TextEncryption.tsx:38-42 | progress fed by non-negative increments never goes down and never passes 95 |
| SimulatedProgress.ChainedIsAccumulated | src/components/EncryptedFilesList.tsx:198-201 | capping the previous shown value equals capping a running sum |
| SimulatedProgress.AccumulatedRises | src/components/EncryptedFilesList.tsx:198-201 | the capped running sum stays in 0..95 and never goes down |
| VideoSegmenter.ChooseMode | src/components/VideoSegmenter.tsx:98-116 | choosing a method resets the value to its default (60 s or 10 MB), within the slider range |
| VideoSegmenter.Slide | src/components/VideoSegmenter.tsx:129-136 | the slider keeps the value within the method's bounds and takes any value inside them |
| VideoSegmenter.SettingsStayInRange | src/components/VideoSegmenter.tsx:98-136 | after any sequence of clicks and drags the value is in range and positive |
| VideoSegmenter.ButtonReleasedAtEnd | src/components/VideoSegmenter.tsx:153 | over the reports of a run that finished its plan, and of a run stopped by its probe, the Segment button is disabled for every report but the last, which releases it |
| VideoSegmenter.CurrentUrl | src/components/VideoSegmenter.tsx:46-50 | with no selection, the original URL; else the first listed segment with that id, or the original URL when none has it |
| VideoSegmenter.ShowsFirstAfterRun | src/components/VideoSegmenter.tsx:34-50 | right after a run that produced segments, the player shows the first segment |
| VideoSegmenter.AssembledIdsNonEmpty | src/components/VideoSegmenter.tsx:38-40 | no returned segment has an empty id, so the auto-selection is a real selection |
| VideoSegmenter.Extension | src/components/VideoSegmenter.tsx:242-245 | the extension is empty or a dot followed by ASCII letters and digits ending the name |
| VideoSegmenter.ExtensionIsMatch | src/components/VideoSegmenter.tsx:242-245 | it is the match of `/\.[0-9a-z]+$/i` wherever the pattern matches, and empty iff it matches nowhere |
| VideoSegmenter.DownloadAllName | src/components/VideoSegmenter.tsx:56 | `segment_`, then digits that read back as the position plus one, then the file's extension |
| VideoSegmenter.DownloadAllNamesDistinct | src/components/VideoSegmenter.tsx:52-61 | two positions never get the same download name |
| VideoSegmenter.DownloadSegmentName | src/components/VideoSegmenter.tsx:63-70 | the segment's display name followed by the file's extension |
| VideoUploader.Validate | src/pages/VideoUploader.tsx:75-88 | a non-video type is refused first; a video is refused exactly when it is larger than the limit in MB |
| VideoUploader.LimitIsInclusive | src/pages/VideoUploader.tsx:81-85 | a file exactly at the limit is accepted; one byte more is refused |
| VideoUploader.StartUpload | src/pages/VideoUploader.tsx:47-59 | starting an upload clears the error, zeroes the progress, and records the file and its URL |
| VideoUploader.Receive | src/pages/VideoUploader.tsx:90-110 | no files changes nothing; the first file is validated, and it either sets the error or starts the upload |
| VideoUploader.OnlyFirstFileCounts | src/pages/VideoUploader.tsx:94-106 | the files after the first change nothing; an upload starts exactly when the first file is valid |
| VideoUploader.Tick | src/pages/VideoUploader.tsx:62-71 | each tick adds at least 5 or reaches 100, never passes 100, and is 100 exactly when the running sum reaches it |
| VideoUploader.RunUpload | src/pages/VideoUploader.tsx:61-72 | the ticker shows at most 20 strictly rising values, all below 100 but the last, which is 100; the page then shows the uploaded video |
| VideoUploader.Reset | src/pages/VideoUploader.tsx:118-129 | reset returns the page to its first render, apart from the drag highlight |
| VideoUploader.ResetIdempotent | src/pages/VideoUploader.tsx:118-129 | resetting twice is resetting once |
| EncryptedFiles.FilterFiles | src/components/EncryptedFilesList.tsx:279-288 | a file is kept iff the lower-cased query is in its lower-cased name, or there is no query and its type starts with the filter, or neither is set |
| EncryptedFiles.FilterFilesAppend | src/components/EncryptedFilesList.tsx:279-288 | `filter` keeps list order: filtering a concatenation is the concatenation of the filtered parts |
| EncryptedFiles.SameLowerSameFiles | src/components/EncryptedFilesList.tsx:282 | two search texts with the same lower-case form select the same files |
| EncryptedFiles.SearchIgnoresCase | src/components/EncryptedFilesList.tsx:282 | for a lower-casing that ASCII folding does not change, as `toLowerCase`, a query and its ASCII lower-case form select the same files, as do two queries differing only in ASCII case |
| EncryptedFiles.FilterPrecedence | src/components/EncryptedFilesList.tsx:281-287 | a non-empty search ignores the type filter; with neither set the list is unchanged |
| EncryptedFiles.SortFiles | src/components/EncryptedFilesList.tsx:289-302 | a permutation ordered newest first, oldest first, by collation of names, or largest first, in which files that compare equal keep their list order |
| EncryptedFiles.ShownFiles | src/components/EncryptedFilesList.tsx:279-302 | the listed files are exactly the kept ones, and files that compare equal under the chosen order keep the order the filter left them in |
| EncryptedFiles.DistinctFirstOccurrence | src/components/EncryptedFilesList.tsx:304-306 | `[...new Set(...)]` lists each value in the order of its first occurrence |
| EncryptedFiles.FileTypes | src/components/EncryptedFilesList.tsx:304-306 | the type menu lists each `<major>/` of the files exactly once |
| EncryptedFiles.FilterByListedType | src/components/EncryptedFilesList.tsx:284-306 | choosing a listed type keeps exactly the files of that type, and at least one |
| EncryptedFiles.DecryptedName | src/components/EncryptedFilesList.tsx:233 | the first `_encrypted` that ends the name or precedes its last extension becomes `_decrypted`; other names are kept |
| EncryptedFiles.DecryptedNameRoundTrip | src/components/EncryptedFilesList.tsx:233 | the name changes iff the pattern matches, and writing `_encrypted` back at the match restores it |
| EncryptedFiles.Logout | src/components/EncryptedFilesList.tsx:57-62 | both storage keys are removed, the user is logged out, and the session-expired message shows |
| EncryptedFiles.Failure | src/components/EncryptedFilesList.tsx:249-257 | a `401` or `Unauthorized` error logs out; any other error is shown as is |
| EncryptedFiles.AuthFailureHidesMessage | src/components/EncryptedFilesList.tsx:252-254 | an authorisation failure shows the session message, not the server's |
| EncryptedFiles.FindFile | src/components/EncryptedFilesList.tsx:205 | `files.find` returns the first listed file with that id, or none iff no file has it |
| EncryptedFiles.DecryptGuards | src/components/EncryptedFilesList.tsx:182-196 | logged out or no key refuses with its message and no request; otherwise a request is made exactly when the file is listed, and the spinner ends cleared |
| EncryptedFiles.DecryptDispatch | src/components/EncryptedFilesList.tsx:205-247 | a success previews videos and images, and downloads other files under the renamed name |
| EncryptedFiles.DecryptFailure | src/components/EncryptedFilesList.tsx:204-260 | a failed request shows its error or logs out, and clears the spinner |
| FileEncryption.PickFile | src/components/FileEncryption.tsx:91-107 | a file within 100 MB is selected; a larger one keeps the old selection and shows the size error; the `.enc` note appears in decrypt mode only |
| FileEncryption.SizeLimitInclusive | src/components/FileEncryption.tsx:96 | exactly 100 MB is accepted; one byte more is refused |
| FileEncryption.EncryptRefusal | src/components/FileEncryption.tsx:198-212 | encryption proceeds iff a file is selected and the key is at least 8 UTF-16 code units long; otherwise the first failing check's message |
| FileEncryption.AstralKeyLength | src/components/FileEncryption.tsx:209 | a key of four emoji is eight code units and is accepted; four letters are refused as weak |
| FileEncryption.DecryptRefusal | src/components/FileEncryption.tsx:254-263 | decryption proceeds iff a file is selected and a key is given |
| FileEncryption.DecryptAcceptsMore | src/components/FileEncryption.tsx:198-263 | whatever may be encrypted may be decrypted; a short key is refused for encrypting only |
| FileEncryption.HandleEncrypt | src/components/FileEncryption.tsx:198-252 | a refusal sets only the error; a service success records the file and its success message; a failure shows the error and no result |
| FileEncryption.HandleDecrypt | src/components/FileEncryption.tsx:254-321 | a refusal sets only the error; a success names the decrypted file; a failure shows the error |
| FileEncryption.DecryptedFileName | src/components/FileEncryption.tsx:288 | the name without a trailing `.enc` or `.encrypted` (any ASCII case), or `decrypted_file` when nothing is left, as for a name that is only the suffix |
| FileEncryption.DecryptedFileNameRoundTrip | src/components/FileEncryption.tsx:288 | adding `.enc` or `.encrypted` to a non-empty name and decrypting gives the name back |
| FileEncryption.ColorIsFirstMatch | src/components/FileEncryption.tsx:789-802 | the colour is grey for an empty type, otherwise the colour of the first rule of the table that matches |
| FileEncryption.StageLabels | src/components/FileEncryption.tsx:123-136 | four stage labels per mode |
| FileEncryption.NextValue | src/components/FileEncryption.tsx:148-159 | the meter never goes down and, once at most 95, stays at most 95 |
| FileEncryption.TickAsWritten | src/components/FileEncryption.tsx:141-160 | the tick as written: the stage advances by at most one and stays below four |
| FileEncryption.StaleStageTest | src/components/FileEncryption.tsx:143 | the stage test reads the value captured at the start: at 92 it still advances, and a leftover 100 freezes it |
| FileEncryption.Tick | src/components/FileEncryption.tsx:141-160 | the tick with the current value: the stage advances only while the meter is below 90 |
| FileEncryption.RunInvariants | src/components/FileEncryption.tsx:138-160 | over any corrected run the meter stays at most 95 and never goes down, the stage stays below four and never goes back, and from 90 on the stage is frozen |
| FileEncryption.RunAsWrittenInvariants | src/components/FileEncryption.tsx:138-160 | over a run as written the meter never goes down and, from at most 95, stays at most 95; the stage stays below four and never goes back; a captured value of 90 or more freezes the stage |
| FileEncryption.RunHeld | src/components/FileEncryption.tsx:141-149 | from 95 up, with a captured value of at least 90, no tick changes the value or the stage |
| FileEncryption.AttemptShape | src/components/FileEncryption.tsx:138-178 | an operation starts from the value the bar last showed, which every stage test reads; while pending the meter never goes down and shows a label of the mode, stays at most 95 from a start of at most 95, keeps the first label from a start of 90 or more, and shows a leftover 100 unchanged; a success shows 100 with the done label; either way it ends idle |
| FileEncryption.AttemptKeepsAdvancingPast90 | src/components/FileEncryption.tsx:142-143 | past 90 the run as written still moves the stage on a draw above 0.75, where the corrected run does not |
| FileEncryption.ChangeMode | src/components/FileEncryption.tsx:43-49 | switching mode drops the file, the result and both messages and keeps the key; setting the same mode changes nothing |
| FileEncryption.ResetForm | src/components/FileEncryption.tsx:187-196 | the file, the result and both messages are dropped; mode and key stay |
| FileEncryption.ModeRoundTripClears | src/components/FileEncryption.tsx:187-196 | switching away and back is a form reset; a reset form refuses both operations for lack of a file; resetting twice is resetting once |
| TextEncryption.Refusal | src/components/TextEncryption.tsx:58-93 | the request proceeds iff both input and key are given; otherwise the mode's message for the first missing one |
| TextEncryption.Submit | src/components/TextEncryption.tsx:58-133 | a refusal sets only the error; a success shows the output and puts the entry first in the history; a failure shows the error |
| TextEncryption.SubmitKeepsHistory | src/components/TextEncryption.tsx:552 | the submit button is enabled iff no refusal; the older history is kept after the new entry |
| TextEncryption.Swap | src/components/TextEncryption.tsx:122-128 | with output, the output becomes the input under the other mode; without, nothing changes |
| TextEncryption.SwapAfterSubmit | src/components/TextEncryption.tsx:122-128 | after a successful submit, swap moves the result to the input, and a second swap changes nothing |
| TextEncryption.Clear | src/components/TextEncryption.tsx:581-586 | clearing empties input, output and error and keeps the rest |
| TextEncryption.ClearIdempotent | src/components/TextEncryption.tsx:581-586 | clearing twice is clearing once, and a cleared form is refused for lack of text |
| TextEncryption.RecentShown | src/components/TextEncryption.tsx:509 | at most the three newest entries, in order |
| TextEncryption.PickRecent | src/components/TextEncryption.tsx:513-516 | picking an entry restores its input under the opposite mode and keeps the rest |
| TextEncryption.PickNewestAfterSubmit | src/components/TextEncryption.tsx:509-516 | picking the newest entry after a submit restores the submitted text under the opposite mode |
| TextEncryption.Preview | src/components/TextEncryption.tsx:527-528 | texts of at most 30 UTF-16 code units are shown whole; longer ones as a prefix of 29 or 30 units (the longest of whole characters) and `...` |
| TextEncryption.PreviewBmp | src/components/TextEncryption.tsx:527-528 | for text without surrogate pairs the preview is the first 30 characters and `...` |
| TextEncryption.PreviewAstral | src/components/TextEncryption.tsx:527-528 | for text of emoji only, more than 15 of them show as the first 15 and `...` |
| TextEncryption.ElapsedSeconds | src/components/TextEncryption.tsx:598 | `floor((now - timestamp) / 1000)` |
| TextEncryption.AgeOf | src/components/TextEncryption.tsx:597-604 | the bucket is chosen by 60, 3600 and 86400 seconds, and its count is the floor of the seconds over the unit |
| TextEncryption.AgeOfMonotone | src/components/TextEncryption.tsx:597-604 | an older entry never shows a younger age |
| TextEncryption.RenderAgeRoundTrip | src/components/TextEncryption.tsx:599-603 | every age label reads back as the age it was rendered from |
| TextEncryption.BarShape | src/components/TextEncryption.tsx:33-50 | while pending the bar stays in 0..95 and never goes down; it always ends at 0 |
| Testimonials.Columns | src/components/testimonials.tsx:50-58 | no testimonials make no columns |
| Testimonials.ColumnsShape | src/components/testimonials.tsx:50-58 | the columns hold every testimonial once in order; there are at most three, none empty, all but the last of size `ceil(n / 3)` |
| Testimonials.SixMakeThreePairs | src/components/testimonials.tsx:8-58 | six testimonials show as three columns of two |

## Left out

- Browser media plumbing is not modelled: `<video>` metadata loading, canvas drawing, `MediaRecorder` chunks, the 60 s extraction timeout, `requestAnimationFrame`, object URLs and their revocation, and `window.gc`. Recording a window is an oracle. Its failures are `None`.
- Timers, delays and the batch `setTimeout` are left out. The model records the order of state changes, not their timing.
- The `onProgress` callbacks that let real service progress replace the simulated meter in FileEncryption and EncryptedFilesList are not modelled, because the services are outside the model.
- Floating point is not modelled. Durations and percentages are exact `real`s.
- Segmentation.SegmentVideo takes the probed duration as a finite number, as the intended check CheckDuration guarantees. A NaN duration is refused by `!videoDuration` like 0 (CheckDurationAsWritten). A +Infinity duration passes that test; time mode then never leaves its planning loop, and size mode plans windows ending at +Infinity. Both are stated only by the duration-check members, and the infinite case is listed under Findings.
- Segmentation.SegmentVideo requires a non-zero `value`. With 0, `Math.ceil(d / 0)` is `Infinity` and the loop never ends. The component's slider only yields values of at least 1.
- Segmentation.Parallelism takes `maxParallelProcessing` as an optional natural number, so negative and fractional values are not modelled. No caller passes it.
- Segmentation.IdKey does not model `parseInt` returning NaN. Every id it is applied to has a digit after the dash.
- TextEncryption.Preview: when a surrogate pair straddles code unit 30, `substring(0, 30)` keeps its lone high surrogate. A Dafny `char` cannot hold one, so the model shows one unit less there.
- FileEncryption.PickFile: the `.enc` test folds ASCII letters only. This agrees with the full `toLowerCase` on the name's last four characters, because no other character lower-cases to `.`, `e`, `n` or `c`. DecryptedFileName's `/i` pattern has no `u` flag and folds ASCII letters only, as modelled.
- FileEncryption.AttemptShape: the 1.5 s reset scheduled by an earlier success is not modelled. It can drop the meter to 0 in the middle of a later run; timers are left out.
- EncryptedFiles.SortFiles takes `localeCompare` as an abstract integer collation key. `createdAt` is taken as milliseconds already parsed from the date string.
- EncryptedFiles.FilterByListedType is stated only for content types containing `/`. A `contentType` without `/` gets a type-menu entry `<type>/` that then matches none of its own files.
- `bytesToSize`, `getFileIcon`, `generateRandomKey`, the clipboard, the download links and all rendering are left out. They are presentation or randomness with nothing to prove.
- FileEncryption.PickFile models a `file` prop passed at mount as if it were picked. The mount-time mode effect, which clears it at once, is left out.
- The fallback messages used when a thrown value is not an `Error` are left out. A failure is a `Result.Err` carrying the message shown.
- The algorithm selector in TextEncryption and FileEncryption is only passed through to the services, so it is not part of the state.
- The testimonial texts are left out. Only their number and order matter.
- Nothing from `encryptionApi.ts`, `api.ts`, `videoApi.ts`, `login.tsx` or `App.tsx` is part of this model.

## Findings

| source | as written | input that shows it | evidently intended | confidence | as-written member | corrected member |
|---|---|---|---|---|---|---|
| src/utils/segmentVideo.tsx:58 | `!videoDuration` refuses 0 and NaN but lets +Infinity through | a file whose `video.duration` is +Infinity, as `MediaRecorder` WebM files often report, in time mode: `Math.ceil(Infinity / v)` is +Infinity and the loop at line 81 never ends | only a finite positive duration is planned | not executed | Segmentation.InfiniteDurationHangs | Segmentation.CheckDurationCorrects |
| src/components/FileEncryption.tsx:143 | the stage test reads `progressValue` captured when `simulateProgressStages` was called, not the meter's current value | a run started at 0 whose meter has reached 92 still advances the stage on a draw above 0.75; a run started while a previous 100 is still shown never advances | stages advance only while the current meter is below 90 | not executed | FileEncryption.StaleStageTest | FileEncryption.RunInvariants |
