# Work-order file harvester and inspection helpers, in Dafny

This project models two Python programs.

- `workorder.py` harvests the file attachments of a list of work orders. It reads the identifiers from a text file, drops the first 9300, and looks each one up with a POST to the work-order API. It normalises the answer into a list of file descriptors. A descriptor is saved either by downloading its `FileUrl` or by decoding its inline base64 `FileContent`, under the name `{workorder}_{index}{ext}`. A thread pool runs the lookups. Under a lock each unit increments `processed_count` and, when it found files, `found_count`. The consumer stops reading completions once `found_count` reaches `MAX_WITH_FILES` (20).
- `video_processing.py` is a Streamlit inspection app. Four of its helpers are modelled:
  - the record `fetch_work_order_info` builds from the work-order confirmation lookup;
  - the `WORK ORDER CONTEXT` block placed in the analysis prompt, which lists at most ten trades;
  - the extension test that decides whether a file is shown as a video or an image;
  - the name of the downloadable report.

Each module follows one part of the programs:

| module | file | what it holds |
|---|---|---|
| `Seqs` | seqs.dfy | Facts about sequences of any element type: regrouping concatenations, the last element, taking one element out of a permutation. |
| `Values` | values.dfy | Decoded JSON as one datatype (JSON `null` and Python `None` are the same value), Python truthiness, `dict.get`, and `a or b`. |
| `Strings` | strings.dfy | `str.strip`, lower-casing, substring search, decimal rendering of indices (with its round trip), `str.join`. |
| `Paths` | paths.dfy | `os.path.splitext` as `posixpath` computes it. |
| `Lookup` | lookup.dfy | `get_files_for_workorder` and the shape normalisation in `process_workorder`. |
| `Persist` | persist.dfy | `save_files`: which descriptor yields which file under which name. |
| `Identifiers` | identifiers.dfy | Reading the identifier file and dropping the first 9300 entries. |
| `Harvest` | harvest.dfy | `process_workorder`, the counter step under the lock, completion in any order, and the consumer's stop rule. |
| `Inspection` | inspection.dfy | `fetch_work_order_info` and the work-order context block. |
| `Media` | media.dfy | Media classification by extension, and the report file name. |

Everything outside the programs' own logic is a parameter of the model:
- the text of the identifier file;
- the HTTP responses;
- the JSON decoder behind `resp.json()`;
- the file download;
- `base64.b64decode`;
- Python's `str()` of a list or dict.

Side effects are returned as values. Each file write is a `Write` record: work order, index, extension and bytes. The thread pool is modelled as order, not threads. Each unit's critical section is one atomic step on the counter pair. The steps run in an arbitrary rearrangement of the submitted units. The consumer's k-th check sees the counters after some number `seen[k]` of steps. That number is at least k+1, never more than the number of units, and never decreases from one check to the next.

## Model

| member | source | states |
|---|---|---|
| `Lookup.GetFilesForWorkorder` | workorder.py:29-46 | The identifier is always returned unchanged. The data is the decoded body exactly when the status is 200, the body is not blank after stripping, the Content-Type contains `application/json` in any letter case, and the body decodes. Every other case gives `None`, including a raised exception. |
| `Lookup.Normalise` | workorder.py:78-83 | A dict yields its `data` entry if that is truthy, else its `files` entry if that is truthy, else `[]`. A list yields itself. Anything else, `None` included, yields `[]`. |
| `Lookup.FoundIff` | workorder.py:75-87 | The `if files:` test after lookup and normalisation holds exactly when the response passed every check, decoded, and is a non-empty list or a dict with a truthy `data` or `files`. |
| `Lookup.FilesKeyAgreesWithBareList` | workorder.py:78-81 | `{"files": xs}` and the bare list `xs` give the same file list. |
| `Lookup.DataKeyAgreesWithBareList` | workorder.py:79 | A non-empty `data` list wins over whatever `files` holds. |
| `Lookup.FailedLookupFindsNothing` | workorder.py:75-83 | A response that fails the checks leads to an empty file list. |
| `Paths.SplitExt` | workorder.py:56 | The root and extension concatenate back to the path. The extension is empty, or is a dot followed by no further dot or slash. |
| `Paths.SplitExtOfStemAndExt` | workorder.py:56 | Appending an extension to a stem whose final component is not all dots is undone exactly by splitext. |
| `Paths.SplitExtRootNotHidden` | workorder.py:56 | Whenever splitext cuts off an extension, the root's final component holds a character other than a dot, so a hidden name such as `.bashrc` stays whole. With the previous row this determines splitext completely. |
| `Paths.SplitExtLower` | video_processing.py:343 | Lower-casing a path lower-cases both splitext parts and moves neither boundary. |
| `Persist.FileName` | workorder.py:57 | The name is the work order and `_`, then the index in decimal, then the extension. |
| `Persist.UrlExt` | workorder.py:56 | A downloaded file gets the URL's splitext suffix when there is one, and `.bin` exactly when the suffix is empty. The result is always well-formed. |
| `Persist.SaveDescriptor` | workorder.py:52-69 | A descriptor produces at most one file. Only a dict can produce one. The file carries the given work order and index and a well-formed extension. |
| `Persist.DescriptorNamingRules` | workorder.py:52-69 | `FileUrl` takes precedence over `FileContent`. A URL descriptor is written, under the URL's extension or `.bin`, exactly when the GET succeeds with a status that `raise_for_status` accepts. Inline content is written as `.bin` exactly when it decodes. A descriptor with neither key writes nothing. |
| `Persist.SaveFrom` | workorder.py:51-69 | The files from index `i` on have indices in `[i, len)`, strictly increasing, and well-formed extensions. |
| `Persist.SaveFromIsolated` | workorder.py:51-69 | A file is produced from index `i` on exactly when its own descriptor produces it on its own. |
| `Persist.SaveFiles` | workorder.py:49-69 | Only a list yields files. Every file belongs to the work order, and the indices strictly increase. |
| `Persist.SaveFilesIsolated` | workorder.py:51-69 | Failure isolation: a file is written exactly when its own descriptor produces it, whatever the other descriptors do. |
| `Persist.FileNameInjective` | workorder.py:57-65 | Two names `{wo}_{idx}{ext}` are equal only when the work order, the index and the extension are all equal. |
| `Persist.SaveFilesNamesDistinct` | workorder.py:51-65 | Within one work order, no two written files share a name. |
| `Persist.WritesNamesDistinct` | workorder.py:57-65 | Files of different work orders or different indices never share a name. |
| `Persist.FirstScalar` | workorder.py:51-52 | The index of the first descriptor at or after `i` that is a number, boolean or `None`. It is `len` when there is none. |
| `Persist.SaveFromAsWritten` | workorder.py:51-62 | The loop as written is a prefix of the isolated loop. It writes exactly the isolated loop's files whose index comes before the first scalar descriptor. When there is no scalar, it equals the isolated loop. |
| `Persist.SaveFilesAsWritten` | workorder.py:49-62 | For a list, `save_files` as written writes exactly the isolated loop's files whose index comes before the first scalar descriptor. It writes them in the same order, each owned by the work order and with a well-formed extension. |
| `Persist.ScalarDescriptorAbortsSiblings` | workorder.py:51-62 | On `[5, {"FileContent": "QQ=="}]`, the program as written saves nothing, while the isolated loop saves `WO_1.bin`. |
| `Strings.Strip` | workorder.py:104 | The result has no whitespace at either end. It is empty exactly when the line is all whitespace. |
| `Strings.StripIsSlice` | workorder.py:104 | The stripped line is one slice of the line, and everything cut off before and after it is whitespace. With `Strings.Strip`, exactly the surrounding whitespace is removed. |
| `Strings.NatToStringInjective` | workorder.py:57 | Distinct indices render as distinct decimal strings. |
| `Identifiers.SplitLines` | workorder.py:103-104 | A text is at least one line, even when it is empty. |
| `Identifiers.SplitLinesHaveNoBreaks` | workorder.py:103-104 | No line holds a line break. |
| `Identifiers.SplitLinesJoin` | workorder.py:103-104 | Joining the lines with `\n` gives back the text, every line break written as `\n`. |
| `Identifiers.JoinSplitLines` | workorder.py:103-104 | Lines without breaks, joined with `\n`, split back into exactly those lines. |
| `Identifiers.StrippedNonBlank` | workorder.py:104 | The comprehension keeps at most one entry per line, and every entry is stripped and non-empty. |
| `Identifiers.StrippedNonBlankOne` | workorder.py:104 | A single line contributes its stripped form, or nothing when it is blank. |
| `Identifiers.StrippedNonBlankAppend` | workorder.py:104 | The identifiers of two stretches of lines, one after the other, are those of the first followed by those of the second. Together with the single-line case, every non-blank line contributes its stripped form, in file order. |
| `Identifiers.CollectIdentifiers` | workorder.py:104 | The loop the comprehension runs builds exactly the stripped non-blank lines, in file order. |
| `Identifiers.LoadWorkorders` | workorder.py:103-106 | The list has 9300 fewer entries than the file's identifiers, or none when there are fewer. Entry `k` is identifier `k + 9300` of the file. Every entry is stripped and non-empty. |
| `Identifiers.WorkordersOfJoinedLines` | workorder.py:103-104 | A file holding identifiers one per line lists exactly those identifiers, in order. |
| `Identifiers.StrippedNonBlankOfIdentifiers` | workorder.py:104 | Lines that are already stripped and non-empty pass through unchanged. |
| `Harvest.ProcessWorkorder` | workorder.py:72-100 | A unit counts as found exactly when its lookup finds files. Only then does it call `save_files` as written, on the normalised list. Every file it writes carries its own work order. |
| `Harvest.Step` | workorder.py:85-88 | One critical section adds one to `processed_count`. It adds one to `found_count` exactly when its unit found files, and otherwise leaves it alone. |
| `Harvest.Run` | workorder.py:85-88 | After the given units' critical sections, `processed_count` has grown by the number of units, and `found_count` by at most that. |
| `Harvest.RunTotals` | workorder.py:85-88 | Each step adds one to `processed_count`, and one to `found_count` exactly when its unit found files. |
| `Harvest.CountFoundPermutation` | workorder.py:108-111 | The number of units that found files does not depend on their completion order. |
| `Harvest.CompletionOrderIrrelevant` | workorder.py:85-88 | For any completion order, the final counters are the initial ones plus the number of units and plus the number that found files. |
| `Harvest.FoundNeverOutgrowsProcessed` | workorder.py:85-88 | At every point, the growth of `found_count` is at most the growth of `processed_count`. From the initial counters (9300, 0), `found_count` stays below `processed_count`. |
| `Harvest.FoundMonotone` | workorder.py:85-88 | More completions never lower `found_count`. |
| `Harvest.Consume` | workorder.py:111-114 | The consumer breaks at its first check that sees `found_count >= 20`, and at no earlier check. It has stopped by the completion at which the quota is reached, at the latest. |
| `Harvest.RunHarvest` | workorder.py:108-114 | Every submitted unit runs, whenever the consumer stops. The final counters are `(9300 + n, number found)`. The written files are those of all units. The consumer stops exactly when at least 20 units find files. |
| `Harvest.HarvestNamesDistinct` | workorder.py:57 | With distinct identifiers, no two files written during a harvest share a name. |
| `Inspection.FetchWorkOrderInfo` | video_processing.py:50-70 | A body that confirms the work order gives `success: True`, with the number, description and entity name copied and the trades defaulting to `[]`. Otherwise the result is `success: False` with exactly one more key, `error`. That error is "Invalid work order number" for a dict without a truthy `valid`, the exception text when the request or decoding raised, and the `AttributeError` text for a body that is not a dict. |
| `Inspection.Trades` | video_processing.py:183-190 | At most ten trades are listed: the first ten, in order, all of them strings. `...` follows exactly when there are more than ten. A string lists its characters. Anything else raises. |
| `Inspection.WorkOrderContext` | video_processing.py:176-191 | The block is empty unless the record is truthy and its `success` is truthy. It then holds the number, description and trades, with `""`, `[]` and `""` used only for missing keys. It fails exactly when the trades cannot be sliced and joined, or when a truthy record is not a dict. |
| `Inspection.TradesText` | video_processing.py:190 | The trades text is the listed trades joined by `, `. It is followed by `...` when there are more, and by nothing otherwise. |
| `Inspection.Render` | video_processing.py:186-191 | The block is its six lines joined by `\n`: blank, heading, number, description, trades, blank. |
| `Inspection.ContextLinesRoundTrip` | video_processing.py:186-191 | If the fields hold no line break, splitting the block into lines recovers each field on its own line. |
| `Inspection.ShownTradeInContext` | video_processing.py:190 | Every listed trade appears verbatim in the block. |
| `Inspection.UnconfirmedLookupAddsNoContext` | video_processing.py:59-70 | A failed or unconfirmed lookup adds no context to the prompt. |
| `Inspection.ConfirmedLookupContext` | video_processing.py:180-190 | For a confirmed lookup, the block shows the fields as the lookup returned them. The `""` defaults never apply, because the record always carries those keys. |
| `Inspection.MissingDescriptionShowsNone` | video_processing.py:182 | A confirmed lookup without a description shows `None` in the description line, with its number and whatever trades it lists. When the trades cannot be shown, there is no block. |
| `Media.ClassifyMedia` | video_processing.py:343-349 | A path is a video exactly when its lower-cased splitext suffix is `.mp4`, `.avi`, `.mov` or `.mkv`. It is an image exactly when the suffix is `.jpg`, `.jpeg`, `.png`, `.bmp` or `.gif`. Otherwise it is neither. |
| `Media.ExtensionListsDisjoint` | video_processing.py:346-348 | No extension is both a video and an image extension. |
| `Media.ClassifyIgnoresCase` | video_processing.py:343 | Lower-casing the whole path never changes its classification. |
| `Media.ClassifyStemAndExt` | video_processing.py:343-349 | A stem followed by an extension is classified by that extension alone. |
| `Media.HiddenFileIsNeither` | video_processing.py:343-349 | A file in a directory whose whole name is an extension, such as `dir/.mp4`, is neither a video nor an image. |
| `Media.BareHiddenFileIsNeither` | video_processing.py:343-349 | A bare name that is only an extension, such as `.mp4`, is neither a video nor an image. |
| `Media.ReportFilename` | video_processing.py:566 | The name is `inspection_report_`, then the number (or `analysis` when it is empty), then `.txt`. |
| `Media.ReportFilenameCollisions` | video_processing.py:566 | Two numbers share a report name exactly when they are equal, or when both are among `""` and `analysis`. |

## Left out

- Real HTTP traffic is not modelled. This covers `requests.post`, `requests.get`, and `get_with_retries` with its `Retry` and `HTTPAdapter` setup. Responses are input data, and an exception is one more kind of response.
- Harvest.RunHarvest: assumes that every lookup returns or raises. `requests.post` at workorder.py:33 has no timeout, so a request that never answers would keep the executor's `with` block waiting forever, and the final counters would never be reached. Hanging is not modelled.
- Threads, the `Lock` and `MAX_THREADS` are not modelled as concurrency. Each critical section is one atomic step, the steps run in any order, and the consumer's checks read the counters after a nondecreasing number of steps.
- File writes and `os.makedirs` are not performed. A written file is a returned `Write` record. A failing `open` or `write` is not modelled; in the program it would only skip that descriptor, like the other failures inside the `try`.
- `base64.b64decode` and the JSON decoder are not re-verified. Each is a partial function parameter that answers `None` where Python would raise.
- JSON numbers are integers; floating-point values are left out.
- Python's `str()` of a list or dict is a parameter (`repr`) of the context block.
- Lower-casing maps only `A`–`Z` and the Kelvin sign (which Python lowers to `k`). Every string compared after lower-casing here is ASCII, so no other mapping can change a comparison.
- Identifiers.LoadWorkorders: takes the identifier file's text as given. In the program, `open(WORKORDER_FILE)` runs at module level (workorder.py:103), so a missing or unreadable file raises `FileNotFoundError` or `PermissionError` there and the script ends before any lookup is submitted. That failure is not modelled.
- Reading the identifier file does not model text decoding errors. Both `\n` and `\r` end a line. A `\r\n` pair yields one extra empty line, which is dropped as blank, so the identifiers agree with Python's universal-newline reading.
- The debug `print` calls are not modelled. Neither is the `print` inside the `try` of `get_files_for_workorder`: it cannot raise on the values modelled here.
- A truthy `files` value that is a number or `True` makes `len(files)` raise in the progress message at workorder.py:90. This happens inside `with lock:`, after both counters were incremented, so `save_files` is never reached. The consumer never calls `future.result()`, so the exception goes unnoticed. The model counts the unit and writes nothing for it, which is what the program does.
- The Gemini client is not modelled: uploads, polling with `time.sleep`, `generate_content`, and the prompt texts around the context block.
- The Streamlit UI, its CSS, session state and secrets are not modelled, apart from the report file name expression.
- The progress bar's floating-point ratio is not modelled.

## Findings

| source | as written | input that shows it | evidently intended | confidence | as-written member | corrected member |
|---|---|---|---|---|---|---|
| workorder.py:51-62 | `"FileUrl" in f` is evaluated outside the per-descriptor `try`. A descriptor that is a number, a boolean or `None` raises `TypeError` there, and `save_files` exits before any later descriptor is looked at. | `[5, {"FileContent": "QQ=="}]`: nothing is saved, though `WO_1.bin` could be (`Persist.ScalarDescriptorAbortsSiblings`) | Each descriptor is isolated, as the per-descriptor `try`/`except` suggests: a malformed element is skipped and the rest are still saved | medium; not executed | `Persist.SaveFilesAsWritten` | `Persist.SaveFiles` |

`Harvest.ProcessWorkorder`, and so the whole harvest model, follows the program as written and calls `Persist.SaveFilesAsWritten`. Its files are those of the corrected `Persist.SaveFiles` whose index comes before the first scalar descriptor.
