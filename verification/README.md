# Classroom material downloader: the naming and planning core

`download.py` mirrors Google Classroom course material into a local tree laid
out as `course/course-work material/file`. Before it downloads anything, it
plans the tree:

1. It gives every course and every course-work material a directory name.
2. It skips each course-work material whose directory already looks complete.
3. For every other course-work material, it fetches the Drive metadata of
   each file and picks an export format for native Google documents.
4. It gives every file a name with the right extension.
5. It marks which files are still missing and counts them.

This project models that planning core in Dafny and proves what it
guarantees:

- **Sanitiser** (`Naming.TitleToFilename`): a title becomes a file name that
  is never empty, is at most 200 characters long, and contains none of
  `\ / < > | ? * : "`.
- **Counter tagging** (`Naming.MakeUniqueNames`): a name that occurs once is
  kept. The k-th occurrence of a repeated name is tagged with k padded to three digits (`_001`, `_002`, ...). With
  extensions, the tag goes before the last dot.
- **Directory naming** (`Assign.AssignDirectoryNames`): a stable sort by
  creation time, then sanitising, then tagging.
- **Export format** (`MimeTypes.ChooseMimeType`): the first offered format of
  the best family. The families rank Office Open XML, then OpenDocument, then
  PDF, then images, then anything else. When nothing is offered, a native
  document gets its fixed export.
- **Extension step** (`MimeTypes.AddExtension`).
- **File naming** (`Assign.AssignFileNames`).
- **Planner** (`Planner.AssignDirAndFileNames`): two passes over the courses
  against a snapshot of the output directory.

Modules:

| module | file | what it holds |
|---|---|---|
| `Seqs` | `seqs.dfy` | `Map` and `Filter`, i.e. the list comprehensions |
| `Text` | `text.dfy` | the `str` operations the code uses: `startswith`, `endswith`, `in`, `strip`, `split`, `join`, and `<` on strings; also `LastIndexOf`, the last position of a character, which the code does not use but the reference definition of counter placement does |
| `Decimal` | `decimal.dfy` | `str(n)` and the `:03` format, with their parse-back |
| `Sorting` | `sorting.dfy` | `list.sort(key=...)` as a stable insertion sort |
| `Naming` | `naming.dfy` | `title_to_filename` and `make_unique_names` |
| `MimeTypes` | `mime.dfy` | `choose_mime_type` and the extension step |
| `Catalog` | `catalog.dfy` | the records (`Material`, course-work materials and courses as `Folder`s), the environment, and the file-system snapshot |
| `Assign` | `assign.dfy` | `assign_directory_names` and `assign_file_names` |
| `Planner` | `planner.dfy` | `assign_dir_and_file_names` |

Each modelled operation is pinned down by its own contract or by the lemmas
its row names. Among those lemmas:

- Round trips: `SplitJoin`, `Pad3RoundTrip`.
- Uniqueness: `StripUnique` and `StableSortUnique` pin a result down by its
  properties alone.
- Injectivity and distinctness: `WithCounterInjective`,
  `RepeatedOccurrencesDiffer`.
- Idempotence: `AddExtensionIdempotent`.
- Planner facts: the two passes agree with a direct per-group description
  (`TwoPasses`, `PlannedGroup`), what the plan's marks mean (`PlanMarks`), and
  a second run after the downloads finding nothing to do
  (`RerunFindsNothing`).

## Model

| member | source | states |
|---|---|---|
| Naming.SanitizeChars | download.py:114-120 | Each character is rewritten by its own rule: a non-printable becomes a space; one of `\ / < > ? *` or the vertical bar becomes `_`; `:` becomes `-`; `"` becomes `'`; any other is kept. The length is unchanged, and no forbidden character remains. |
| Naming.Clean | download.py:121 | The result is exactly what stripping whitespace and then periods from both ends of the sanitised title leaves (a `StripsTo` chain, which `StripUnique` makes unique). So it is a safe string no longer than the title that neither starts nor ends with a period, and every sanitised character that is neither whitespace nor a period survives. |
| Naming.TitleToFilename | download.py:113-122 | The name is non-empty, at most 200 characters, and free of forbidden characters. When nothing survives stripping it is `no_name`; otherwise it is the stripped text cut to min(length, 200). |
| Text.Strip | download.py:121 | `strip` removes the selected characters from both ends. The result is a window of the input: everything outside it is dropped, and its ends are kept characters. |
| Text.StripUnique | download.py:121 | Only one window qualifies, so the strip property determines the result. |
| Naming.MakeUniqueNames | download.py:125-148 | There is one name per input. A name occurring once is kept. The k-th occurrence (from the left) of a repeated name gets counter k. When nothing repeats, the list is returned as it was. |
| Naming.RenameFrom | download.py:131-148 | The loop with the `suffix` dictionary produces, from every position on, exactly the names stated by occurrence counts. |
| Naming.RepeatedOccurrencesDiffer | download.py:125-148 | Two occurrences of the same name never receive the same new name. |
| Naming.RepeatedNamesAreRenamed | download.py:133-145 | A repeated name is always changed. |
| Naming.RenamedCanCollide | download.py:125-148 | `["a", "a", "a_001"]` becomes `["a_001", "a_002", "a_001"]`: a tag can produce a name that is already in the list. |
| Naming.PlainRepeatExample | download.py:141-143 | `["party", "party"]` without extensions becomes `["party_001", "party_002"]`. |
| Naming.ExtensionRepeatExample | download.py:134-140 | With extensions, `X.Y` listed twice, where `Y` has no dot, becomes `X_001.Y` and `X_002.Y` (for example `photo_001.jpg`). |
| Naming.CompoundExtensionExample | download.py:136-140 | `a.tar.gz` gets `a.tar_001.gz`: only the last segment stays behind the tag. |
| Naming.WithCounterLength | download.py:134-143 | Tagging lengthens a name by exactly the `_` and the padded counter, with or without extensions, so a tagged name never equals its source. |
| Naming.TagGoesBeforeLastDot | download.py:136-140 | Splitting at dots, extending the second-to-last segment (or the only one) by the tag and joining again equals the independent definition that puts the tag just before the last dot, or at the end when there is no dot. |
| Naming.CounterGoesBeforeLastDot | download.py:136-140 | Splitting at dots, tagging the second-to-last segment and joining again inserts the tag just before the last dot. A name without a dot is tagged at its end. |
| Naming.CounterKeepsOtherSegments | download.py:136-140 | Split again at dots, the tagged name has the same segments, except that the second-to-last (or only) one is extended by the tag. |
| Naming.DotlessTaggedAtEnd | download.py:134-143 | For a name without a dot, tagging with and without extensions agree. |
| Naming.DotlessExample | download.py:134-140 | With extensions, a dotless `party` is tagged `party_001`. |
| Naming.TaggedMeetsListed | download.py:125-148 | With extensions, a dotless `b` listed twice before `b_001` gives `b_001` at the first and the third position. |
| Naming.WithCounterInjective | download.py:134-143 | Different counters never produce the same tagged name. |
| Text.SplitJoin | download.py:136-140 | Splitting a join of dot-free pieces gives the pieces back. `Split` itself ensures that joining its pieces gives the string back. |
| Decimal.Pad3 | download.py:139 | The `:03` rendering is all digits and at least three long, exactly three below 1000. From 1000 on it is `str(n)` unpadded, so it never has a leading zero when longer than three. |
| Decimal.Pad3RoundTrip | download.py:139 | The `:03` rendering of a counter reads back as the counter. |
| Decimal.Pad3Injective | download.py:139 | Distinct counters render differently. |
| Decimal.Pad3One | download.py:139 | 1 renders as `001`. |
| Decimal.Pad3Two | download.py:139 | 2 renders as `002`. |
| Decimal.Pad3FortyTwo | download.py:139 | 42 renders as `042`. |
| Decimal.Pad3Thousand | download.py:139 | 1000 renders as `1000`: no truncation. |
| Sorting.SortBy | download.py:152 | `list.sort` by a string key: the result is sorted under Python's string order and is a permutation of the input. The elements of each key keep their input order. |
| Sorting.StableSortUnique | download.py:152 | Any two sequences that are sorted and list each key's elements in the same order are equal, so the stable sort is fully determined. |
| Assign.AssignDirectoryNames | download.py:151-157 | The folders come back sorted by creation time. Equal times keep their order and nothing but the directory name changes. Each directory name is the tagged form of its sanitised title at its sorted position. |
| Assign.SameTitleDifferentDirectories | download.py:151-157 | Two folders whose titles sanitise alike never share a directory name. |
| MimeTypes.ChooseMimeType | download.py:160-177 | With formats offered, the choice is one of them. With none offered, a native Google type gets an export of rank at most PDF, and any other type is returned unchanged. |
| MimeTypes.ChooseMimeTypeIsFirstBest | download.py:161-167 | The choice is the first offered format of the best rank: none ranks better, and every earlier one ranks worse. |
| MimeTypes.NativeExports | download.py:168-177 | With nothing offered: a document exports as docx, a spreadsheet as xlsx, a presentation as pptx, and a drawing as PDF. |
| MimeTypes.PdfBeatsImage | download.py:161-167 | A PDF is chosen over an image offered before it. |
| MimeTypes.AddExtension | download.py:194-198 | The name only grows. It is unchanged when the type has no extensions or the name already ends (ignoring case) in a non-empty one. Otherwise the first extension is appended. |
| MimeTypes.AddExtensionEndsKnown | download.py:194-198 | Afterwards the name ends in a known extension, whenever the type's first extension is non-empty. |
| MimeTypes.AddExtensionIdempotent | download.py:194-198 | Applying the step twice adds nothing. |
| Assign.AssignFileNames | download.py:180-202 | Every material gets Drive's size, creation time and export types. The materials are sorted by Drive creation time, each time keeping its materials' input order and identities. A material's type is Drive's own, or the chosen export when it has no size. Its file name is the tagged form of its base name: the sanitised title plus the extension. |
| Assign.SameBaseNameDifferentFiles | download.py:199-202 | Two materials with the same base name never share a file name. |
| Assign.UniqueBaseNameKept | download.py:199-202 | A material whose base name no other material shares keeps it as its file name. |
| Assign.FileNamesCanCollide | download.py:199-202 | File names need not be distinct: base names `b`, `b`, `b_001` (in creation order, `b` without a dot) give `b_001` to the first and the third material. |
| Planner.NameDirectories | download.py:209-211 | The courses are ordered and named as `assign_directory_names` does it. Within each course, its own course-work materials are ordered and named the same way. Nothing else changes. |
| Planner.CheckGroup | download.py:213-222 | Only the marks change. Every material is marked downloaded exactly when the directory looks complete, and the counter grows by one exactly when it does not. |
| Planner.RefreshGroup | download.py:227-233 | A course-work material with nothing marked missing is left alone and adds nothing. Otherwise it keeps its number of files, and each is marked downloaded exactly when its path exists. Either way the count is the number of its files left marked missing. |
| Planner.TwoPasses | download.py:212-233 | The fast path followed by the slow path gives each course-work material its direct description, `PlannedGroup`. If the directory looks complete, everything is marked downloaded. Otherwise the files are named afresh by `assign_file_names` and each is marked by whether it exists. |
| Planner.ForCourses | download.py:210-233 | The nested loops update each course-work material by the step and nothing else. The counter is the sum of the steps' counts. |
| Planner.FirstPassMarks | download.py:212-222 | After the first pass, every material of a course-work material is marked downloaded exactly when its directory looks complete. |
| Planner.RefreshCount | download.py:216-222 | The first pass counts exactly the course-work materials whose directory looks incomplete. |
| Planner.Recheck | download.py:229-233 | Each material is marked downloaded exactly when its file exists. The count is the number of files left marked missing. |
| Planner.DownloadCount | download.py:224-233 | The second pass counts exactly the files it leaves marked missing. |
| Planner.AssignDirAndFileNames | download.py:205-235 | The plan keeps the courses as `NameDirectories` names them, each with as many course-work materials as before. Position by position, each course-work material is its `PlannedGroup` under the same course directory. The refresh count is the number of named course-work materials whose directory looks incomplete. The download count is the number of planned files marked missing. No file marked missing exists yet. |
| Planner.NoOverwrite | download.py:229-233 | Every file the plan marks missing is absent from the snapshot. |
| Planner.PendingPathsCanCoincide | download.py:224-233 | Two planned files can share a path. In a course-work material that looks incomplete, with base names `b`, `b`, `b_001`, the first and the third file both go to `b_001`, and both are marked missing when it does not exist. |
| Planner.PlanMarks | download.py:212-233 | A material is marked downloaded exactly when its course-work directory looks complete or its own file exists. |
| Planner.RerunFindsNothing | download.py:205-235 | If the output directory only grew and every file marked missing was written, planning again finds nothing to download. |

## Left out

- Authentication (`get_credentials`, download.py:28-48): OAuth token handling and file I/O.
- Listing the classroom (`call_list_api`, `list_all_material`, download.py:51-110): these are paginated network calls. The model takes the courses they produce as input.
- The Drive metadata request (download.py:183-187): a network call, modelled as the function `Environment.metadata` from a file id to its fields.
- `str.isprintable`, `str.lower` and `mimetypes.guess_all_extensions`: these are modelled as the parameters `printable`, `lowerChar` and `extensionsOf`. `guess_extension` is taken to return the head of `guess_all_extensions`, which is what the standard library does.
- MimeTypes.Lower: `lowerChar` lowers one character at a time. It does not model the context rule of Python's `lower` for a final capital sigma.
- The file-system queries (`is_dir`, `listdir`, `is_file`): modelled as a snapshot, `FileSystem`, taken before planning. The snapshot records entry counts per directory and a set of file paths relative to the output directory. The output directory itself is left out.
- Progress output (download.py:228 and 234): printing only. The progress index `i` is never advanced in the code, so it has no effect.
- Downloading (`download_file`, `download_missing_files`, download.py:238-270) and `main` (download.py:273-292): network and file I/O after planning.
- Mutation: the code updates its records in place. The model returns new records instead (`Plan` holds the updated courses), so "the same objects, updated" becomes "the input with these fields replaced".
- Planner.AssignDirAndFileNames: the code returns only the download count. The model also returns the refresh count that the code prints.

Behaviour of the code worth knowing, which the model keeps:

- After the surrounding whitespace, periods are stripped from both ends of a title (`strip('.')`), so `.hidden` becomes `hidden`.
- `make_unique_names` keeps counters apart only among copies of the same name. Counters can collide with other names that are already present; `Naming.RenamedCanCollide` proves this for `["a", "a", "a_001"]`.
- The same gap holds for file names. Two planned files of one course-work material can share a path, and both are then marked missing (`Planner.PendingPathsCanCoincide`). The second write with `open(..., 'xb')` (download.py:256) then fails because the file exists.
- For a compound extension, only the last segment stays behind the counter: `a.tar.gz` becomes `a.tar_001.gz`.
- The first pass counts a course-work material with no files as needing a refresh when its directory is missing, although its second pass then does nothing.
