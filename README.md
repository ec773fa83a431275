# Image compressor: pending list, batch run and file naming

This project models the logic behind `image_compressor.py`. It is a small
desktop tool: the user picks or drops image files, they are collected in a
pending list shown in a listbox, and one button compresses them all to JPEG
in a chosen save directory.

The model covers these parts:

- **Pending list** (`add_files_to_list`). Each incoming path has `{`/`}`
  stripped from both ends. A path already in `file_list` is skipped.
  Otherwise, a path ending in `.png`, `.jpg` or `.jpeg` (in any case) is
  appended to `file_list` and its base name to the listbox, and any other
  path only adds a `[지원안함]` line. This is `PendingList` (a function of the
  arrivals), and `App.Compressor.AddFiles` is the loop that updates the two
  sequences in place.
- **Batch run** (`start_compression`). The run refuses to start with an
  empty list or a missing save directory. Otherwise it clears the listbox
  and handles the files in order. For each file it shows a progress line,
  calls `compress_image`, and rewrites that slot as `[실패]` or `[완료]`. It
  counts results without the error marker `오류` and finally clears
  `file_list`. `Batch` gives the listbox and the count as functions of the
  per-file outcomes. `App.Compressor.StartCompression` is the loop, proved
  against them.
- **`compress_image`**. The imaging library is an oracle (`CodecOutcome`):
  opening fails, a later step fails with a message, or the JPEG is saved.
  The output name is `splitext(basename(p))[0] + "_compressed.jpg"` joined
  to the output directory. When `Image.open` fails, the handler refers to
  `filename` before it is bound, so `compress_image` raises instead of
  returning an error string. The run then stops at that file. Its progress
  line stays in the listbox and `file_list` is not cleared (`Aborted`).
- **Save-directory label** (`update_save_dir_label`). A path longer than 35
  characters is shown as `...` followed by its last 32 characters.
- **Start-up configuration** (`load_config`). It keeps the stored directory
  when it is a non-empty existing directory. When the file is missing, is
  not valid JSON, or holds no usable directory, it falls back to
  `~/Downloads` and writes that back. Other read errors are not caught.

`os.path` is modelled with POSIX semantics (`/` as separator). The Tk
listbox follows Tk's index rules: inserting at or past the end appends, and
deleting a missing line does nothing.

## Model

| member | source | states |
|---|---|---|
| Text.StripBraces | image_compressor.py:84 | `strip('{}')` leaves no brace at either end and removes only braces, from the two ends |
| Text.StripLeftRemovesBraces | image_compressor.py:84 | the left half of `strip` removes a run of leading braces and keeps a suffix not starting with one |
| Text.StripRightRemovesBraces | image_compressor.py:84 | the right half removes a run of trailing braces and keeps a prefix not ending with one |
| Text.StripUnbraced | image_compressor.py:84 | a path with no brace at either end is left unchanged |
| Text.StripBracesIdempotent | image_compressor.py:84 | stripping twice is the same as stripping once |
| Text.LowerIdempotent | image_compressor.py:86 | lower-casing twice is the same as lower-casing once |
| Text.Lower | image_compressor.py:86 | definition (ASCII letters folded one by one); its properties are in `Text.LowerIdempotent` and `Text.LowerSuffix` |
| Text.LowerSuffix | image_compressor.py:86 | lower-casing commutes with taking a suffix; `PendingList.SupportedDependsOnlyOnEnd` uses it |
| Text.StripLeft | image_compressor.py:84 | definition of the left half of `strip('{}')`; its properties are in `Text.StripLeftRemovesBraces` |
| Text.StripRight | image_compressor.py:84 | definition of the right half of `strip('{}')`; its properties are in `Text.StripRightRemovesBraces` |
| Text.Contains | image_compressor.py:143 | definition of the substring test `"오류" in str(result)`; its properties are in `Text.ContainsThroughPrefix` and `Processor.FailureText` |
| Text.ContainsThroughPrefix | image_compressor.py:143 | a string contains whatever its prefix contains |
| PosixPath.Basename | image_compressor.py:52 | `basename` is a suffix of the path with no separator in it, and the whole path when there is no separator |
| PosixPath.SplitExt | image_compressor.py:53 | `splitext` splits the name into two parts that concatenate back to it; the extension is empty or a dot followed by no dot and no separator |
| PosixPath.Join | image_compressor.py:55 | an absolute name replaces the directory; otherwise the result starts with the directory, ends with the name, is at most one character longer than both together, and has a separator just before the name unless the directory is empty; it is exactly as long as both together if and only if the directory is empty or already ends in `/`, so `PosixPath.JoinAfterSeparator` gives `dir + name` there (`/` and `x` give `/x`) |
| PosixPath.JoinAfterSeparator | image_compressor.py:55 | after an empty directory or one ending in `/` (the root `/` that the folder dialog can return), the name follows with no separator added |
| PosixPath.BasenameAfterDirectory | image_compressor.py:52 | the base name of a directory prefix followed by a bare name is that name |
| PosixPath.JoinPlacesInDirectory | image_compressor.py:55 | a bare name joined to a directory starts with the directory and has that name as its base name |
| PosixPath.SplitExtOfStemAndExtension | image_compressor.py:53 | `stem.ext` splits into the stem and `.ext` |
| PosixPath.LeadingDotsAreNoExtension | image_compressor.py:53 | a name whose dots all come first (`.bashrc`, `.png`) has no extension: `splitext` keeps it whole |
| Processor.NewFilename | image_compressor.py:52-54 | the new file name ends in `_compressed.jpg` and contains no separator |
| Processor.OutputPath | image_compressor.py:55 | definition; its properties are in `Processor.OutputPathInDirectory` |
| Processor.OutputPathInDirectory | image_compressor.py:52-55 | the output path lies in the output directory, has the new file name as its base name and ends in `_compressed.jpg` |
| Processor.StemOfInput | image_compressor.py:52-54 | `dir/stem.ext` gets the new name `stem_compressed.jpg`, whatever the directory and extension |
| Processor.DotFileKeepsWholeName | image_compressor.py:52-54 | a file named with leading dots only, such as `dir/.png`, gets the new name `.png_compressed.jpg`: nothing is dropped as an extension |
| Processor.OutputDependsOnlyOnStem | image_compressor.py:52-55 | two inputs with the same stem but different directories or extensions are written to the same path |
| Processor.PngBecomesJpegInSaveDirectory | image_compressor.py:52-55 | `photo.png` with output directory `/out` is written to `/out/photo_compressed.jpg` |
| Processor.JoinWithSeparator | image_compressor.py:55 | a relative name joined to a directory without a trailing separator gets exactly one separator |
| Processor.FailureText | image_compressor.py:63 | the error string contains the marker `오류` and the input's base name |
| Processor.CompressImage | image_compressor.py:49-63 | the call raises exactly when opening fails; a saved file returns the output path; a later failure returns a string with the marker and the base name |
| Display.DisplayPath | image_compressor.py:116-119 | the shown path is at most 35 long; a short path is shown as is; a long one is exactly 35 long, starts with `...` and ends with the path's end |
| Display.ShownUnchangedIffShort | image_compressor.py:117-119 | the path is shown unchanged if and only if it is at most 35 long |
| Display.DisplayPathIdempotent | image_compressor.py:117-119 | abridging an abridged path changes nothing |
| Display.TailSurvives | image_compressor.py:119 | each of the last 32 characters of a long path sits at the same distance from the end of what is shown |
| Display.SaveDirLabel | image_compressor.py:120 | the label ends with the shown path and is bounded in length |
| Listbox.Insert | image_compressor.py:88 | insertion puts the line at the index and shifts the rest, or appends when the index is at or past the end |
| Listbox.Delete | image_compressor.py:142 | deletion removes the line at the index and closes the gap, and does nothing past the end |
| PendingList.Classify | image_compressor.py:84-88 | an incoming path is classified with its braces stripped |
| PendingList.Supported | image_compressor.py:86 | definition of the extension test; its properties are in `PendingList.SupportedIgnoresCase` and `PendingList.SupportedDependsOnlyOnEnd` |
| PendingList.AddOne | image_compressor.py:85-90 | definition of one loop turn; its properties are in `PendingList.AddOnePreservesWellFormed` and `PendingList.AddNext` |
| PendingList.AddAll | image_compressor.py:83-90 | definition of the whole loop; its properties are in `PendingList.AddAllPreservesWellFormed`, `PendingList.AddAllExtends`, `PendingList.AddAllMembership`, `PendingList.PresentPathsIgnored` and the two repetition lemmas |
| PendingList.ClassifyIsClassified | image_compressor.py:84-86 | a classified path has no brace at either end and is accepted exactly when its extension is supported |
| PendingList.AddNext | image_compressor.py:83-90 | handling the paths one more arrival further is one more loop turn |
| PendingList.AddOnePreservesWellFormed | image_compressor.py:85-87 | one loop turn keeps `file_list` free of duplicates, supported and unbraced |
| PendingList.AddAllPreservesWellFormed | image_compressor.py:83-90 | a whole call keeps `file_list` free of duplicates, supported and unbraced |
| PendingList.AddingFilesPreservesWellFormed | image_compressor.py:83-90 | the same for the paths as given, before classification |
| PendingList.AddAllExtends | image_compressor.py:83-90 | existing paths and lines keep their places, new ones go at the end, and each incoming path adds at most one line |
| PendingList.AddAllMembership | image_compressor.py:85-87 | a path is pending afterwards if and only if it was before or it arrived and was accepted |
| PendingList.StoredPathsAreAcceptedArrivals | image_compressor.py:84-87 | a path is pending afterwards if and only if it was before or it is an incoming path, braces stripped, with a supported extension |
| PendingList.PresentPathsIgnored | image_compressor.py:85 | paths already pending change neither `file_list` nor the listbox |
| PendingList.RepeatedSupportedAddedOnce | image_compressor.py:85-88 | a supported path arriving several times in one call is stored once and logged once |
| PendingList.RepeatedUnsupportedLoggedEachTime | image_compressor.py:85-90 | an unsupported path is never stored and is logged as `[지원안함]` every time it arrives |
| PendingList.SupportedIgnoresCase | image_compressor.py:86 | the extension test gives the same answer for a path and its lower-cased form |
| PendingList.SupportedDependsOnlyOnEnd | image_compressor.py:86 | only the last characters decide the extension test: any prefix, such as another directory, leaves the answer unchanged |
| PendingList.ClassifyRepeat | image_compressor.py:83-84 | a path arriving `n` times is classified the same way each time |
| Batch.Attempt | image_compressor.py:140 | definition of the call `compress_image(file_path, save_directory)` with the imaging library's outcome supplied; its properties are in `Processor.CompressImage`, `Batch.LogSlotHoldsOutcome` and `Batch.OpenFailureRaises` |
| Batch.Succeeded | image_compressor.py:143 | definition of the success test; `Batch.ReportConsistent` and `Batch.SaveIntoMarkedDirectoryReportedAsFailure` state what it decides |
| Batch.FinalLine | image_compressor.py:143-146 | definition of the line that replaces the progress line; its properties are in `Batch.LogSlotHoldsOutcome` and `Batch.ReportConsistent` |
| Batch.ReportFor | image_compressor.py:137-146 | definition of one file's outcome; its properties are in `Batch.SaveFailureReported`, `Batch.OpenFailureRaises` and `Batch.CleanSaveReported` |
| Batch.ReportsFor | image_compressor.py:136-146 | there is one report per pending file |
| Batch.Tally | image_compressor.py:133-147 | definition of `compressed_count`; its properties are in `Batch.TallyBounded` and `Batch.TallyMatchesDoneLines` |
| Batch.ReportsForAt | image_compressor.py:136-146 | report `j` is the report for file `j`, so files are handled in list order |
| Batch.Lines | image_compressor.py:136-146 | the listbox holds one line per handled file |
| Batch.FirstRaise | image_compressor.py:136-140 | the run stops at the first file whose call raises, and no earlier file raised |
| Batch.OneMoreReport | image_compressor.py:136-147 | handling file `i` appends its line and adds its flag to the count, and stops the run exactly when its call raises |
| Batch.LinesAt | image_compressor.py:142-146 | slot `i` of the listbox holds the line for file `i` |
| Batch.LogSlotHoldsOutcome | image_compressor.py:142-146 | slot `i` is `[실패]` plus the input's base name when result `i` contains `오류`, and `[완료]` plus the result's base name otherwise |
| Batch.TallyBounded | image_compressor.py:133-147 | `0 <= compressed_count <= len(file_list)`, with equality if and only if every file counts |
| Batch.ReportConsistent | image_compressor.py:143-147 | a file's line starts with `[완료]` exactly when it is counted |
| Batch.TallyMatchesDoneLines | image_compressor.py:143-147 | the count equals the number of `[완료]` lines in the listbox |
| Batch.SaveFailureReported | image_compressor.py:143-144 | a file that fails after opening is shown as `[실패]` with its base name and not counted |
| Batch.OpenFailureRaises | image_compressor.py:137-140 | a file that cannot be opened raises, leaving its progress line in place |
| Batch.CleanSaveReported | image_compressor.py:145-147 | a file saved to a path without the marker is shown as `[완료] <stem>_compressed.jpg` and counted |
| Batch.SaveIntoMarkedDirectoryReportedAsFailure | image_compressor.py:143-144 | a file saved successfully into a save directory whose path contains `오류` is shown as `[실패]` and not counted |
| Batch.MarkedDirectoryMarksOutput | image_compressor.py:55 | the output path contains whatever the save directory's path contains |
| Config.DefaultSaveDirectory | image_compressor.py:41 | the default save directory is `Downloads` inside the home directory |
| Config.Written | image_compressor.py:21-25 | definition of what `save_config` writes, an object whose `save_directory` is the directory; its properties are in `Config.LoadConfig`, `Config.SavedDirectoryReloads` and `Config.LoadSettles` |
| Config.LoadConfig | image_compressor.py:32-45 | a rewrite happens exactly when falling back to the default, and a kept directory is the stored one and exists |
| Config.LoadedIsDirectoryOrDefault | image_compressor.py:37-44 | the directory chosen at start-up exists or is the default |
| Config.SavedDirectoryReloads | image_compressor.py:36-39 | a stored existing directory is read back unchanged without a rewrite |
| Config.LoadSettles | image_compressor.py:32-45 | after one load and its write-back, loading again picks the same directory and writes nothing |
| App.Compressor.constructor | image_compressor.py:156 | at start-up nothing is pending, the listbox is empty and the save directory is what `load_config` chose |
| App.Compressor.AddFiles | image_compressor.py:82-90 | the new `file_list` and listbox are those of the pending-list function for the incoming paths, and `file_list` stays free of duplicates, supported and unbraced |
| App.Compressor.AddFile | image_compressor.py:84-90 | one loop turn updates `file_list` and the listbox as one step of the pending-list function |
| App.Compressor.ChooseSaveDirectory | image_compressor.py:107-111 | a chosen directory replaces the save directory, and a cancelled dialog changes nothing |
| App.Compressor.StartCompression | image_compressor.py:123-152 | with no files or no save directory, nothing changes; otherwise the listbox and count are those of the per-file reports, up to and including the first file that raises; the list is cleared only when no file raised |
| App.Compressor.CompressAll | image_compressor.py:133-152 | the loop leaves the listbox and count of the per-file reports, and clears `file_list` only when every call returned |
| App.Compressor.CompressFile | image_compressor.py:137-146 | one loop turn leaves exactly that file's report line appended in its slot |

## Left out

- The tkinter window, its widgets, the dialogs and `status_label`. These
  are presentation. The run's outcome and count are returned instead of
  being shown.
- `root.update_idletasks`, and parsing dropped files with
  `root.tk.splitlist`. These are toolkit internals; the incoming paths are
  a parameter.
- `select_files`. It is a file dialog that passes its selection to
  `add_files_to_list`.
- The import check for `tkinterdnd2`. It is start-up behaviour outside the
  logic.
- Decoding, the RGBA-to-RGB conversion and JPEG encoding. These belong to
  the imaging library. Its behaviour per file is the `CodecOutcome` oracle
  (`Batch.Codec`). An exception raised by the conversion counts as a
  failure after opening, as in the source.
- `os.path.exists` and `os.path.isdir`. These are file-system queries and
  are parameters (`saveDirectoryExists`, `isDir`).
- `expanduser('~')`. It is the parameter `home`.
- Reading and writing `compressor_config.json`. This is file I/O. The file
  is modelled by what reading it yields (`Config.ConfigFile`).
- `save_config`. It is modelled only by what it writes (`Config.Written`).
  A write error, which the source prints and ignores, is not modelled.
- Config.LoadConfig: read errors other than a missing file or invalid
  JSON are not modelled. Examples are a `PermissionError` or
  `IsADirectoryError` from `open`, or a `UnicodeDecodeError` while reading.
  The source does not catch these, so the script stops at start-up.
- JSON that is not an object, or a `save_directory` value that is not a
  string. In the source these raise, or depend on `os.path.isdir`'s
  handling of non-strings.
- `open_save_folder`. It dispatches on the platform to start an external
  program.
- App.Compressor.ChooseSaveDirectory: the call to `save_config` and the
  label refresh are not modelled. Their effects are `Config.Written` and
  `Display.SaveDirLabel`.
- PosixPath.Basename, PosixPath.SplitExt and PosixPath.Join: Windows path
  semantics (`ntpath`, with `\` as a second separator and drive letters)
  are not modelled. Only the POSIX meaning is.
- Text.Lower: only ASCII letters are folded. Python's full Unicode
  `lower()` is not modelled.
- An exception escaping `start_compression`. It is modelled as the run
  stopping (`Aborted`). What Tk's callback handler then does is not
  modelled.
