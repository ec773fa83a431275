/**
 * `start_compression`: what the listbox shows and how many files are
 * counted once the pending files have been run through `compress_image`
 * in order.
 */
module Batch {
  import opened Text
  import opened PosixPath
  import opened Processor

  /** Line shown while a file is being compressed. */
  const ProgressTag: string := "[압축 중...] "
  /** Line prefix for a file whose result contains the error marker. */
  const FailedTag: string := "[실패] "
  /** Line prefix for a file whose result does not. */
  const DoneTag: string := "[완료] "

  /** The imaging library's behaviour: what it does with a path and an output directory. */
  type Codec = (string, string) -> CodecOutcome

  /** `compress_image(file_path, save_directory)` */
  function Attempt(path: string, saveDirectory: string, codec: Codec): Call {
    CompressImage(path, saveDirectory, codec(path, saveDirectory))
  }

  /** `"오류" not in str(result)`: the test that decides `[완료]` against `[실패]`. */
  predicate Succeeded(result: string) {
    !Contains(result, ErrorTag)
  }

  /** The line that replaces the progress line once `compress_image` has returned `result`. */
  function FinalLine(path: string, result: string): string {
    if Succeeded(result) then DoneTag + Basename(result) else FailedTag + Basename(path)
  }

  /**
   * What handling one file leaves behind: whether `compress_image` raised,
   * the line its listbox slot ends up holding, and whether it adds one to
   * `compressed_count`.
   */
  datatype Report = Report(raised: bool, line: string, counted: bool)

  /**
   * The report for `path`. On a raise the progress line stays in the slot,
   * because the exception leaves `start_compression` before the slot is
   * rewritten.
   */
  function ReportFor(path: string, saveDirectory: string, codec: Codec): Report {
    match Attempt(path, saveDirectory, codec)
    case Returned(result) => Report(false, FinalLine(path, result), Succeeded(result))
    case Raised => Report(true, ProgressTag + Basename(path), false)
  }

  /** The reports for the pending files, in order. */
  function ReportsFor(paths: seq<string>, saveDirectory: string, codec: Codec): (r: seq<Report>)
    ensures |r| == |paths|
    decreases |paths|
  {
    if paths == [] then []
    else ReportsFor(paths[..|paths| - 1], saveDirectory, codec) + [ReportFor(paths[|paths| - 1], saveDirectory, codec)]
  }

  /** Slot `j` holds the report for file `j`. */
  lemma {:induction false} ReportsForAt(paths: seq<string>, saveDirectory: string, codec: Codec, j: nat)
    requires j < |paths|
    ensures ReportsFor(paths, saveDirectory, codec)[j] == ReportFor(paths[j], saveDirectory, codec)
    decreases |paths|
  {
    if j < |paths| - 1 {
      ReportsForAt(paths[..|paths| - 1], saveDirectory, codec, j);
    }
  }

  /** The listbox after the reported files, one slot per file. */
  function Lines(reports: seq<Report>): (r: seq<string>)
    ensures |r| == |reports|
    decreases |reports|
  {
    if reports == [] then [] else Lines(reports[..|reports| - 1]) + [reports[|reports| - 1].line]
  }

  /** `compressed_count` after the reported files. */
  function Tally(reports: seq<Report>): nat
    decreases |reports|
  {
    if reports == [] then 0
    else Tally(reports[..|reports| - 1]) + (if reports[|reports| - 1].counted then 1 else 0)
  }

  /** Index of the first report of a raise, or `|reports|` if there is none. */
  function FirstRaise(reports: seq<Report>): (k: nat)
    ensures k <= |reports|
    ensures forall j :: 0 <= j < k ==> !reports[j].raised
    ensures k < |reports| ==> reports[k].raised
    decreases |reports|
  {
    if reports == [] then 0
    else if reports[0].raised then 0
    else 1 + FirstRaise(reports[1..])
  }

  /**
   * Handling file `i` adds its line to the listbox and its flag to the
   * count, and, when no earlier file raised, stops the run exactly when it
   * raises.
   */
  lemma {:induction false} OneMoreReport(reports: seq<Report>, i: nat)
    requires i < |reports|
    ensures Lines(reports[..i + 1]) == Lines(reports[..i]) + [reports[i].line]
    ensures Tally(reports[..i + 1]) == Tally(reports[..i]) + (if reports[i].counted then 1 else 0)
    ensures i <= FirstRaise(reports) ==> (reports[i].raised <==> FirstRaise(reports) == i)
  {
    assert reports[..i + 1][..i] == reports[..i];
  }

  /** The log holds one line per file, and slot `i` holds the line for file `i`. */
  lemma {:induction false} LinesAt(reports: seq<Report>, i: nat)
    requires i < |reports|
    ensures |Lines(reports)| == |reports|
    ensures Lines(reports)[i] == reports[i].line
    decreases |reports|
  {
    var init := reports[..|reports| - 1];
    if i < |reports| - 1 {
      LinesAt(init, i);
    } else if init != [] {
      LinesAt(init, 0);
    }
  }

  /**
   * Slot `i` of the listbox ends up holding `[실패]` and the input's base
   * name when the `i`-th result contains the error marker, and `[완료]` and
   * the result's base name otherwise.
   */
  lemma LogSlotHoldsOutcome(paths: seq<string>, saveDirectory: string, codec: Codec, i: nat)
    requires i < |paths| && Attempt(paths[i], saveDirectory, codec).Returned?
    ensures var result := Attempt(paths[i], saveDirectory, codec).value;
      Lines(ReportsFor(paths, saveDirectory, codec))[i]
        == if Contains(result, ErrorTag) then FailedTag + Basename(paths[i]) else DoneTag + Basename(result)
  {
    ReportsForAt(paths, saveDirectory, codec, i);
    LinesAt(ReportsFor(paths, saveDirectory, codec), i);
  }

  /** The count never exceeds the number of files, and reaches it exactly when every file counts. */
  lemma {:induction false} TallyBounded(reports: seq<Report>)
    ensures Tally(reports) <= |reports|
    ensures Tally(reports) == |reports| <==> forall j :: 0 <= j < |reports| ==> reports[j].counted
    decreases |reports|
  {
    if reports != [] {
      var init := reports[..|reports| - 1];
      TallyBounded(init);
      if Tally(reports) == |reports| {
        forall j | 0 <= j < |reports| ensures reports[j].counted {
          if j < |init| { assert reports[j] == init[j]; }
        }
      }
      if forall j :: 0 <= j < |reports| ==> reports[j].counted {
        forall j | 0 <= j < |init| ensures init[j].counted {
          assert init[j] == reports[j];
        }
      }
    }
  }

  /** How many of `lines` start with `[완료]`. */
  function DoneLines(lines: seq<string>): nat
    decreases |lines|
  {
    if lines == [] then 0
    else DoneLines(lines[..|lines| - 1]) + (if StartsWith(lines[|lines| - 1], DoneTag) then 1 else 0)
  }

  /** The report's line starts with `[완료]` exactly when it is counted. */
  predicate Consistent(r: Report) {
    StartsWith(r.line, DoneTag) <==> r.counted
  }

  /** Every file's report is consistent: `[완료]` lines and counted files coincide. */
  lemma ReportConsistent(path: string, saveDirectory: string, codec: Codec)
    ensures Consistent(ReportFor(path, saveDirectory, codec))
  {
    var r := ReportFor(path, saveDirectory, codec);
    if !r.counted {
      assert r.line[1] != DoneTag[1];
    }
  }

  /** The count the summary reports equals the number of `[완료]` lines left in the listbox. */
  lemma {:induction false} TallyMatchesDoneLines(reports: seq<Report>)
    requires forall j :: 0 <= j < |reports| ==> Consistent(reports[j])
    ensures Tally(reports) == DoneLines(Lines(reports))
    decreases |reports|
  {
    if reports != [] {
      var init := reports[..|reports| - 1];
      TallyMatchesDoneLines(init);
      assert Consistent(reports[|reports| - 1]);
      assert Lines(reports)[..|Lines(reports)| - 1] == Lines(init);
    }
  }

  /** A file whose encoding fails after it was opened is reported as failed and not counted. */
  lemma SaveFailureReported(path: string, saveDirectory: string, codec: Codec)
    requires codec(path, saveDirectory).SaveFails?
    ensures ReportFor(path, saveDirectory, codec) == Report(false, FailedTag + Basename(path), false)
  {
  }

  /**
   * A file `Image.open` cannot read makes `compress_image` raise: the run
   * stops at that file with its progress line still showing.
   */
  lemma OpenFailureRaises(path: string, saveDirectory: string, codec: Codec)
    requires codec(path, saveDirectory).OpenFails?
    ensures ReportFor(path, saveDirectory, codec) == Report(true, ProgressTag + Basename(path), false)
  {
  }

  /**
   * A file written to an output path free of the error marker is reported
   * as done under its new name (`<stem>_compressed.jpg`) and counted.
   */
  lemma CleanSaveReported(path: string, saveDirectory: string, codec: Codec)
    requires codec(path, saveDirectory) == Saved
    requires !Contains(OutputPath(path, saveDirectory), ErrorTag)
    ensures ReportFor(path, saveDirectory, codec) == Report(false, DoneTag + NewFilename(path), true)
  {
    OutputPathInDirectory(path, saveDirectory);
  }

  /**
   * The success test looks for the error marker in the returned text, so a
   * file written successfully into a save directory whose path contains the
   * marker is still reported as failed and not counted.
   */
  lemma SaveIntoMarkedDirectoryReportedAsFailure(path: string, saveDirectory: string, codec: Codec)
    requires codec(path, saveDirectory) == Saved
    requires Contains(saveDirectory, ErrorTag)
    ensures ReportFor(path, saveDirectory, codec) == Report(false, FailedTag + Basename(path), false)
  {
    MarkedDirectoryMarksOutput(path, saveDirectory);
  }

  /** The output path starts with the save directory, so it contains whatever that contains. */
  lemma MarkedDirectoryMarksOutput(path: string, saveDirectory: string)
    requires Contains(saveDirectory, ErrorTag)
    ensures Contains(OutputPath(path, saveDirectory), ErrorTag)
  {
    OutputPathInDirectory(path, saveDirectory);
    ContainsThroughPrefix(OutputPath(path, saveDirectory), saveDirectory, ErrorTag);
  }
}
