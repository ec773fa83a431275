/**
 * The script's module-level state and the two event handlers that change it:
 * `file_list`, the listbox's lines and `save_directory`, updated by
 * `add_files_to_list` and `start_compression`.
 */
module App {
  import opened Text
  import opened PosixPath
  import opened Processor
  import opened PendingList
  import opened Listbox
  import opened Batch
  import opened Config

  /** How `start_compression` ended. */
  datatype RunOutcome =
    | NoFiles                       // warning dialog: nothing selected
    | SaveDirectoryMissing          // error dialog: `save_directory` does not exist
    | Finished(compressedCount: nat) // summary dialog with the count; `file_list` cleared
    | Aborted(index: nat)           // `compress_image` raised on file `index`

  class Compressor {
    /** `file_list`: the files waiting to be compressed. */
    var fileList: seq<string>
    /** The listbox's lines, top to bottom. */
    var listbox: seq<string>
    /** `save_directory` */
    var saveDirectory: string

    ghost predicate Valid()
      reads this
    {
      WellFormed(fileList)
    }

    /**
     * The state when the window opens: nothing pending, an empty listbox,
     * and the save directory `load_config` chose from `file`.
     */
    constructor (file: ConfigFile, home: string, isDir: string -> bool)
      ensures Valid()
      ensures fileList == [] && listbox == []
      ensures saveDirectory == LoadConfig(file, home, isDir).saveDirectory
    {
      fileList := [];
      listbox := [];
      saveDirectory := LoadConfig(file, home, isDir).saveDirectory;
    }

    /** `add_files_to_list(files)`, called for the file dialog's selection and for dropped files. */
    method AddFiles(files: seq<string>)
      requires Valid()
      modifies this`fileList, this`listbox
      ensures Valid()
      ensures Pending(fileList, listbox) == AddAll(Pending(old(fileList), old(listbox)), ClassifyAll(files))
    {
      ghost var start := Pending(fileList, listbox);
      ghost var arrivals := ClassifyAll(files);
      for k := 0 to |files|
        invariant Pending(fileList, listbox) == AddAll(start, arrivals[..k])
      {
        AddNext(start, arrivals, k);
        AddFile(files[k]);
      }
      assert arrivals[..|files|] == arrivals;
      AddingFilesPreservesWellFormed(start, files);
    }

    /** One turn of the loop in `add_files_to_list`, for the incoming path `f`. */
    method AddFile(f: string)
      modifies this`fileList, this`listbox
      ensures Pending(fileList, listbox) == AddOne(Pending(old(fileList), old(listbox)), Classify(f))
    {
      var arrival := Classify(f);
      if arrival.path !in fileList {
        if arrival.accepted {
          fileList := fileList + [arrival.path];
          listbox := Insert(listbox, |listbox|, arrival.name);
        } else {
          listbox := Insert(listbox, |listbox|, UnsupportedTag + arrival.name);
        }
      }
    }

    /** `select_save_directory` once the dialog has returned `path` (empty when cancelled). */
    method ChooseSaveDirectory(path: string)
      modifies this`saveDirectory
      ensures saveDirectory == if path == [] then old(saveDirectory) else path
    {
      if path != [] {
        saveDirectory := path;
      }
    }

    /**
     * `start_compression`. `saveDirectoryExists` is `os.path.exists(save_directory)`;
     * `codec` says what the imaging library does with each file.
     */
    method StartCompression(saveDirectoryExists: bool, codec: Codec) returns (outcome: RunOutcome)
      requires Valid()
      modifies this`fileList, this`listbox
      ensures Valid()
      ensures old(fileList) == [] ==>
                outcome == NoFiles && fileList == old(fileList) && listbox == old(listbox)
      ensures old(fileList) != [] && !saveDirectoryExists ==>
                outcome == SaveDirectoryMissing && fileList == old(fileList) && listbox == old(listbox)
      ensures old(fileList) != [] && saveDirectoryExists ==>
                var reports := ReportsFor(old(fileList), saveDirectory, codec);
                var k := FirstRaise(reports);
                if k == |reports| then
                  outcome == Finished(Tally(reports)) && listbox == Lines(reports) && fileList == []
                else
                  outcome == Aborted(k) && listbox == Lines(reports[..k + 1]) && fileList == old(fileList)
    {
      if fileList == [] {
        return NoFiles;
      }
      if !saveDirectoryExists {
        return SaveDirectoryMissing;
      }
      outcome := CompressAll(codec);
    }

    /** The part of `start_compression` after both checks have passed: the loop over `file_list`. */
    method CompressAll(codec: Codec) returns (outcome: RunOutcome)
      modifies this`fileList, this`listbox
      ensures fileList == [] || fileList == old(fileList)
      ensures var reports := ReportsFor(old(fileList), saveDirectory, codec);
              var k := FirstRaise(reports);
              if k == |reports| then
                outcome == Finished(Tally(reports)) && listbox == Lines(reports) && fileList == []
              else
                outcome == Aborted(k) && listbox == Lines(reports[..k + 1]) && fileList == old(fileList)
    {
      var compressedCount := 0;
      listbox := [];
      ghost var reports := ReportsFor(fileList, saveDirectory, codec);
      for i := 0 to |fileList|
        invariant fileList == old(fileList)
        invariant listbox == Lines(reports[..i])
        invariant compressedCount == Tally(reports[..i])
        invariant i <= FirstRaise(reports)
      {
        OneMoreReport(reports, i);
        var raised, succeeded := CompressFile(i, codec);
        if raised {
          return Aborted(i);
        }
        if succeeded {
          compressedCount := compressedCount + 1;
        }
      }
      assert reports[..|fileList|] == reports;
      fileList := [];
      return Finished(compressedCount);
    }

    /**
     * One turn of the loop in `start_compression`, for file `i`: show the
     * progress line at the end of the listbox, call `compress_image`, and
     * unless it raised, replace slot `i` by the outcome line.
     */
    method CompressFile(i: nat, codec: Codec) returns (raised: bool, succeeded: bool)
      requires i < |fileList| && |listbox| == i
      modifies this`listbox
      ensures var report := ReportsFor(fileList, saveDirectory, codec)[i];
        && listbox == old(listbox) + [report.line]
        && raised == report.raised && succeeded == report.counted
    {
      ReportsForAt(fileList, saveDirectory, codec, i);
      var path := fileList[i];
      listbox := Insert(listbox, |listbox|, ProgressTag + Basename(path));
      var result := CompressImage(path, saveDirectory, codec(path, saveDirectory));
      if result.Raised? {
        return true, false;
      }
      listbox := Delete(listbox, i);
      if Contains(result.value, ErrorTag) {
        listbox := Insert(listbox, i, FailedTag + Basename(path));
        succeeded := false;
      } else {
        listbox := Insert(listbox, i, DoneTag + Basename(result.value));
        succeeded := true;
      }
      raised := false;
    }
  }
}
