/**
 * `load_config` and `save_config`: where the save directory comes from when
 * the tool starts. The file system is a parameter: what the configuration
 * file holds, the home directory and which paths are directories.
 */
module Config {
  import opened Text
  import opened PosixPath

  datatype Option<T> = None | Some(value: T)

  /** What reading `compressor_config.json` gives. */
  datatype ConfigFile =
    | Missing                          // `FileNotFoundError`
    | Malformed                        // `json.JSONDecodeError`
    | Parsed(entry: Option<string>)    // a JSON object; its `save_directory` key, if any

  /** The save directory chosen, and whether `save_config` is called to write it back. */
  datatype Loaded = Loaded(saveDirectory: string, rewritten: bool)

  /** The folder the compressed copies go to unless the user chose another. */
  const DefaultFolder: string := "Downloads"

  /** `os.path.join(os.path.expanduser('~'), 'Downloads')`, with `home` the expanded `~`. */
  function DefaultSaveDirectory(home: string): (r: string)
    ensures StartsWith(r, home) && Basename(r) == DefaultFolder
    ensures r != []
  {
    assert Sep !in DefaultFolder;
    JoinPlacesInDirectory(home, DefaultFolder);
    Join(home, DefaultFolder)
  }

  /** What `save_config` writes: an object whose `save_directory` is `dir`. */
  function Written(dir: string): ConfigFile {
    Parsed(Some(dir))
  }

  /**
   * `load_config`: the stored directory when there is one, it is not empty
   * and it is a directory; otherwise the default, written back to the file.
   */
  function LoadConfig(file: ConfigFile, home: string, isDir: string -> bool): (r: Loaded)
    ensures r.rewritten ==> r.saveDirectory == DefaultSaveDirectory(home)
    ensures !r.rewritten ==> file == Written(r.saveDirectory) && isDir(r.saveDirectory)
  {
    match file
    case Parsed(Some(path)) =>
      if path != [] && isDir(path) then Loaded(path, false)
      else Loaded(DefaultSaveDirectory(home), true)
    case _ => Loaded(DefaultSaveDirectory(home), true)
  }

  /**
   * The directory chosen at start-up is an existing directory, unless it
   * is the default (which is not checked).
   */
  lemma LoadedIsDirectoryOrDefault(file: ConfigFile, home: string, isDir: string -> bool)
    ensures var r := LoadConfig(file, home, isDir);
      isDir(r.saveDirectory) || r.saveDirectory == DefaultSaveDirectory(home)
  {
  }

  /** A directory written by `save_config` is read back unchanged while it exists. */
  lemma SavedDirectoryReloads(dir: string, home: string, isDir: string -> bool)
    requires isDir(dir)
    ensures dir != [] ==> LoadConfig(Written(dir), home, isDir) == Loaded(dir, false)
    ensures dir == [] ==> LoadConfig(Written(dir), home, isDir) == Loaded(DefaultSaveDirectory(home), true)
  {
  }

  /**
   * Once `load_config` has run and written back what it chose, running it
   * again chooses the same directory and writes nothing, provided that
   * directory (the default, if it fell back) exists.
   */
  lemma LoadSettles(file: ConfigFile, home: string, isDir: string -> bool)
    requires isDir(DefaultSaveDirectory(home))
    ensures var first := LoadConfig(file, home, isDir);
      var after := if first.rewritten then Written(first.saveDirectory) else file;
      LoadConfig(after, home, isDir) == Loaded(first.saveDirectory, false)
  {
    var first := LoadConfig(file, home, isDir);
    if first.rewritten {
      SavedDirectoryReloads(first.saveDirectory, home, isDir);
    } else {
      assert first.saveDirectory != [];
    }
  }
}
