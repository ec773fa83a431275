/**
 * `update_save_dir_label`: the save directory as shown in the window, cut
 * down to at most 35 characters by keeping its end.
 */
module Display {
  import opened Text

  /** Longest path shown unabridged. */
  const MaxShown: nat := 35
  /** How much of the end of a longer path is kept. */
  const KeptTail: nat := 32
  const Ellipsis: string := "..."

  /**
   * `display_path` in `update_save_dir_label`: the path itself when it is
   * short enough, otherwise `"..."` followed by its last 32 characters.
   */
  function DisplayPath(path: string): (r: string)
    ensures |r| <= MaxShown
    ensures |path| <= MaxShown ==> r == path
    ensures |path| > MaxShown ==> |r| == MaxShown && StartsWith(r, Ellipsis)
                                  && EndsWith(path, r[|Ellipsis|..])
  {
    if |path| > MaxShown then Ellipsis + path[|path| - KeptTail..] else path
  }

  /** The path is shown unchanged exactly when it fits. */
  lemma ShownUnchangedIffShort(path: string)
    ensures DisplayPath(path) == path <==> |path| <= MaxShown
  {
    if |path| > MaxShown {
      assert |DisplayPath(path)| < |path|;
    }
  }

  /** Abridging an already abridged path changes nothing. */
  lemma DisplayPathIdempotent(path: string)
    ensures DisplayPath(DisplayPath(path)) == DisplayPath(path)
  {
  }

  /** A long path's last 32 characters survive, in place at the end of what is shown. */
  lemma TailSurvives(path: string, k: nat)
    requires |path| > MaxShown && k < KeptTail
    ensures DisplayPath(path)[MaxShown - 1 - k] == path[|path| - 1 - k]
  {
  }

  /** The label text: `f"저장 위치: {display_path}"`. */
  function SaveDirLabel(saveDirectory: string): (r: string)
    ensures EndsWith(r, DisplayPath(saveDirectory))
    ensures |r| <= |"저장 위치: "| + MaxShown
  {
    var r := "저장 위치: " + DisplayPath(saveDirectory);
    assert r[|r| - |DisplayPath(saveDirectory)|..] == DisplayPath(saveDirectory);
    r
  }
}
