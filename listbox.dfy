/**
 * The two Tk listbox operations the tool uses, on the listbox's lines.
 * Tk clamps indices: inserting at or past the end appends (`tk.END` is the
 * end), and deleting a line that does not exist does nothing.
 */
module Listbox {

  /** `listbox.insert(index, line)` */
  function Insert(lines: seq<string>, index: nat, line: string): (r: seq<string>)
    ensures |r| == |lines| + 1
    ensures index <= |lines| ==> r[..index] == lines[..index] && r[index] == line
                                 && r[index + 1..] == lines[index..]
    ensures index >= |lines| ==> r == lines + [line]
  {
    if index >= |lines| then lines + [line] else lines[..index] + [line] + lines[index..]
  }

  /** `listbox.delete(index)` */
  function Delete(lines: seq<string>, index: nat): (r: seq<string>)
    ensures index < |lines| ==> |r| == |lines| - 1 && r[..index] == lines[..index]
                                && r[index..] == lines[index + 1..]
    ensures index >= |lines| ==> r == lines
  {
    if index < |lines| then lines[..index] + lines[index + 1..] else lines
  }
}
