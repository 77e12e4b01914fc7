/** A text part of the unpacked document on disk, and `inplace_change`
    (docpatch.py:24-35), which reads it and rewrites it only when the marker occurs. */
module Files {
  import opened Text

  /** A text file: the text `open(filename).read()` returns (decoded in the locale's
      encoding with universal newlines), and how many times it has been opened for
      writing (mode 'w' creates or truncates the file and rewrites it). */
  class TextFile {
    var contents: string
    var writes: nat

    constructor (initial: string)
      ensures contents == initial && writes == 0
    {
      contents := initial;
      writes := 0;
    }

    /** `open(filename, 'w')` followed by `f.write(s)`. */
    method Write(s: string)
      modifies this
      ensures contents == s && writes == old(writes) + 1
    {
      contents := s;
      writes := writes + 1;
    }

    /** `inplace_change(filename, old_string, new_string)`. When `oldString` is absent the
        file is neither changed nor reopened for writing and `false` comes back (the
        source reports it on the console); otherwise every occurrence is replaced, as
        Python's `str.replace` without a count does, and the file is written once. */
    method InplaceChange(oldString: string, newString: string) returns (changed: bool)
      modifies this
      ensures changed == Contains(old(contents), oldString)
      ensures changed ==> contents == ReplaceAll(old(contents), oldString, newString)
      ensures changed ==> writes == old(writes) + 1
      ensures !changed ==> contents == old(contents) && writes == old(writes)
    {
      var s := contents;
      if !Contains(s, oldString) {
        return false;
      }
      s := ReplaceAll(s, oldString, newString);
      Write(s);
      changed := true;
    }
  }
}
