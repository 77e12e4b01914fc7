/** The advisory extension check at the start of `arm` (docpatch.py:99-106). It looks
    only at `document_name.split(".")[-1]` and never stops the run. */
module Extension {

  /** `name.split(".")[-1]`: the text after the last `.`, or the whole name when it
      has no `.`. */
  function LastField(name: string): string
    decreases |name|
  {
    if name == [] then []
    else if name[|name| - 1] == '.' then []
    else LastField(name[..|name| - 1]) + [name[|name| - 1]]
  }

  /** The last field is the longest suffix of the name without a `.`: either the
      whole name, or the part after a `.`. */
  lemma {:induction false} LastFieldSpec(name: string)
    ensures '.' !in LastField(name)
    ensures |LastField(name)| <= |name|
    ensures name == name[..|name| - |LastField(name)|] + LastField(name)
    ensures |LastField(name)| < |name| ==> name[|name| - |LastField(name)| - 1] == '.'
    decreases |name|
  {
    if name != [] && name[|name| - 1] != '.' {
      var init := name[..|name| - 1];
      var c := name[|name| - 1];
      LastFieldSpec(init);
      var r := LastField(init);
      assert LastField(name) == r + [c];
      assert name == init + [c];
      var cut := |init| - |r|;
      assert name[..|name| - |r + [c]|] == init[..cut];
      assert init == init[..cut] + r;
      if |r| < |init| {
        assert name[cut - 1] == init[cut - 1];
      }
    }
  }

  /** Whatever precedes the last `.` has no say in the last field. */
  lemma {:induction false} LastFieldAfterDot(prefix: string, ext: string)
    requires '.' !in ext
    ensures LastField(prefix + "." + ext) == ext
    decreases |ext|
  {
    var name := prefix + "." + ext;
    if ext == [] {
      assert name[|name| - 1] == '.';
    } else {
      var e := ext[..|ext| - 1];
      assert ext[|ext| - 1] in ext;
      assert name[..|name| - 1] == prefix + "." + e;
      assert forall k :: 0 <= k < |e| ==> e[k] == ext[k] && ext[k] in ext;
      LastFieldAfterDot(prefix, e);
      assert e + [ext[|ext| - 1]] == ext;
    }
  }

  /** A name without any `.` is its own last field. */
  lemma NoDotIsWhole(name: string)
    requires '.' !in name
    ensures LastField(name) == name
  {
    LastFieldSpec(name);
    assert forall i :: 0 <= i < |name| ==> name[i] in name;
  }

  /** The three outcomes of the check, each a console message, none fatal. */
  datatype Advice =
    | MacroEnabled       // `.docm`: nothing is printed
    | MacroFreeDocx      // `.docx`: the red warning that the document will not work
    | UnknownExtension   // anything else: the yellow notice that this is only a warning

  /** The branch structure of docpatch.py:99-106. */
  function Classify(name: string): Advice {
    if LastField(name) == "docm" then MacroEnabled
    else if LastField(name) == "docx" then MacroFreeDocx
    else UnknownExtension
  }

  /** Only the text after the last `.` decides the outcome. */
  lemma ClassifyByLastField(prefix: string, ext: string)
    requires '.' !in ext
    ensures Classify(prefix + "." + ext) == Classify(ext)
  {
    LastFieldAfterDot(prefix, ext);
    NoDotIsWhole(ext);
  }

  /** `split` finds no `.` in a bare name, so a name that is just `docm` (or `docx`)
      is classified as the extension itself. */
  lemma ClassifyBareName(name: string)
    requires '.' !in name
    ensures Classify(name) == (if name == "docm" then MacroEnabled
                               else if name == "docx" then MacroFreeDocx
                               else UnknownExtension)
  {
    NoDotIsWhole(name);
  }
}
